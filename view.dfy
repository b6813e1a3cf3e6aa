/**
 * The pure helpers of the view: side midpoints of a box, the choice of the
 * shortest connector between two boxes, the CSS class of a text span, line
 * break escaping, the drag-box clamps and the midpoint of two coordinates.
 * Coordinates are exact reals.
 */
module View {
  import opened Optional

  datatype Box = Box(x: real, y: real, width: real, height: real)

  datatype Point = Point(x: real, y: real)

  // ---------------------------------------------------------------------
  // Midpoints

  /** `getMidpoint(a, b)`, written with the source's two branches. */
  function GetMidpoint(a: real, b: real): (r: real)
    ensures r == (a + b) / 2.0
  {
    if a > b then ((a - b) / 2.0) + b else ((b - a) / 2.0) + a
  }

  lemma GetMidpointSymmetric(a: real, b: real)
    ensures GetMidpoint(a, b) == GetMidpoint(b, a)
    ensures (if a <= b then a else b) <= GetMidpoint(a, b) <= (if a <= b then b else a)
  {
  }

  /** The point halfway between `p` and `q`. */
  function MidpointOf(p: Point, q: Point): Point {
    Point(GetMidpoint(p.x, q.x), GetMidpoint(p.y, q.y))
  }

  function TopLeft(b: Box): Point { Point(b.x, b.y) }
  function TopRight(b: Box): Point { Point(b.x + b.width, b.y) }
  function BottomLeft(b: Box): Point { Point(b.x, b.y + b.height) }
  function BottomRight(b: Box): Point { Point(b.x + b.width, b.y + b.height) }

  /** `rightSide(box)`. */
  function RightSide(b: Box): Point { Point(b.x + b.width, b.y + (b.height / 2.0)) }

  /** `leftSide(box)`. */
  function LeftSide(b: Box): Point { Point(b.x, b.y + (b.height / 2.0)) }

  /** `topSide(box)`. */
  function TopSide(b: Box): Point { Point(b.x + (b.width / 2.0), b.y) }

  /** `bottomSide(box)`. */
  function BottomSide(b: Box): Point { Point(b.x + (b.width / 2.0), b.y + b.height) }

  /** Each side function gives the midpoint of the edge between that side's two corners. */
  lemma SidesAreEdgeMidpoints(b: Box)
    ensures RightSide(b) == MidpointOf(TopRight(b), BottomRight(b))
    ensures LeftSide(b) == MidpointOf(TopLeft(b), BottomLeft(b))
    ensures TopSide(b) == MidpointOf(TopLeft(b), TopRight(b))
    ensures BottomSide(b) == MidpointOf(BottomLeft(b), BottomRight(b))
  {
  }

  // ---------------------------------------------------------------------
  // The shortest connector

  function Abs(v: real): real {
    if v < 0.0 then -v else v
  }

  /** `getPerimeter(point1, point2)`: 2|dx| + 2|dy|. */
  function Perimeter(p: Point, q: Point): (r: real)
    ensures r >= 0.0
    ensures r == 0.0 <==> p == q
  {
    (2.0 * Abs(p.x - q.x)) + (2.0 * Abs(p.y - q.y))
  }

  lemma PerimeterSymmetric(p: Point, q: Point)
    ensures Perimeter(p, q) == Perimeter(q, p)
  {
  }

  datatype Side = Right | Left | Top | Bottom

  function SidePoint(b: Box, s: Side): Point {
    match s
    case Right => RightSide(b)
    case Left => LeftSide(b)
    case Top => TopSide(b)
    case Bottom => BottomSide(b)
  }

  /** The (box1 side, box2 side) pairs of `getBestConnection`, in the source's order; same-side pairs are left out. */
  function CandidateSides(): (r: seq<(Side, Side)>)
    ensures |r| == 12
    ensures forall i :: 0 <= i < |r| ==> r[i].0 != r[i].1
    ensures forall i, j :: 0 <= i < j < |r| ==> r[i] != r[j]
  {
    [(Right, Left), (Left, Right),
     (Right, Top), (Top, Right),
     (Right, Bottom), (Bottom, Right),
     (Left, Top), (Top, Left),
     (Left, Bottom), (Bottom, Left),
     (Top, Bottom), (Bottom, Top)]
  }

  /** Every pair of two different sides is a candidate. */
  lemma CandidateSidesCoverDistinctSides(s1: Side, s2: Side)
    ensures (s1, s2) in CandidateSides() <==> s1 != s2
  {
    var r := CandidateSides();
    match (s1, s2)
    case (Right, Left) => assert r[0] == (s1, s2);
    case (Left, Right) => assert r[1] == (s1, s2);
    case (Right, Top) => assert r[2] == (s1, s2);
    case (Top, Right) => assert r[3] == (s1, s2);
    case (Right, Bottom) => assert r[4] == (s1, s2);
    case (Bottom, Right) => assert r[5] == (s1, s2);
    case (Left, Top) => assert r[6] == (s1, s2);
    case (Top, Left) => assert r[7] == (s1, s2);
    case (Left, Bottom) => assert r[8] == (s1, s2);
    case (Bottom, Left) => assert r[9] == (s1, s2);
    case (Top, Bottom) => assert r[10] == (s1, s2);
    case (Bottom, Top) => assert r[11] == (s1, s2);
    case _ =>
  }

  /** The `permutations` array of `getBestConnection`. */
  function Permutations(box1: Box, box2: Box): (r: seq<(Point, Point)>)
    ensures |r| == 12
    ensures forall i :: 0 <= i < 12 ==> r[i] == (SidePoint(box1, CandidateSides()[i].0), SidePoint(box2, CandidateSides()[i].1))
  {
    var sides := CandidateSides();
    seq(12, i requires 0 <= i < 12 => (SidePoint(box1, sides[i].0), SidePoint(box2, sides[i].1)))
  }

  function Cost(pair: (Point, Point)): real {
    Perimeter(pair.0, pair.1)
  }

  /**
   * Index `b` among the first `n` candidates has the smallest positive cost,
   * and every earlier candidate with a positive cost is strictly dearer.
   */
  ghost predicate BestAmong(perms: seq<(Point, Point)>, n: nat, b: nat) {
    && b < n <= |perms|
    && Cost(perms[b]) > 0.0
    && (forall j :: 0 <= j < n && Cost(perms[j]) > 0.0 ==> Cost(perms[b]) <= Cost(perms[j]))
    && (forall j :: 0 <= j < b && Cost(perms[j]) > 0.0 ==> Cost(perms[b]) < Cost(perms[j]))
  }

  /** There is at most one best candidate. */
  lemma BestAmongUnique(perms: seq<(Point, Point)>, n: nat, b: nat, c: nat)
    requires BestAmong(perms, n, b) && BestAmong(perms, n, c)
    ensures b == c
  {
  }

  /**
   * The loop of `getBestConnection` over a candidate list: keep a candidate
   * whose positive perimeter is strictly below the best so far.
   * `Number.MAX_VALUE`, the initial bound, is "no bound yet".
   */
  method ShortestPair(permutations: seq<(Point, Point)>) returns (shortestPair: Option<(Point, Point)>)
    ensures shortestPair.None? <==> forall i :: 0 <= i < |permutations| ==> Cost(permutations[i]) == 0.0
    ensures shortestPair.Some? ==> exists b: nat :: BestAmong(permutations, |permutations|, b) && shortestPair.value == permutations[b]
  {
    var shortest: Option<real> := None;
    shortestPair := None;
    ghost var b: nat := 0;
    for i := 0 to |permutations|
      invariant shortest.None? <==> shortestPair.None?
      invariant shortest.None? ==> forall j :: 0 <= j < i ==> Cost(permutations[j]) == 0.0
      invariant shortest.Some? ==>
        BestAmong(permutations, i, b) && shortestPair == Some(permutations[b]) && shortest.value == Cost(permutations[b])
    {
      var perm := permutations[i];
      var perimeter := Cost(perm);
      if perimeter > 0.0 && (shortest.None? || perimeter < shortest.value) {
        shortest := Some(perimeter);
        shortestPair := Some(perm);
        b := i;
      }
    }
  }

  /** `getBestConnection(box1, box2)`: the earliest candidate with the smallest positive perimeter, or null. */
  method GetBestConnection(box1: Box, box2: Box) returns (best: Option<(Point, Point)>)
    ensures var perms := Permutations(box1, box2);
      best.None? <==> forall i :: 0 <= i < |perms| ==> Cost(perms[i]) == 0.0
    ensures var perms := Permutations(box1, box2);
      best.Some? ==> exists b: nat :: BestAmong(perms, |perms|, b) && best.value == perms[b]
  {
    var permutations := Permutations(box1, box2);
    best := ShortestPair(permutations);
  }

  /** Two 10x10 boxes side by side, 90 apart: the right side of the first meets the left side of the second. */
  lemma AdjacentBoxesConnectRightToLeft()
    ensures var perms := Permutations(Box(0.0, 0.0, 10.0, 10.0), Box(100.0, 0.0, 10.0, 10.0));
      && perms[0] == (Point(10.0, 5.0), Point(100.0, 5.0))
      && Cost(perms[0]) == 180.0
      && BestAmong(perms, |perms|, 0)
  {
    var perms := Permutations(Box(0.0, 0.0, 10.0, 10.0), Box(100.0, 0.0, 10.0, 10.0));
    forall j | 0 <= j < 12
      ensures Cost(perms[j]) >= 180.0
    {
    }
  }

  /** Two points-sized boxes in the same place have only zero-length candidates, so no connector is drawn. */
  lemma CoincidentPointsHaveNoConnector(x: real, y: real)
    ensures var perms := Permutations(Box(x, y, 0.0, 0.0), Box(x, y, 0.0, 0.0));
      forall i :: 0 <= i < |perms| ==> Cost(perms[i]) == 0.0
  {
  }

  // ---------------------------------------------------------------------
  // The CSS class of a text span

  /** The fields of a span datum that `makeSpanClass` reads; `id` is `None` when undefined. */
  datatype SpanDatum = SpanDatum(id: Option<string>, color: string, truncation: string, selected: bool)

  /** `makeSpanClass(d)`. */
  function MakeSpanClass(d: SpanDatum): (klass: string)
    ensures d.id.None? ==> klass == ""
    ensures d.id.Some? ==> |klass| >= 11 + |d.color| && klass[..11 + |d.color|] == "allborders " + d.color
  {
    if d.id.None? then ""
    else
      var klass := "allborders " + d.color;
      var klass :=
        if d.truncation == "left" then klass + " truncatedLeft"
        else if d.truncation == "right" then klass + " truncatedRight"
        else if d.truncation == "both" then klass + " truncatedBoth"
        else klass;
      var klass := if d.selected then klass + " selected" else klass;
      klass
  }

  datatype Truncation = NotTruncated | TruncatedLeft | TruncatedRight | TruncatedBoth

  function TruncationOf(truncation: string): Truncation {
    if truncation == "left" then TruncatedLeft
    else if truncation == "right" then TruncatedRight
    else if truncation == "both" then TruncatedBoth
    else NotTruncated
  }

  /** The class suffix that encodes the truncation and the selection. */
  function Suffix(t: Truncation, selected: bool): string {
    var trunc := match t
      case NotTruncated => ""
      case TruncatedLeft => " truncatedLeft"
      case TruncatedRight => " truncatedRight"
      case TruncatedBoth => " truncatedBoth";
    trunc + (if selected then " selected" else "")
  }

  lemma SuffixInjective(t1: Truncation, s1: bool, t2: Truncation, s2: bool)
    requires Suffix(t1, s1) == Suffix(t2, s2)
    ensures t1 == t2 && s1 == s2
  {
    var a, b := Suffix(t1, s1), Suffix(t2, s2);
    if |a| > 0 {
      assert a[|a| - 1] == b[|b| - 1];
    }
    if |a| >= 2 {
      assert a[1] == b[1] && a[|a| - 2] == b[|b| - 2];
    }
    if |a| >= 12 {
      assert a[11] == b[11];
    }
  }

  /**
   * The class names the color, exactly one truncation marker for the
   * recognised truncations, and " selected" exactly for selected spans:
   * for a given color, the class determines truncation and selection.
   */
  lemma MakeSpanClassShape(d: SpanDatum)
    requires d.id.Some?
    ensures MakeSpanClass(d) == "allborders " + d.color + Suffix(TruncationOf(d.truncation), d.selected)
  {
    var prefix := "allborders " + d.color;
    var t := TruncationOf(d.truncation);
    var trunc := Suffix(t, false);
    assert Suffix(t, d.selected) == trunc + (if d.selected then " selected" else "");
    assert MakeSpanClass(d) == prefix + trunc + (if d.selected then " selected" else "");
  }

  lemma MakeSpanClassDecodes(d1: SpanDatum, d2: SpanDatum)
    requires d1.id.Some? && d2.id.Some? && d1.color == d2.color
    ensures MakeSpanClass(d1) == MakeSpanClass(d2) ==>
      TruncationOf(d1.truncation) == TruncationOf(d2.truncation) && d1.selected == d2.selected
  {
    var prefix := "allborders " + d1.color;
    MakeSpanClassShape(d1);
    MakeSpanClassShape(d2);
    if MakeSpanClass(d1) == MakeSpanClass(d2) {
      assert MakeSpanClass(d1)[|prefix|..] == Suffix(TruncationOf(d1.truncation), d1.selected);
      assert MakeSpanClass(d2)[|prefix|..] == Suffix(TruncationOf(d2.truncation), d2.selected);
      SuffixInjective(TruncationOf(d1.truncation), d1.selected, TruncationOf(d2.truncation), d2.selected);
    }
  }

  // ---------------------------------------------------------------------
  // Line breaks

  const Br: string := " <br />"

  predicate IsLineBreak(c: char) {
    c == '\r' || c == '\n'
  }

  /** `s.replace(/\r\n/g, " <br />")`: left to right, without overlap. */
  function ReplaceCrlf(s: string): string {
    if |s| >= 2 && s[0] == '\r' && s[1] == '\n' then Br + ReplaceCrlf(s[2..])
    else if s == [] then []
    else [s[0]] + ReplaceCrlf(s[1..])
  }

  /** `s.replace(/[\r\n]/g, " <br />")`. */
  function ReplaceCrOrLf(s: string): (r: string)
    ensures forall i :: 0 <= i < |r| ==> !IsLineBreak(r[i])
  {
    if s == [] then []
    else (if IsLineBreak(s[0]) then Br else [s[0]]) + ReplaceCrOrLf(s[1..])
  }

  /** `escapeLineBreaks(s)`: CRLF pairs first, then the remaining lone CRs and LFs. */
  function EscapeLineBreaks(s: string): (r: string)
    ensures forall i :: 0 <= i < |r| ==> !IsLineBreak(r[i])
  {
    ReplaceCrOrLf(ReplaceCrlf(s))
  }

  /** The intended escaping in one pass: a CRLF pair, or a lone CR or LF, each becomes one `Br`. */
  function EscapeOnePass(s: string): string {
    if |s| >= 2 && s[0] == '\r' && s[1] == '\n' then Br + EscapeOnePass(s[2..])
    else if s == [] then []
    else if IsLineBreak(s[0]) then Br + EscapeOnePass(s[1..])
    else [s[0]] + EscapeOnePass(s[1..])
  }

  lemma {:induction false} ReplaceCrOrLfConcat(a: string, b: string)
    ensures ReplaceCrOrLf(a + b) == ReplaceCrOrLf(a) + ReplaceCrOrLf(b)
  {
    if a == [] {
      assert a + b == b;
    } else {
      assert (a + b)[1..] == a[1..] + b;
      ReplaceCrOrLfConcat(a[1..], b);
    }
  }

  /** Text without line breaks is left as it is; in particular ` <br />` itself. */
  lemma {:induction false} ReplaceCrOrLfKeepsPlainText(s: string)
    requires forall i :: 0 <= i < |s| ==> !IsLineBreak(s[i])
    ensures ReplaceCrOrLf(s) == s
  {
    if s != [] {
      ReplaceCrOrLfKeepsPlainText(s[1..]);
    }
  }

  /** The two global replacements together escape every CRLF, CR and LF exactly once. */
  lemma {:induction false} EscapeLineBreaksIsOnePass(s: string)
    ensures EscapeLineBreaks(s) == EscapeOnePass(s)
  {
    if |s| >= 2 && s[0] == '\r' && s[1] == '\n' {
      EscapeLineBreaksIsOnePass(s[2..]);
      ReplaceCrOrLfConcat(Br, ReplaceCrlf(s[2..]));
      ReplaceCrOrLfKeepsPlainText(Br);
    } else if s != [] {
      EscapeLineBreaksIsOnePass(s[1..]);
      ReplaceCrOrLfConcat([s[0]], ReplaceCrlf(s[1..]));
      if IsLineBreak(s[0]) {
        assert ReplaceCrOrLf([s[0]]) == Br + ReplaceCrOrLf([]);
      } else {
        assert ReplaceCrOrLf([s[0]]) == [s[0]] + ReplaceCrOrLf([]);
      }
    }
  }

  /** A CRLF pair gives one break; an LF followed by a CR is two lone breaks. */
  lemma EscapeLineBreaksExamples()
    ensures EscapeLineBreaks("\r\n") == Br
    ensures EscapeLineBreaks("\n\r") == Br + Br
  {
    EscapeLineBreaksIsOnePass("\r\n");
    EscapeLineBreaksIsOnePass("\n\r");
    assert "\r\n"[2..] == [];
    assert "\n\r"[1..] == "\r" && "\r"[1..] == [];
  }

  // ---------------------------------------------------------------------
  // Drag-box clamps

  function Min(a: real, b: real): real { if a <= b then a else b }
  function Max(a: real, b: real): real { if a >= b then a else b }

  /** `smallerWithMin(a, b, min)`: the smaller of `a` and `b`, but not below `min`. */
  function SmallerWithMin(a: real, b: real, min: real): (r: real)
    ensures r >= min && r >= Min(a, b)
    ensures r == min || r == Min(a, b)
  {
    Max(min, Min(a, b))
  }

  /** `largerWithMax(a, b, max)`: the larger of `a` and `b`, but not above `max`. */
  function LargerWithMax(a: real, b: real, max: real): (r: real)
    ensures r <= max && r <= Max(a, b)
    ensures r == max || r == Max(a, b)
  {
    Min(max, Max(a, b))
  }

  /**
   * The width (or height) `getDragBoxWidth` computes from the mouse
   * coordinate `cur`, the drag origin and the bounds of the image.
   */
  function DragExtent(cur: real, origin: real, min: real, max: real): real {
    LargerWithMax(cur, origin, max) - SmallerWithMin(cur, origin, min)
  }

  /** With the origin inside the bounds, the drag box never has a negative extent. */
  lemma DragExtentNonNegative(cur: real, origin: real, min: real, max: real)
    requires min <= origin <= max
    ensures DragExtent(cur, origin, min, max) >= 0.0
    ensures min <= SmallerWithMin(cur, origin, min) <= origin <= LargerWithMax(cur, origin, max) <= max
  {
  }
}
