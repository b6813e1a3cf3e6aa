/**
 * The annotation document: timepoints own artifacts, artifacts own ranges,
 * and a list of connections links pairs of range ids.  This module holds the
 * values, the queries the controller asks about them, the effect of each
 * controller operation as a function on the document, and lemmas about those
 * functions.
 */
module Document {
  import opened Optional
  import opened Text

  datatype Style = Style(name: string, property: string, value: string)

  /** A range is either half-open character offsets into a text or a pixel rectangle over an image. */
  datatype Shape =
    | TextSpan(start: int, end: int)
    | BoxArea(left: real, top: real, width: real, height: real)

  datatype Range = Range(id: string, shape: Shape, color: string, note: string, selected: bool, styles: seq<Style>)

  datatype Content = TextContent(text: string) | ImageContent(imageSrc: string)

  datatype Artifact = Artifact(id: string, content: Content, ranges: seq<Range>)

  datatype Timepoint = Timepoint(id: string, name: string, selected: bool, artifacts: seq<Artifact>)

  /** `rangeIds: [range1, range2]` of the source. */
  datatype Connection = Connection(id: string, range1: string, range2: string, selected: bool, note: string, color: string)

  datatype Doc = Doc(timepoints: seq<Timepoint>, connections: seq<Connection>)

  // ---------------------------------------------------------------------
  // Sequences

  /** `s.splice(i, 1)`. */
  function RemoveAt<T>(s: seq<T>, i: nat): (r: seq<T>)
    requires i < |s|
    ensures |r| == |s| - 1
    ensures forall k :: 0 <= k < i ==> r[k] == s[k]
    ensures forall k :: i <= k < |r| ==> r[k] == s[k + 1]
  {
    s[..i] + s[i + 1..]
  }

  /** `s` is `t` with some elements dropped: `f` maps positions of `s` increasingly into `t`. */
  ghost predicate Embeds<T>(s: seq<T>, t: seq<T>, f: seq<nat>) {
    && |f| == |s|
    && (forall i :: 0 <= i < |f| ==> f[i] < |t| && s[i] == t[f[i]])
    && (forall i, j :: 0 <= i < j < |f| ==> f[i] < f[j])
  }

  ghost predicate IsSubsequence<T>(s: seq<T>, t: seq<T>) {
    exists f :: Embeds(s, t, f)
  }

  lemma RemoveAtIsSubsequence<T>(s: seq<T>, i: nat)
    requires i < |s|
    ensures IsSubsequence(RemoveAt(s, i), s)
  {
    var f := seq(|s| - 1, k requires 0 <= k < |s| - 1 => if k < i then k else k + 1);
    assert Embeds(RemoveAt(s, i), s, f);
  }

  // ---------------------------------------------------------------------
  // Connections

  /** `connection.rangeIds.indexOf(rangeId) != -1`. */
  predicate Touches(c: Connection, rangeId: string) {
    c.range1 == rangeId || c.range2 == rangeId
  }

  /** `rangeIsConnected`: some connection names the range. */
  ghost predicate IsConnected(conns: seq<Connection>, rangeId: string) {
    exists l :: 0 <= l < |conns| && Touches(conns[l], rangeId)
  }

  /** `rangesAreConnected`: some single connection names both ranges. */
  ghost predicate RangesConnected(conns: seq<Connection>, a: string, b: string) {
    exists l :: 0 <= l < |conns| && Touches(conns[l], a) && Touches(conns[l], b)
  }

  /** Two connections join the same unordered pair of range ids. */
  ghost predicate SamePair(c: Connection, d: Connection) {
    {c.range1, c.range2} == {d.range1, d.range2}
  }

  /** At most one connection per unordered pair of range ids. */
  ghost predicate UniquePairs(conns: seq<Connection>) {
    forall l, m :: 0 <= l < m < |conns| ==> !SamePair(conns[l], conns[m])
  }

  /** The connection `makeConnection` pushes for the selected ranges `a`, `b`. */
  function NewConnection(a: string, b: string): Connection {
    Connection(a + "-" + b, a, b, false, "", "color1")
  }

  lemma RangesConnectedSymmetric(conns: seq<Connection>, a: string, b: string)
    ensures RangesConnected(conns, a, b) <==> RangesConnected(conns, b, a)
  {
  }

  /** A connection for the same unordered pair as `c` is a connection between `c`'s ranges. */
  lemma SamePairConnects(c: Connection, d: Connection)
    ensures SamePair(c, d) ==> Touches(d, c.range1) && Touches(d, c.range2)
  {
    if SamePair(c, d) {
      assert c.range1 in {d.range1, d.range2};
      assert c.range2 in {d.range1, d.range2};
    }
  }

  /** Appending a connection between two ranges that are not connected keeps pairs unique. */
  lemma AppendUnconnectedKeepsPairsUnique(conns: seq<Connection>, a: string, b: string)
    requires UniquePairs(conns)
    requires !RangesConnected(conns, a, b)
    ensures UniquePairs(conns + [NewConnection(a, b)])
  {
    var c := NewConnection(a, b);
    var conns' := conns + [c];
    forall l, m | 0 <= l < m < |conns'|
      ensures !SamePair(conns'[l], conns'[m])
    {
      if m == |conns| {
        SamePairConnects(c, conns[l]);
        assert SamePair(conns[l], c) ==> SamePair(c, conns[l]);
      }
    }
  }

  /** Dropping connections never creates a duplicate pair. */
  lemma SubsequenceKeepsPairsUnique(s: seq<Connection>, t: seq<Connection>)
    requires IsSubsequence(s, t) && UniquePairs(t)
    ensures UniquePairs(s)
  {
    var f :| Embeds(s, t, f);
    forall l, m | 0 <= l < m < |s|
      ensures !SamePair(s[l], s[m])
    {
      assert s[l] == t[f[l]] && s[m] == t[f[m]] && f[l] < f[m];
    }
  }

  /** A key for the first-match searches over the connection list. */
  datatype ConnectionKey =
    | WithConnectionId(id: string)       // `connectionId === connection.id`
    | Joining(a: string, b: string)      // both ids among `connection.rangeIds`
    | SelectedConnection                 // `connections[i].selected`

  predicate ConnectionMatches(c: Connection, key: ConnectionKey) {
    match key
    case WithConnectionId(id) => c.id == id
    case Joining(a, b) => Touches(c, a) && Touches(c, b)
    case SelectedConnection => c.selected
  }

  /** Index of the first connection matching `key`. */
  function FindConnection(conns: seq<Connection>, key: ConnectionKey): (r: Option<nat>)
    ensures r.Some? ==> r.value < |conns| && ConnectionMatches(conns[r.value], key)
    ensures r.Some? ==> forall l :: 0 <= l < r.value ==> !ConnectionMatches(conns[l], key)
    ensures r.None? ==> forall l :: 0 <= l < |conns| ==> !ConnectionMatches(conns[l], key)
  {
    if conns == [] then None
    else if ConnectionMatches(conns[0], key) then Some(0)
    else match FindConnection(conns[1..], key)
      case None => None
      case Some(l) => Some(l + 1)
  }

  /**
   * The connections that survive `removeConnectionsForArtifacts`: those naming
   * no id in `ids`, in their original order.
   */
  function WithoutTouching(conns: seq<Connection>, ids: set<string>): seq<Connection> {
    if conns == [] then []
    else
      var keep := if conns[0].range1 in ids || conns[0].range2 in ids then [] else [conns[0]];
      keep + WithoutTouching(conns[1..], ids)
  }

  /** A connection survives exactly when it was there and names no id in `ids`. */
  lemma {:induction false} WithoutTouchingMembers(conns: seq<Connection>, ids: set<string>)
    ensures forall c :: c in WithoutTouching(conns, ids) <==> c in conns && c.range1 !in ids && c.range2 !in ids
  {
    if conns != [] {
      WithoutTouchingMembers(conns[1..], ids);
      assert conns == [conns[0]] + conns[1..];
    }
  }

  /**
   * One step of the backwards loop of `removeConnectionsForArtifacts`: with
   * the suffix after `l` already filtered, splicing out `l` when it touches
   * `ids` (or keeping it) leaves the suffix from `l` filtered.
   */
  lemma FilterStep(conns: seq<Connection>, ids: set<string>, l: nat, cur: seq<Connection>)
    requires l < |conns| && cur == conns[..l + 1] + WithoutTouching(conns[l + 1..], ids)
    ensures l < |cur| && cur[l] == conns[l]
    ensures conns[l].range1 in ids || conns[l].range2 in ids ==> RemoveAt(cur, l) == conns[..l] + WithoutTouching(conns[l..], ids)
    ensures !(conns[l].range1 in ids || conns[l].range2 in ids) ==> cur == conns[..l] + WithoutTouching(conns[l..], ids)
  {
    var rest := WithoutTouching(conns[l + 1..], ids);
    assert conns[l..][1..] == conns[l + 1..];
    assert WithoutTouching(conns[l..], ids) ==
      (if conns[l].range1 in ids || conns[l].range2 in ids then [] else [conns[l]]) + rest;
    assert conns[..l + 1] == conns[..l] + [conns[l]];
    assert cur[..l] == conns[..l] && cur[l + 1..] == rest;
  }

  /** An embedding into the tail of `t` shifts to an embedding into `t`, with or without `t[0]` in front. */
  lemma EmbedsIntoTail<T>(s: seq<T>, t: seq<T>, g: seq<nat>)
    requires t != [] && Embeds(s, t[1..], g)
    ensures IsSubsequence(s, t) && IsSubsequence([t[0]] + s, t)
  {
    var shifted := seq(|g|, i requires 0 <= i < |g| => g[i] + 1);
    assert Embeds(s, t, shifted);
    var withHead := [0] + shifted;
    forall i | 0 <= i < |withHead|
      ensures withHead[i] < |t| && ([t[0]] + s)[i] == t[withHead[i]]
    {
      if i > 0 {
        assert withHead[i] == g[i - 1] + 1;
      }
    }
    assert Embeds([t[0]] + s, t, withHead);
  }

  lemma {:induction false} WithoutTouchingIsSubsequence(conns: seq<Connection>, ids: set<string>)
    ensures IsSubsequence(WithoutTouching(conns, ids), conns)
  {
    if conns == [] {
      assert Embeds(WithoutTouching(conns, ids), conns, []);
    } else {
      WithoutTouchingIsSubsequence(conns[1..], ids);
      var rest := WithoutTouching(conns[1..], ids);
      var g :| Embeds(rest, conns[1..], g);
      EmbedsIntoTail(rest, conns, g);
      if conns[0].range1 in ids || conns[0].range2 in ids {
        assert WithoutTouching(conns, ids) == rest;
      } else {
        assert WithoutTouching(conns, ids) == [conns[0]] + rest;
      }
    }
  }

  // ---------------------------------------------------------------------
  // Range ids owned by ranges, artifacts and timepoints

  function IdsOf(rs: seq<Range>): set<string> {
    if rs == [] then {} else {rs[0].id} + IdsOf(rs[1..])
  }

  /** The ids `removeConnectionsForArtifacts` collects into its `ranges` object. */
  function ArtifactRangeIds(arts: seq<Artifact>): set<string> {
    if arts == [] then {} else IdsOf(arts[0].ranges) + ArtifactRangeIds(arts[1..])
  }

  function RangeIds(tps: seq<Timepoint>): set<string> {
    if tps == [] then {} else ArtifactRangeIds(tps[0].artifacts) + RangeIds(tps[1..])
  }

  lemma {:induction false} IdsOfConcat(a: seq<Range>, b: seq<Range>)
    ensures IdsOf(a + b) == IdsOf(a) + IdsOf(b)
  {
    if a != [] {
      assert (a + b)[1..] == a[1..] + b;
      IdsOfConcat(a[1..], b);
    } else {
      assert a + b == b;
    }
  }

  lemma {:induction false} ArtifactRangeIdsConcat(a: seq<Artifact>, b: seq<Artifact>)
    ensures ArtifactRangeIds(a + b) == ArtifactRangeIds(a) + ArtifactRangeIds(b)
  {
    if a != [] {
      assert (a + b)[1..] == a[1..] + b;
      ArtifactRangeIdsConcat(a[1..], b);
    } else {
      assert a + b == b;
    }
  }

  lemma {:induction false} RangeIdsConcat(a: seq<Timepoint>, b: seq<Timepoint>)
    ensures RangeIds(a + b) == RangeIds(a) + RangeIds(b)
  {
    if a != [] {
      assert (a + b)[1..] == a[1..] + b;
      RangeIdsConcat(a[1..], b);
    } else {
      assert a + b == b;
    }
  }

  // One more element at the end, the step of each traversal loop.

  lemma IdsOfSnoc(rs: seq<Range>, k: nat)
    requires k < |rs|
    ensures IdsOf(rs[..k + 1]) == IdsOf(rs[..k]) + {rs[k].id}
  {
    assert rs[..k + 1] == rs[..k] + [rs[k]];
    IdsOfConcat(rs[..k], [rs[k]]);
    assert [rs[k]][1..] == [];
  }

  lemma ArtifactRangeIdsSnoc(arts: seq<Artifact>, j: nat)
    requires j < |arts|
    ensures ArtifactRangeIds(arts[..j + 1]) == ArtifactRangeIds(arts[..j]) + IdsOf(arts[j].ranges)
  {
    assert arts[..j + 1] == arts[..j] + [arts[j]];
    ArtifactRangeIdsConcat(arts[..j], [arts[j]]);
    assert [arts[j]][1..] == [];
  }

  lemma RangeIdsSnoc(tps: seq<Timepoint>, i: nat)
    requires i < |tps|
    ensures RangeIds(tps[..i + 1]) == RangeIds(tps[..i]) + ArtifactRangeIds(tps[i].artifacts)
  {
    assert tps[..i + 1] == tps[..i] + [tps[i]];
    RangeIdsConcat(tps[..i], [tps[i]]);
    assert [tps[i]][1..] == [];
  }

  lemma IdsOfSplit(rs: seq<Range>, k: nat)
    requires k < |rs|
    ensures IdsOf(rs) == IdsOf(rs[..k]) + {rs[k].id} + IdsOf(rs[k + 1..])
    ensures IdsOf(RemoveAt(rs, k)) == IdsOf(rs[..k]) + IdsOf(rs[k + 1..])
  {
    IdsOfAround(rs, k);
    IdsOfRemoveAt(rs, k);
  }

  lemma IdsOfAround(rs: seq<Range>, k: nat)
    requires k < |rs|
    ensures IdsOf(rs) == IdsOf(rs[..k]) + {rs[k].id} + IdsOf(rs[k + 1..])
  {
    var n := k + 1;
    assert rs[..n] + rs[n..] == rs;
    IdsOfConcat(rs[..n], rs[n..]);
    IdsOfSnoc(rs, k);
  }

  lemma IdsOfRemoveAt(rs: seq<Range>, k: nat)
    requires k < |rs|
    ensures IdsOf(RemoveAt(rs, k)) == IdsOf(rs[..k]) + IdsOf(rs[k + 1..])
  {
    IdsOfConcat(rs[..k], rs[k + 1..]);
  }

  lemma ArtifactRangeIdsSplit(arts: seq<Artifact>, j: nat)
    requires j < |arts|
    ensures ArtifactRangeIds(arts) == ArtifactRangeIds(arts[..j]) + IdsOf(arts[j].ranges) + ArtifactRangeIds(arts[j + 1..])
    ensures ArtifactRangeIds(RemoveAt(arts, j)) == ArtifactRangeIds(arts[..j]) + ArtifactRangeIds(arts[j + 1..])
  {
    ArtifactRangeIdsAround(arts, j);
    ArtifactRangeIdsRemoveAt(arts, j);
  }

  lemma ArtifactRangeIdsAround(arts: seq<Artifact>, j: nat)
    requires j < |arts|
    ensures ArtifactRangeIds(arts) == ArtifactRangeIds(arts[..j]) + IdsOf(arts[j].ranges) + ArtifactRangeIds(arts[j + 1..])
  {
    var n := j + 1;
    assert arts[..n] + arts[n..] == arts;
    ArtifactRangeIdsConcat(arts[..n], arts[n..]);
    ArtifactRangeIdsSnoc(arts, j);
  }

  lemma ArtifactRangeIdsRemoveAt(arts: seq<Artifact>, j: nat)
    requires j < |arts|
    ensures ArtifactRangeIds(RemoveAt(arts, j)) == ArtifactRangeIds(arts[..j]) + ArtifactRangeIds(arts[j + 1..])
  {
    ArtifactRangeIdsConcat(arts[..j], arts[j + 1..]);
  }

  lemma RangeIdsSplit(tps: seq<Timepoint>, i: nat)
    requires i < |tps|
    ensures RangeIds(tps) == RangeIds(tps[..i]) + ArtifactRangeIds(tps[i].artifacts) + RangeIds(tps[i + 1..])
    ensures RangeIds(RemoveAt(tps, i)) == RangeIds(tps[..i]) + RangeIds(tps[i + 1..])
  {
    RangeIdsAround(tps, i);
    RangeIdsRemoveAt(tps, i);
  }

  lemma RangeIdsAround(tps: seq<Timepoint>, i: nat)
    requires i < |tps|
    ensures RangeIds(tps) == RangeIds(tps[..i]) + ArtifactRangeIds(tps[i].artifacts) + RangeIds(tps[i + 1..])
  {
    var n := i + 1;
    assert tps[..n] + tps[n..] == tps;
    RangeIdsConcat(tps[..n], tps[n..]);
    RangeIdsSnoc(tps, i);
  }

  lemma RangeIdsRemoveAt(tps: seq<Timepoint>, i: nat)
    requires i < |tps|
    ensures RangeIds(RemoveAt(tps, i)) == RangeIds(tps[..i]) + RangeIds(tps[i + 1..])
  {
    RangeIdsConcat(tps[..i], tps[i + 1..]);
  }

  /** Every connection names ranges that exist in the document. */
  ghost predicate NoDangling(d: Doc) {
    forall l :: 0 <= l < |d.connections| ==>
      d.connections[l].range1 in RangeIds(d.timepoints) && d.connections[l].range2 in RangeIds(d.timepoints)
  }

  /** The invariants the controller keeps: unique pairs and no dangling connection. */
  ghost predicate Consistent(d: Doc) {
    UniquePairs(d.connections) && NoDangling(d)
  }

  lemma {:induction false} IdsOfMember(rs: seq<Range>, x: string)
    ensures x in IdsOf(rs) <==> exists k :: 0 <= k < |rs| && rs[k].id == x
  {
    if rs != [] {
      IdsOfMember(rs[1..], x);
      if x in IdsOf(rs[1..]) {
        var k :| 0 <= k < |rs| - 1 && rs[1..][k].id == x;
        assert rs[k + 1].id == x;
      }
    }
  }

  lemma {:induction false} ArtifactRangeIdsMember(arts: seq<Artifact>, x: string)
    ensures x in ArtifactRangeIds(arts) <==> exists j :: 0 <= j < |arts| && x in IdsOf(arts[j].ranges)
  {
    if arts != [] {
      ArtifactRangeIdsMember(arts[1..], x);
      if x in ArtifactRangeIds(arts[1..]) {
        var j :| 0 <= j < |arts| - 1 && x in IdsOf(arts[1..][j].ranges);
        assert x in IdsOf(arts[j + 1].ranges);
      }
    }
  }

  lemma {:induction false} RangeIdsMember(tps: seq<Timepoint>, x: string)
    ensures x in RangeIds(tps) <==> exists i :: 0 <= i < |tps| && x in ArtifactRangeIds(tps[i].artifacts)
  {
    if tps != [] {
      RangeIdsMember(tps[1..], x);
      if x in RangeIds(tps[1..]) {
        var i :| 0 <= i < |tps| - 1 && x in ArtifactRangeIds(tps[1..][i].artifacts);
        assert x in ArtifactRangeIds(tps[i + 1].artifacts);
      }
    }
  }

  // ---------------------------------------------------------------------
  // Positions of ranges; a position stands for a reference to a range object

  datatype Pos = Pos(tp: nat, art: nat, rng: nat)

  predicate ValidPos(tps: seq<Timepoint>, p: Pos) {
    && p.tp < |tps|
    && p.art < |tps[p.tp].artifacts|
    && p.rng < |tps[p.tp].artifacts[p.art].ranges|
  }

  function RangeAt(tps: seq<Timepoint>, p: Pos): Range
    requires ValidPos(tps, p)
  {
    tps[p.tp].artifacts[p.art].ranges[p.rng]
  }

  /** `x` is the id of some range of the document exactly when some position holds a range with that id. */
  lemma RangeIdsAtPositions(tps: seq<Timepoint>, x: string)
    ensures x in RangeIds(tps) <==> exists p :: ValidPos(tps, p) && RangeAt(tps, p).id == x
  {
    RangeIdsMember(tps, x);
    if x in RangeIds(tps) {
      var i :| 0 <= i < |tps| && x in ArtifactRangeIds(tps[i].artifacts);
      ArtifactRangeIdsMember(tps[i].artifacts, x);
      var j :| 0 <= j < |tps[i].artifacts| && x in IdsOf(tps[i].artifacts[j].ranges);
      IdsOfMember(tps[i].artifacts[j].ranges, x);
      var k :| 0 <= k < |tps[i].artifacts[j].ranges| && tps[i].artifacts[j].ranges[k].id == x;
      assert ValidPos(tps, Pos(i, j, k)) && RangeAt(tps, Pos(i, j, k)).id == x;
    }
    if exists p :: ValidPos(tps, p) && RangeAt(tps, p).id == x {
      var p :| ValidPos(tps, p) && RangeAt(tps, p).id == x;
      IdsOfMember(tps[p.tp].artifacts[p.art].ranges, x);
      ArtifactRangeIdsMember(tps[p.tp].artifacts, x);
    }
  }

  /** A key for the first-match searches over all ranges. */
  datatype RangeKey =
    | RangeWithId(id: string)   // `range.id === rangeId` (getRangeById)
    | SelectedRange             // `range === selectedRange`, the one selected range (removeRange)

  predicate RangeMatches(r: Range, key: RangeKey) {
    match key
    case RangeWithId(id) => r.id == id
    case SelectedRange => r.selected
  }

  /** Index of the first range of `rs` matching `key`. */
  function FindInRanges(rs: seq<Range>, key: RangeKey): (r: Option<nat>)
    ensures r.Some? ==> r.value < |rs| && RangeMatches(rs[r.value], key)
    ensures r.Some? ==> forall k :: 0 <= k < r.value ==> !RangeMatches(rs[k], key)
    ensures r.None? ==> forall k :: 0 <= k < |rs| ==> !RangeMatches(rs[k], key)
  {
    if rs == [] then None
    else if RangeMatches(rs[0], key) then Some(0)
    else match FindInRanges(rs[1..], key)
      case None => None
      case Some(k) => Some(k + 1)
  }

  /** (artifact index, range index) of the first matching range of `arts`. */
  function FindInArtifacts(arts: seq<Artifact>, key: RangeKey): (r: Option<(nat, nat)>)
    ensures r.Some? ==> r.value.0 < |arts| && FindInRanges(arts[r.value.0].ranges, key) == Some(r.value.1)
    ensures r.Some? ==> forall j :: 0 <= j < r.value.0 ==> FindInRanges(arts[j].ranges, key).None?
    ensures r.None? ==> forall j :: 0 <= j < |arts| ==> FindInRanges(arts[j].ranges, key).None?
  {
    if arts == [] then None
    else match FindInRanges(arts[0].ranges, key)
      case Some(k) => Some((0, k))
      case None =>
        match FindInArtifacts(arts[1..], key)
        case None => None
        case Some(jk) => Some((jk.0 + 1, jk.1))
  }

  /** Position of the first range matching `key`, in the controller's traversal order. */
  function FindRange(tps: seq<Timepoint>, key: RangeKey): (r: Option<Pos>)
    ensures r.Some? ==> r.value.tp < |tps| && FindInArtifacts(tps[r.value.tp].artifacts, key) == Some((r.value.art, r.value.rng))
    ensures r.Some? ==> forall i :: 0 <= i < r.value.tp ==> FindInArtifacts(tps[i].artifacts, key).None?
    ensures r.None? ==> forall i :: 0 <= i < |tps| ==> FindInArtifacts(tps[i].artifacts, key).None?
    ensures r.Some? ==> ValidPos(tps, r.value) && RangeMatches(RangeAt(tps, r.value), key)
    ensures r.None? ==> forall p :: ValidPos(tps, p) ==> !RangeMatches(RangeAt(tps, p), key)
  {
    var r :=
      if tps == [] then None
      else match FindInArtifacts(tps[0].artifacts, key)
        case Some(jk) => Some(Pos(0, jk.0, jk.1))
        case None =>
          match FindRange(tps[1..], key)
          case None => None
          case Some(p) => Some(Pos(p.tp + 1, p.art, p.rng));
    FoundRangeMatches(tps, key, r);
    r
  }

  /** What the per-timepoint search says about a result, read as positions. */
  lemma FoundRangeMatches(tps: seq<Timepoint>, key: RangeKey, r: Option<Pos>)
    requires r.Some? ==> r.value.tp < |tps| && FindInArtifacts(tps[r.value.tp].artifacts, key) == Some((r.value.art, r.value.rng))
    requires r.None? ==> forall i :: 0 <= i < |tps| ==> FindInArtifacts(tps[i].artifacts, key).None?
    ensures r.Some? ==> ValidPos(tps, r.value) && RangeMatches(RangeAt(tps, r.value), key)
    ensures r.None? ==> forall p :: ValidPos(tps, p) ==> !RangeMatches(RangeAt(tps, p), key)
  {
    if r.None? {
      forall p | ValidPos(tps, p)
        ensures !RangeMatches(RangeAt(tps, p), key)
      {
        assert FindInArtifacts(tps[p.tp].artifacts, key).None?;
        assert FindInRanges(tps[p.tp].artifacts[p.art].ranges, key).None?;
      }
    }
  }

  /** Replace the range at `p`. */
  function UpdateRangeAt(tps: seq<Timepoint>, p: Pos, r: Range): (tps': seq<Timepoint>)
    requires ValidPos(tps, p)
  {
    var tp := tps[p.tp];
    var art := tp.artifacts[p.art];
    tps[p.tp := tp.(artifacts := tp.artifacts[p.art := art.(ranges := art.ranges[p.rng := r])])]
  }

  /** `artifact.ranges.splice(k, 1)` for the range at `p`. */
  function RemoveRangeAt(tps: seq<Timepoint>, p: Pos): seq<Timepoint>
    requires ValidPos(tps, p)
  {
    var tp := tps[p.tp];
    var art := tp.artifacts[p.art];
    tps[p.tp := tp.(artifacts := tp.artifacts[p.art := art.(ranges := RemoveAt(art.ranges, p.rng))])]
  }

  /** Replacing the ranges of one artifact changes the document's ids as it changes that artifact's ids. */
  lemma ReplaceRangesIds(tps: seq<Timepoint>, i: nat, j: nat, rs: seq<Range>)
    requires i < |tps| && j < |tps[i].artifacts|
    ensures var tp := tps[i];
      RangeIds(tps[i := tp.(artifacts := tp.artifacts[j := tp.artifacts[j].(ranges := rs)])]) ==
        RangeIds(tps[..i]) + ArtifactRangeIds(tp.artifacts[..j]) + IdsOf(rs) + ArtifactRangeIds(tp.artifacts[j + 1..]) + RangeIds(tps[i + 1..])
    ensures RangeIds(tps) ==
      RangeIds(tps[..i]) + ArtifactRangeIds(tps[i].artifacts[..j]) + IdsOf(tps[i].artifacts[j].ranges) + ArtifactRangeIds(tps[i].artifacts[j + 1..]) + RangeIds(tps[i + 1..])
  {
    var tp := tps[i];
    var arts' := tp.artifacts[j := tp.artifacts[j].(ranges := rs)];
    var tps' := tps[i := tp.(artifacts := arts')];
    RangeIdsSplit(tps, i);
    ArtifactRangeIdsSplit(tp.artifacts, j);
    RangeIdsSplit(tps', i);
    assert tps'[..i] == tps[..i] && tps'[i + 1..] == tps[i + 1..];
    ArtifactRangeIdsSplit(arts', j);
    assert arts'[..j] == tp.artifacts[..j] && arts'[j + 1..] == tp.artifacts[j + 1..];
  }

  /** Removing one range loses at most that range's id. */
  lemma RemoveRangeAtIds(tps: seq<Timepoint>, p: Pos)
    requires ValidPos(tps, p)
    ensures RangeIds(tps) - {RangeAt(tps, p).id} <= RangeIds(RemoveRangeAt(tps, p)) <= RangeIds(tps)
  {
    var rs := tps[p.tp].artifacts[p.art].ranges;
    ReplaceRangesIds(tps, p.tp, p.art, RemoveAt(rs, p.rng));
    IdsOfSplit(rs, p.rng);
  }

  /** Replacing a range by one with the same id keeps the document's ids. */
  lemma UpdateRangeAtIds(tps: seq<Timepoint>, p: Pos, r: Range)
    requires ValidPos(tps, p) && r.id == RangeAt(tps, p).id
    ensures RangeIds(UpdateRangeAt(tps, p, r)) == RangeIds(tps)
  {
    var rs := tps[p.tp].artifacts[p.art].ranges;
    ReplaceRangesIds(tps, p.tp, p.art, rs[p.rng := r]);
    IdsOfSplit(rs, p.rng);
    IdsOfSplit(rs[p.rng := r], p.rng);
    assert rs[p.rng := r][..p.rng] == rs[..p.rng] && rs[p.rng := r][p.rng + 1..] == rs[p.rng + 1..];
  }

  // ---------------------------------------------------------------------
  // Selected ranges, in traversal order (getSelectedRanges)

  function SelectedIn(rs: seq<Range>): (sel: seq<Range>)
    ensures forall r :: r in sel <==> r in rs && r.selected
  {
    if rs == [] then []
    else
      assert rs == [rs[0]] + rs[1..];
      (if rs[0].selected then [rs[0]] else []) + SelectedIn(rs[1..])
  }

  function SelectedInArtifacts(arts: seq<Artifact>): (sel: seq<Range>)
    ensures forall r :: r in sel ==> r.selected && exists j :: 0 <= j < |arts| && r in arts[j].ranges
  {
    if arts == [] then [] else SelectedIn(arts[0].ranges) + SelectedInArtifacts(arts[1..])
  }

  function SelectedRanges(tps: seq<Timepoint>): (sel: seq<Range>)
    ensures forall r :: r in sel ==> r.selected && exists p :: ValidPos(tps, p) && RangeAt(tps, p) == r
  {
    if tps == [] then []
    else
      var sel := SelectedInArtifacts(tps[0].artifacts) + SelectedRanges(tps[1..]);
      assert forall r :: r in SelectedRanges(tps[1..]) ==> exists p :: ValidPos(tps, p) && RangeAt(tps, p) == r by {
        forall r | r in SelectedRanges(tps[1..])
          ensures exists p :: ValidPos(tps, p) && RangeAt(tps, p) == r
        {
          var q :| ValidPos(tps[1..], q) && RangeAt(tps[1..], q) == r;
          assert ValidPos(tps, Pos(q.tp + 1, q.art, q.rng));
        }
      }
      assert forall r :: r in SelectedInArtifacts(tps[0].artifacts) ==> exists p :: ValidPos(tps, p) && RangeAt(tps, p) == r by {
        forall r | r in SelectedInArtifacts(tps[0].artifacts)
          ensures exists p :: ValidPos(tps, p) && RangeAt(tps, p) == r
        {
          var j :| 0 <= j < |tps[0].artifacts| && r in tps[0].artifacts[j].ranges;
          var k :| 0 <= k < |tps[0].artifacts[j].ranges| && tps[0].artifacts[j].ranges[k] == r;
          assert ValidPos(tps, Pos(0, j, k));
        }
      }
      sel
  }

  /** Every selected range is a selected range of the document, and its id is one of the document's ids. */
  lemma SelectedRangesOwned(tps: seq<Timepoint>)
    ensures forall r :: r in SelectedRanges(tps) ==> r.selected && r.id in RangeIds(tps)
  {
    forall r | r in SelectedRanges(tps)
      ensures r.id in RangeIds(tps)
    {
      RangeIdsAtPositions(tps, r.id);
    }
  }

  lemma {:induction false} SelectedInConcat(a: seq<Range>, b: seq<Range>)
    ensures SelectedIn(a + b) == SelectedIn(a) + SelectedIn(b)
  {
    if a == [] {
      assert a + b == b;
    } else {
      assert (a + b)[1..] == a[1..] + b;
      SelectedInConcat(a[1..], b);
    }
  }

  lemma {:induction false} SelectedInArtifactsConcat(a: seq<Artifact>, b: seq<Artifact>)
    ensures SelectedInArtifacts(a + b) == SelectedInArtifacts(a) + SelectedInArtifacts(b)
  {
    if a == [] {
      assert a + b == b;
    } else {
      assert (a + b)[1..] == a[1..] + b;
      SelectedInArtifactsConcat(a[1..], b);
    }
  }

  lemma {:induction false} SelectedRangesConcat(a: seq<Timepoint>, b: seq<Timepoint>)
    ensures SelectedRanges(a + b) == SelectedRanges(a) + SelectedRanges(b)
  {
    if a == [] {
      assert a + b == b;
    } else {
      assert (a + b)[1..] == a[1..] + b;
      SelectedRangesConcat(a[1..], b);
    }
  }

  lemma SelectedInSnoc(rs: seq<Range>, k: nat)
    requires k < |rs|
    ensures SelectedIn(rs[..k + 1]) == SelectedIn(rs[..k]) + (if rs[k].selected then [rs[k]] else [])
  {
    assert rs[..k + 1] == rs[..k] + [rs[k]];
    SelectedInConcat(rs[..k], [rs[k]]);
    assert [rs[k]][1..] == [];
  }

  lemma SelectedInArtifactsSnoc(arts: seq<Artifact>, j: nat)
    requires j < |arts|
    ensures SelectedInArtifacts(arts[..j + 1]) == SelectedInArtifacts(arts[..j]) + SelectedIn(arts[j].ranges)
  {
    assert arts[..j + 1] == arts[..j] + [arts[j]];
    SelectedInArtifactsConcat(arts[..j], [arts[j]]);
    assert [arts[j]][1..] == [];
  }

  lemma SelectedRangesSnoc(tps: seq<Timepoint>, i: nat)
    requires i < |tps|
    ensures SelectedRanges(tps[..i + 1]) == SelectedRanges(tps[..i]) + SelectedInArtifacts(tps[i].artifacts)
  {
    assert tps[..i + 1] == tps[..i] + [tps[i]];
    SelectedRangesConcat(tps[..i], [tps[i]]);
    assert [tps[i]][1..] == [];
  }

  /** Every range of the artifacts, artifact by artifact, in array order. */
  function RangesOfArtifacts(arts: seq<Artifact>): seq<Range> {
    if arts == [] then [] else arts[0].ranges + RangesOfArtifacts(arts[1..])
  }

  /** Every range of the document in the controller's traversal order (timepoint, artifact, range). */
  function AllRanges(tps: seq<Timepoint>): seq<Range> {
    if tps == [] then [] else RangesOfArtifacts(tps[0].artifacts) + AllRanges(tps[1..])
  }

  lemma {:induction false} SelectedInArtifactsIsFilter(arts: seq<Artifact>)
    ensures SelectedInArtifacts(arts) == SelectedIn(RangesOfArtifacts(arts))
  {
    if arts != [] {
      SelectedInArtifactsIsFilter(arts[1..]);
      SelectedInConcat(arts[0].ranges, RangesOfArtifacts(arts[1..]));
    }
  }

  /**
   * `getSelectedRanges()` returns exactly the selected ranges of the
   * document, in traversal order: it is the traversal filtered by `selected`.
   */
  lemma {:induction false} SelectedRangesIsFilter(tps: seq<Timepoint>)
    ensures SelectedRanges(tps) == SelectedIn(AllRanges(tps))
  {
    if tps != [] {
      SelectedRangesIsFilter(tps[1..]);
      SelectedInArtifactsIsFilter(tps[0].artifacts);
      SelectedInConcat(RangesOfArtifacts(tps[0].artifacts), AllRanges(tps[1..]));
    }
  }

  lemma {:induction false} RangesOfArtifactsHas(arts: seq<Artifact>, j: nat, k: nat)
    requires j < |arts| && k < |arts[j].ranges|
    ensures arts[j].ranges[k] in RangesOfArtifacts(arts)
  {
    if j > 0 {
      RangesOfArtifactsHas(arts[1..], j - 1, k);
    }
  }

  lemma {:induction false} AllRangesHas(tps: seq<Timepoint>, p: Pos)
    requires ValidPos(tps, p)
    ensures RangeAt(tps, p) in AllRanges(tps)
  {
    if p.tp == 0 {
      RangesOfArtifactsHas(tps[0].artifacts, p.art, p.rng);
    } else {
      AllRangesHas(tps[1..], Pos(p.tp - 1, p.art, p.rng));
    }
  }

  /** Within one timepoint, every selected range is collected. */
  lemma SelectedInArtifactsComplete(arts: seq<Artifact>)
    ensures forall j, k :: 0 <= j < |arts| && 0 <= k < |arts[j].ranges| && arts[j].ranges[k].selected ==>
      arts[j].ranges[k] in SelectedInArtifacts(arts)
  {
    SelectedInArtifactsIsFilter(arts);
    forall j, k | 0 <= j < |arts| && 0 <= k < |arts[j].ranges| && arts[j].ranges[k].selected
      ensures arts[j].ranges[k] in SelectedInArtifacts(arts)
    {
      RangesOfArtifactsHas(arts, j, k);
    }
  }

  /** No selected range is missed: every selected position's range is returned. */
  lemma SelectedRangesComplete(tps: seq<Timepoint>)
    ensures forall p :: ValidPos(tps, p) && RangeAt(tps, p).selected ==> RangeAt(tps, p) in SelectedRanges(tps)
  {
    SelectedRangesIsFilter(tps);
    forall p | ValidPos(tps, p) && RangeAt(tps, p).selected
      ensures RangeAt(tps, p) in SelectedRanges(tps)
    {
      AllRangesHas(tps, p);
    }
  }

  lemma {:induction false} SelectedInHead(rs: seq<Range>)
    ensures FindInRanges(rs, SelectedRange).None? <==> SelectedIn(rs) == []
    ensures FindInRanges(rs, SelectedRange).Some? ==> SelectedIn(rs)[0] == rs[FindInRanges(rs, SelectedRange).value]
  {
    if rs != [] && !rs[0].selected {
      SelectedInHead(rs[1..]);
    }
  }

  lemma {:induction false} SelectedInArtifactsHead(arts: seq<Artifact>)
    ensures FindInArtifacts(arts, SelectedRange).None? <==> SelectedInArtifacts(arts) == []
    ensures FindInArtifacts(arts, SelectedRange).Some? ==>
      var jk := FindInArtifacts(arts, SelectedRange).value;
      SelectedInArtifacts(arts)[0] == arts[jk.0].ranges[jk.1]
  {
    if arts != [] {
      SelectedInHead(arts[0].ranges);
      if FindInRanges(arts[0].ranges, SelectedRange).None? {
        SelectedInArtifactsHead(arts[1..]);
      }
    }
  }

  /** The range `removeRange` finds by identity is the head of `getSelectedRanges()`. */
  lemma {:induction false} FirstSelectedIsSelectedHead(tps: seq<Timepoint>)
    ensures FindRange(tps, SelectedRange).None? <==> SelectedRanges(tps) == []
    ensures FindRange(tps, SelectedRange).Some? ==> SelectedRanges(tps)[0] == RangeAt(tps, FindRange(tps, SelectedRange).value)
  {
    if tps != [] {
      SelectedInArtifactsHead(tps[0].artifacts);
      var here := SelectedInArtifacts(tps[0].artifacts);
      assert SelectedRanges(tps) == here + SelectedRanges(tps[1..]);
      match FindInArtifacts(tps[0].artifacts, SelectedRange)
      case Some(jk) =>
        assert FindRange(tps, SelectedRange) == Some(Pos(0, jk.0, jk.1));
      case None =>
        FirstSelectedIsSelectedHead(tps[1..]);
        assert here == [];
        match FindRange(tps[1..], SelectedRange)
        case None =>
          assert FindRange(tps, SelectedRange).None?;
        case Some(p) =>
          assert FindRange(tps, SelectedRange) == Some(Pos(p.tp + 1, p.art, p.rng));
          assert RangeAt(tps, Pos(p.tp + 1, p.art, p.rng)) == RangeAt(tps[1..], p);
    }
  }

  // ---------------------------------------------------------------------
  // rangeIsSelected

  /**
   * The number JavaScript compares `i` with in `i < selectedRanges`: the
   * array's string form (`""` when empty, `"[object Object],..."` otherwise)
   * read as a number; `None` stands for NaN.
   */
  function ArrayAsNumber(sel: seq<Range>): Option<int> {
    if sel == [] then Some(0) else None
  }

  /** `i < bound` in JavaScript: every comparison with NaN is false. */
  predicate Below(i: int, bound: Option<int>) {
    bound.Some? && i < bound.value
  }

  /** The loop of `rangeIsSelected` from index `i`, run while `i < bound`. */
  function ScanSelected(sel: seq<Range>, rangeId: string, i: nat, bound: Option<int>): bool
    requires bound.Some? ==> bound.value <= |sel|
    decreases if Below(i, bound) then bound.value - i else 0
  {
    if !Below(i, bound) then false
    else if sel[i].id == rangeId then true
    else ScanSelected(sel, rangeId, i + 1, bound)
  }

  /** `rangeIsSelected(rangeId)` as written: the loop bound is the array, not its length. */
  function RangeIsSelectedAsWritten(sel: seq<Range>, rangeId: string): bool {
    ScanSelected(sel, rangeId, 0, ArrayAsNumber(sel))
  }

  /** `rangeIsSelected(rangeId)` as evidently intended: the loop runs to `selectedRanges.length`. */
  function RangeIsSelectedIn(sel: seq<Range>, rangeId: string): bool {
    ScanSelected(sel, rangeId, 0, Some(|sel|))
  }

  /** Whatever is selected, the test as written answers false: the loop body never runs. */
  lemma RangeIsSelectedAsWrittenNeverHolds(sel: seq<Range>, rangeId: string)
    ensures !RangeIsSelectedAsWritten(sel, rangeId)
  {
    assert !Below(0, ArrayAsNumber(sel));
  }

  /** The counter-example: one selected range `r1`, and `rangeIsSelected("r1")` is false. */
  lemma RangeIsSelectedAsWrittenMissesSelection()
    ensures var r := Range("r1", TextSpan(0, 1), "", "", true, []);
      var tps := [Timepoint("t1", "", false, [Artifact("a1", TextContent("x"), [r])])];
      && SelectedRanges(tps) == [r]
      && !RangeIsSelectedAsWritten(SelectedRanges(tps), "r1")
      && RangeIsSelectedIn(SelectedRanges(tps), "r1")
  {
    var r := Range("r1", TextSpan(0, 1), "", "", true, []);
    var tps := [Timepoint("t1", "", false, [Artifact("a1", TextContent("x"), [r])])];
    assert SelectedIn([r]) == [r];
    assert SelectedInArtifacts(tps[0].artifacts) == [r];
    assert SelectedRanges(tps) == [r];
    RangeIsSelectedAsWrittenNeverHolds([r], "r1");
    RangeScanFinds([r], "r1", 0);
  }

  lemma {:induction false} RangeScanFinds(sel: seq<Range>, rangeId: string, i: nat)
    requires i <= |sel|
    ensures ScanSelected(sel, rangeId, i, Some(|sel|)) <==> exists k :: i <= k < |sel| && sel[k].id == rangeId
    decreases |sel| - i
  {
    if i < |sel| {
      RangeScanFinds(sel, rangeId, i + 1);
    }
  }

  /** The corrected test holds exactly when some selected range carries `rangeId`. */
  lemma RangeIsSelectedInIffMember(sel: seq<Range>, rangeId: string)
    ensures RangeIsSelectedIn(sel, rangeId) <==> exists r :: r in sel && r.id == rangeId
  {
    RangeScanFinds(sel, rangeId, 0);
  }
  // ---------------------------------------------------------------------
  // Edits that keep every range id in place

  /** `b` has ranges at exactly the positions of `a`, with the same ids. */
  ghost predicate SameRangeIds(a: seq<Timepoint>, b: seq<Timepoint>) {
    && (forall p :: ValidPos(a, p) <==> ValidPos(b, p))
    && (forall p :: ValidPos(a, p) ==> RangeAt(a, p).id == RangeAt(b, p).id)
  }

  /** `b` joins the same range ids as `a`, connection by connection. */
  ghost predicate SameEnds(a: seq<Connection>, b: seq<Connection>) {
    |a| == |b| && forall l :: 0 <= l < |a| ==> a[l].range1 == b[l].range1 && a[l].range2 == b[l].range2
  }

  lemma SameRangeIdsKeepsIds(a: seq<Timepoint>, b: seq<Timepoint>)
    requires SameRangeIds(a, b)
    ensures RangeIds(a) == RangeIds(b)
  {
    forall x
      ensures x in RangeIds(a) <==> x in RangeIds(b)
    {
      RangeIdsAtPositions(a, x);
      RangeIdsAtPositions(b, x);
    }
  }

  /** Changing only flags, colors, notes, titles or styles keeps the document consistent. */
  lemma RelabelKeepsConsistent(d: Doc, d': Doc)
    requires SameRangeIds(d.timepoints, d'.timepoints) && SameEnds(d.connections, d'.connections)
    ensures Consistent(d) ==> Consistent(d')
  {
    SameRangeIdsKeepsIds(d.timepoints, d'.timepoints);
    if Consistent(d) {
      forall l, m | 0 <= l < m < |d'.connections|
        ensures !SamePair(d'.connections[l], d'.connections[m])
      {
        assert !SamePair(d.connections[l], d.connections[m]);
      }
    }
  }

  // ---------------------------------------------------------------------
  // Selection flags

  /** The two ways the controller rewrites every range's `selected` flag. */
  datatype RangeEdit =
    | ClearSelection                                                 // clearAllSelectedRanges
    | SelectOnly(target: string, clear: bool, prev: Option<string>)  // updateSelection

  function EditRange(r: Range, e: RangeEdit): (r': Range)
    ensures r' == r.(selected := r'.selected)
    ensures e.ClearSelection? ==> !r'.selected
    ensures e.SelectOnly? ==> (r'.selected <==> r.id == e.target || (r.selected && !e.clear && e.prev == Some(r.id)))
  {
    match e
    case ClearSelection => r.(selected := false)
    case SelectOnly(target, clear, prev) =>
      if r.id == target then r.(selected := true)
      else if clear || prev != Some(r.id) then r.(selected := false)
      else r
  }

  function EditRangeList(rs: seq<Range>, e: RangeEdit): (r: seq<Range>)
    ensures |r| == |rs| && forall k :: 0 <= k < |rs| ==> r[k] == EditRange(rs[k], e)
  {
    seq(|rs|, k requires 0 <= k < |rs| => EditRange(rs[k], e))
  }

  function EditArtifacts(arts: seq<Artifact>, e: RangeEdit): (r: seq<Artifact>)
    ensures |r| == |arts| && forall j :: 0 <= j < |arts| ==> r[j] == arts[j].(ranges := EditRangeList(arts[j].ranges, e))
  {
    seq(|arts|, j requires 0 <= j < |arts| => arts[j].(ranges := EditRangeList(arts[j].ranges, e)))
  }

  /** Every range rewritten by `EditRange`; timepoints and artifacts are otherwise untouched. */
  function EditRanges(tps: seq<Timepoint>, e: RangeEdit): (r: seq<Timepoint>)
    ensures |r| == |tps| && forall i :: 0 <= i < |tps| ==> r[i] == tps[i].(artifacts := EditArtifacts(tps[i].artifacts, e))
    ensures SameRangeIds(tps, r)
    ensures forall p :: ValidPos(tps, p) ==> RangeAt(r, p) == EditRange(RangeAt(tps, p), e)
  {
    seq(|tps|, i requires 0 <= i < |tps| => tps[i].(artifacts := EditArtifacts(tps[i].artifacts, e)))
  }

  /** With no selected position there is no selected range to collect. */
  lemma NothingSelected(tps: seq<Timepoint>)
    requires forall p :: ValidPos(tps, p) ==> !RangeAt(tps, p).selected
    ensures SelectedRanges(tps) == []
  {
    if SelectedRanges(tps) != [] {
      assert SelectedRanges(tps)[0] in SelectedRanges(tps);
    }
  }

  /** `clearAllSelectedRanges` leaves no range selected and changes nothing else. */
  lemma ClearSelectionClears(tps: seq<Timepoint>)
    ensures SelectedRanges(EditRanges(tps, ClearSelection)) == []
    ensures forall p :: ValidPos(tps, p) ==> RangeAt(EditRanges(tps, ClearSelection), p) == RangeAt(tps, p).(selected := false)
  {
    NothingSelected(EditRanges(tps, ClearSelection));
  }

  /**
   * `updateSelection(target, clear)`: the target is selected; with `clear`
   * every other range is unselected; without it, only the previous selection
   * may stay selected.
   */
  lemma SelectOnlySelects(tps: seq<Timepoint>, target: string, clear: bool, prev: Option<string>)
    ensures var r := EditRanges(tps, SelectOnly(target, clear, prev));
      forall p :: ValidPos(tps, p) ==>
        && (RangeAt(tps, p).id == target ==> RangeAt(r, p).selected)
        && (clear && RangeAt(tps, p).id != target ==> !RangeAt(r, p).selected)
        && (RangeAt(r, p).selected && RangeAt(tps, p).id != target ==> prev == Some(RangeAt(tps, p).id) && RangeAt(tps, p).selected)
  {
  }

  /** The new `previousSelection`: the target id, or null when no range has it. */
  function NewlySelected(tps: seq<Timepoint>, target: string): (r: Option<string>)
    ensures r.Some? <==> exists p :: ValidPos(tps, p) && RangeAt(tps, p).id == target
    ensures r.Some? ==> r.value == target
  {
    RangeIdsAtPositions(tps, target);
    if target in RangeIds(tps) then Some(target) else None
  }

  /** `selectTimepoint(id)`: a timepoint is selected iff its id is `id`. */
  function SelectTimepoints(tps: seq<Timepoint>, id: string): (r: seq<Timepoint>)
    ensures |r| == |tps|
    ensures forall i :: 0 <= i < |tps| ==> (r[i].selected <==> tps[i].id == id) && r[i] == tps[i].(selected := r[i].selected)
  {
    seq(|tps|, i requires 0 <= i < |tps| => tps[i].(selected := tps[i].id == id))
  }

  /** `clearAllSelectedTimepoints`. */
  function ClearTimepoints(tps: seq<Timepoint>): (r: seq<Timepoint>)
    ensures |r| == |tps|
    ensures forall i :: 0 <= i < |tps| ==> !r[i].selected && r[i] == tps[i].(selected := false)
  {
    seq(|tps|, i requires 0 <= i < |tps| => tps[i].(selected := false))
  }

  /** `selectConnection(id)`: a connection is selected iff its id is `id`. */
  function SelectConnections(conns: seq<Connection>, id: string): (r: seq<Connection>)
    ensures |r| == |conns|
    ensures forall l :: 0 <= l < |conns| ==> (r[l].selected <==> conns[l].id == id) && r[l] == conns[l].(selected := r[l].selected)
  {
    seq(|conns|, l requires 0 <= l < |conns| => conns[l].(selected := conns[l].id == id))
  }

  /** `clearAllSelectedConnections`. */
  function ClearConnections(conns: seq<Connection>): (r: seq<Connection>)
    ensures |r| == |conns|
    ensures forall l :: 0 <= l < |conns| ==> !r[l].selected && r[l] == conns[l].(selected := false)
  {
    seq(|conns|, l requires 0 <= l < |conns| => conns[l].(selected := false))
  }

  /** `clearAllSelectedElements`: connections, then ranges, then timepoints. */
  function ClearAllSelected(d: Doc): Doc {
    Doc(ClearTimepoints(EditRanges(d.timepoints, ClearSelection)), ClearConnections(d.connections))
  }

  /** After `clearAllSelectedElements` nothing is selected, and the document stays consistent. */
  lemma ClearAllSelectedClears(d: Doc)
    ensures var d' := ClearAllSelected(d);
      && SelectedRanges(d'.timepoints) == []
      && FindConnection(d'.connections, SelectedConnection).None?
      && (forall i :: 0 <= i < |d'.timepoints| ==> !d'.timepoints[i].selected)
    ensures Consistent(d) ==> Consistent(ClearAllSelected(d))
  {
    var e := EditRanges(d.timepoints, ClearSelection);
    var d' := ClearAllSelected(d);
    assert SameRangeIds(e, d'.timepoints) by {
      forall p
        ensures ValidPos(e, p) <==> ValidPos(d'.timepoints, p)
        ensures ValidPos(e, p) ==> RangeAt(e, p) == RangeAt(d'.timepoints, p)
      {
      }
    }
    NothingSelected(d'.timepoints);
    RelabelKeepsConsistent(d, Doc(e, d.connections));
    RelabelKeepsConsistent(Doc(e, d.connections), d');
  }

  // ---------------------------------------------------------------------
  // Connecting and disconnecting

  /** `makeConnection`: with exactly two selected ranges that are not connected, append one connection. */
  ghost function MakeConnection(d: Doc): Doc {
    var sel := SelectedRanges(d.timepoints);
    if |sel| == 2 && !RangesConnected(d.connections, sel[0].id, sel[1].id) then
      d.(connections := d.connections + [NewConnection(sel[0].id, sel[1].id)])
    else d
  }

  /** The effect of `makeConnection`, and the document invariants it keeps. */
  lemma MakeConnectionEffect(d: Doc)
    ensures var sel := SelectedRanges(d.timepoints);
      MakeConnection(d) ==
        if |sel| == 2 && !RangesConnected(d.connections, sel[0].id, sel[1].id)
        then Doc(d.timepoints, d.connections + [Connection(sel[0].id + "-" + sel[1].id, sel[0].id, sel[1].id, false, "", "color1")])
        else d
    ensures UniquePairs(d.connections) ==> UniquePairs(MakeConnection(d).connections)
    ensures Consistent(d) ==> Consistent(MakeConnection(d))
  {
    var sel := SelectedRanges(d.timepoints);
    if |sel| == 2 && !RangesConnected(d.connections, sel[0].id, sel[1].id) {
      SelectedRangesOwned(d.timepoints);
      assert sel[0] in sel && sel[1] in sel;
      if UniquePairs(d.connections) {
        AppendUnconnectedKeepsPairsUnique(d.connections, sel[0].id, sel[1].id);
      }
    }
  }

  /** JavaScript truthiness of the `connectionId` argument: null, undefined and "" are false. */
  predicate Truthy(connectionId: Option<string>) {
    connectionId.Some? && connectionId.value != ""
  }

  /**
   * What `removeConnection(connectionId)` searches for: the id when it is
   * truthy, else the pair of the two selected ranges; `None` when it refuses.
   */
  function RemovalKey(d: Doc, connectionId: Option<string>): (r: Option<ConnectionKey>)
    ensures r.None? <==> !Truthy(connectionId) && |SelectedRanges(d.timepoints)| != 2
  {
    var sel := SelectedRanges(d.timepoints);
    if Truthy(connectionId) then Some(WithConnectionId(connectionId.value))
    else if |sel| == 2 then Some(Joining(sel[0].id, sel[1].id))
    else None
  }

  /** `removeConnection(connectionId)`: delete the first connection matching the key. */
  function RemoveConnection(d: Doc, connectionId: Option<string>): Doc {
    match RemovalKey(d, connectionId)
    case None => d
    case Some(key) =>
      match FindConnection(d.connections, key)
      case None => d
      case Some(l) => d.(connections := RemoveAt(d.connections, l))
  }

  /**
   * With a truthy id it deletes the first connection with that id; without
   * one it needs two selected ranges and deletes the first connection joining
   * them; otherwise, or when nothing matches, the document is unchanged.
   */
  lemma RemoveConnectionEffect(d: Doc, connectionId: Option<string>)
    ensures Truthy(connectionId) ==> RemovalKey(d, connectionId) == Some(WithConnectionId(connectionId.value))
    ensures var sel := SelectedRanges(d.timepoints);
      !Truthy(connectionId) && |sel| == 2 ==> RemovalKey(d, connectionId) == Some(Joining(sel[0].id, sel[1].id))
    ensures RemovalKey(d, connectionId).None? ==> RemoveConnection(d, connectionId) == d
    ensures RemovalKey(d, connectionId).Some? ==>
      var key := RemovalKey(d, connectionId).value;
      match FindConnection(d.connections, key)
      case None => RemoveConnection(d, connectionId) == d
      case Some(l) =>
        && ConnectionMatches(d.connections[l], key)
        && (forall m :: 0 <= m < l ==> !ConnectionMatches(d.connections[m], key))
        && RemoveConnection(d, connectionId) == d.(connections := RemoveAt(d.connections, l))
    ensures RemoveConnection(d, connectionId).timepoints == d.timepoints
    ensures IsSubsequence(RemoveConnection(d, connectionId).connections, d.connections)
    ensures Consistent(d) ==> Consistent(RemoveConnection(d, connectionId))
  {
    var d' := RemoveConnection(d, connectionId);
    if d' == d {
      assert Embeds(d.connections, d.connections, seq(|d.connections|, k => k));
    } else {
      var l := FindConnection(d.connections, RemovalKey(d, connectionId).value).value;
      RemoveAtIsSubsequence(d.connections, l);
    }
    SubsequenceConnectionsKeepConsistent(d, d'.connections);
  }

  /** Keeping a subsequence of the connections keeps the document consistent. */
  lemma SubsequenceConnectionsKeepConsistent(d: Doc, conns: seq<Connection>)
    requires IsSubsequence(conns, d.connections)
    ensures Consistent(d) ==> Consistent(d.(connections := conns))
  {
    if Consistent(d) {
      SubsequenceKeepsPairsUnique(conns, d.connections);
      var f :| Embeds(conns, d.connections, f);
      forall l | 0 <= l < |conns|
        ensures conns[l].range1 in RangeIds(d.timepoints) && conns[l].range2 in RangeIds(d.timepoints)
      {
        assert conns[l] == d.connections[f[l]];
      }
    }
  }

  // ---------------------------------------------------------------------
  // Removing the selected range

  /**
   * `removeRange`: refuse unless exactly one range is selected, and refuse
   * when that range is connected; otherwise splice it out of its artifact.
   */
  ghost function RemoveRange(d: Doc): Doc {
    if |SelectedRanges(d.timepoints)| != 1 then d
    else match FindRange(d.timepoints, SelectedRange)
      case None => d
      case Some(p) =>
        if IsConnected(d.connections, RangeAt(d.timepoints, p).id) then d
        else d.(timepoints := RemoveRangeAt(d.timepoints, p))
  }

  /**
   * `removeRange` does nothing unless exactly one range is selected, refuses a
   * connected range, and otherwise removes exactly that range, leaving the
   * connections alone; a connected range is never deleted.
   */
  lemma RemoveRangeEffect(d: Doc)
    ensures |SelectedRanges(d.timepoints)| != 1 ==> RemoveRange(d) == d
    ensures var sel := SelectedRanges(d.timepoints);
      |sel| == 1 && IsConnected(d.connections, sel[0].id) ==> RemoveRange(d) == d
    ensures var sel := SelectedRanges(d.timepoints);
      |sel| == 1 && !IsConnected(d.connections, sel[0].id) ==>
        && FindRange(d.timepoints, SelectedRange).Some?
        && var p := FindRange(d.timepoints, SelectedRange).value;
           && RangeAt(d.timepoints, p) == sel[0]
           && RemoveRange(d) == d.(timepoints := RemoveRangeAt(d.timepoints, p))
    ensures RemoveRange(d).connections == d.connections
    ensures forall x :: x in RangeIds(d.timepoints) && IsConnected(d.connections, x) ==> x in RangeIds(RemoveRange(d).timepoints)
    ensures Consistent(d) ==> Consistent(RemoveRange(d))
  {
    FirstSelectedIsSelectedHead(d.timepoints);
    var d' := RemoveRange(d);
    if d' != d {
      var p := FindRange(d.timepoints, SelectedRange).value;
      RemoveRangeAtIds(d.timepoints, p);
    }
    if Consistent(d) {
      forall l | 0 <= l < |d.connections|
        ensures d.connections[l].range1 in RangeIds(d'.timepoints) && d.connections[l].range2 in RangeIds(d'.timepoints)
      {
        assert Touches(d.connections[l], d.connections[l].range1);
        assert Touches(d.connections[l], d.connections[l].range2);
      }
    }
  }

  /** `removeSelected`: a selected connection is removed in preference to the selected range. */
  ghost function RemoveSelected(d: Doc): Doc {
    match FindConnection(d.connections, SelectedConnection)
    case Some(l) => RemoveConnection(d, Some(d.connections[l].id))
    case None => RemoveRange(d)
  }

  /**
   * With a selected connection whose id is non-empty, exactly the first
   * connection carrying that id goes and the ranges are untouched, whatever
   * ranges are selected; an empty id is falsy, so `removeConnection` falls
   * back to the selected pair. With no selected connection it is `removeRange`.
   */
  lemma RemoveSelectedEffect(d: Doc)
    ensures FindConnection(d.connections, SelectedConnection).Some? ==> RemoveSelected(d).timepoints == d.timepoints
    ensures FindConnection(d.connections, SelectedConnection).Some? ==>
      var id := d.connections[FindConnection(d.connections, SelectedConnection).value].id;
      id != "" ==>
        && FindConnection(d.connections, WithConnectionId(id)).Some?
        && var l := FindConnection(d.connections, WithConnectionId(id)).value;
           && (forall m :: 0 <= m < l ==> d.connections[m].id != id)
           && RemoveSelected(d) == d.(connections := RemoveAt(d.connections, l))
           && |RemoveSelected(d).connections| == |d.connections| - 1
    ensures FindConnection(d.connections, SelectedConnection).Some? ==>
      d.connections[FindConnection(d.connections, SelectedConnection).value].id == "" ==>
        RemoveSelected(d) == RemoveConnection(d, None)
    ensures FindConnection(d.connections, SelectedConnection).None? ==> RemoveSelected(d) == RemoveRange(d)
    ensures FindConnection(d.connections, SelectedConnection).None? ==> RemoveSelected(d).connections == d.connections
    ensures Consistent(d) ==> Consistent(RemoveSelected(d))
  {
    match FindConnection(d.connections, SelectedConnection)
    case Some(l) =>
      var id := d.connections[l].id;
      RemoveConnectionEffect(d, Some(id));
      if id != "" {
        assert ConnectionMatches(d.connections[l], WithConnectionId(id));
      }
    case None => RemoveRangeEffect(d);
  }

  // ---------------------------------------------------------------------
  // Cascade deletion

  /** `removeConnectionsForArtifacts(artifacts)`: drop every connection naming one of their ranges. */
  function RemoveConnectionsFor(conns: seq<Connection>, arts: seq<Artifact>): seq<Connection> {
    WithoutTouching(conns, ArtifactRangeIds(arts))
  }

  /** Index of the first timepoint with the given id. */
  function FindTimepoint(tps: seq<Timepoint>, id: string): (r: Option<nat>)
    ensures r.Some? ==> r.value < |tps| && tps[r.value].id == id
    ensures r.Some? ==> forall i :: 0 <= i < r.value ==> tps[i].id != id
    ensures r.None? ==> forall i :: 0 <= i < |tps| ==> tps[i].id != id
  {
    if tps == [] then None
    else if tps[0].id == id then Some(0)
    else match FindTimepoint(tps[1..], id)
      case None => None
      case Some(i) => Some(i + 1)
  }

  /** Index of the first artifact with the given id. */
  function FindArtifactIn(arts: seq<Artifact>, id: string): (r: Option<nat>)
    ensures r.Some? ==> r.value < |arts| && arts[r.value].id == id
    ensures r.Some? ==> forall j :: 0 <= j < r.value ==> arts[j].id != id
    ensures r.None? ==> forall j :: 0 <= j < |arts| ==> arts[j].id != id
  {
    if arts == [] then None
    else if arts[0].id == id then Some(0)
    else match FindArtifactIn(arts[1..], id)
      case None => None
      case Some(j) => Some(j + 1)
  }

  /** (timepoint index, artifact index) of the first artifact with the given id. */
  function FindArtifact(tps: seq<Timepoint>, id: string): (r: Option<(nat, nat)>)
    ensures r.Some? ==> r.value.0 < |tps| && FindArtifactIn(tps[r.value.0].artifacts, id) == Some(r.value.1)
    ensures r.Some? ==> forall i :: 0 <= i < r.value.0 ==> FindArtifactIn(tps[i].artifacts, id).None?
    ensures r.None? ==> forall i, j :: 0 <= i < |tps| && 0 <= j < |tps[i].artifacts| ==> tps[i].artifacts[j].id != id
  {
    if tps == [] then None
    else match FindArtifactIn(tps[0].artifacts, id)
      case Some(j) => Some((0, j))
      case None =>
        match FindArtifact(tps[1..], id)
        case None => None
        case Some(ij) => Some((ij.0 + 1, ij.1))
  }

  /** `deleteTimepoint(id)`: drop the connections into its ranges, then the timepoint. */
  function DeleteTimepoint(d: Doc, id: string): Doc {
    match FindTimepoint(d.timepoints, id)
    case None => d
    case Some(i) => Doc(RemoveAt(d.timepoints, i), RemoveConnectionsFor(d.connections, d.timepoints[i].artifacts))
  }

  /** `deleteArtifact(id)`: drop the connections into its ranges, then the artifact. */
  function DeleteArtifact(d: Doc, id: string): Doc {
    match FindArtifact(d.timepoints, id)
    case None => d
    case Some((i, j)) =>
      var tp := d.timepoints[i];
      Doc(d.timepoints[i := tp.(artifacts := RemoveAt(tp.artifacts, j))],
          RemoveConnectionsFor(d.connections, [tp.artifacts[j]]))
  }

  /** Filtering out the connections into ids `gone` keeps a document whose ids shrank by at most `gone` consistent. */
  lemma CascadeKeepsConsistent(d: Doc, tps: seq<Timepoint>, gone: set<string>)
    requires RangeIds(d.timepoints) - gone <= RangeIds(tps)
    ensures Consistent(d) ==> Consistent(Doc(tps, WithoutTouching(d.connections, gone)))
  {
    var conns := WithoutTouching(d.connections, gone);
    WithoutTouchingIsSubsequence(d.connections, gone);
    WithoutTouchingMembers(d.connections, gone);
    SubsequenceConnectionsKeepConsistent(d, conns);
    if Consistent(d) {
      forall l | 0 <= l < |conns|
        ensures conns[l].range1 in RangeIds(tps) && conns[l].range2 in RangeIds(tps)
      {
        assert conns[l] in conns;
      }
    }
  }

  /**
   * `deleteTimepoint`: when the id is found, exactly that timepoint goes, no
   * remaining connection names one of its ranges, the other connections
   * survive in order, and the document stays consistent; otherwise nothing changes.
   */
  lemma DeleteTimepointCascade(d: Doc, id: string)
    ensures FindTimepoint(d.timepoints, id).None? ==> DeleteTimepoint(d, id) == d
    ensures FindTimepoint(d.timepoints, id).Some? ==>
      var i := FindTimepoint(d.timepoints, id).value;
      var gone := ArtifactRangeIds(d.timepoints[i].artifacts);
      var d' := DeleteTimepoint(d, id);
      && d'.timepoints == RemoveAt(d.timepoints, i)
      && (forall c :: c in d'.connections <==> c in d.connections && c.range1 !in gone && c.range2 !in gone)
      && IsSubsequence(d'.connections, d.connections)
    ensures Consistent(d) ==> Consistent(DeleteTimepoint(d, id))
  {
    match FindTimepoint(d.timepoints, id)
    case None =>
    case Some(i) =>
      var gone := ArtifactRangeIds(d.timepoints[i].artifacts);
      RangeIdsSplit(d.timepoints, i);
      WithoutTouchingMembers(d.connections, gone);
      WithoutTouchingIsSubsequence(d.connections, gone);
      CascadeKeepsConsistent(d, RemoveAt(d.timepoints, i), gone);
  }

  /**
   * `deleteArtifact`: when the id is found, exactly that artifact goes from
   * its timepoint, no remaining connection names one of its ranges, the
   * other connections survive in order, and the document stays consistent;
   * otherwise nothing changes.
   */
  lemma DeleteArtifactCascade(d: Doc, id: string)
    ensures FindArtifact(d.timepoints, id).None? ==> DeleteArtifact(d, id) == d
    ensures FindArtifact(d.timepoints, id).Some? ==>
      var (i, j) := FindArtifact(d.timepoints, id).value;
      var tp := d.timepoints[i];
      var gone := IdsOf(tp.artifacts[j].ranges);
      var d' := DeleteArtifact(d, id);
      && j < |tp.artifacts| && tp.artifacts[j].id == id
      && d'.timepoints == d.timepoints[i := tp.(artifacts := RemoveAt(tp.artifacts, j))]
      && (forall c :: c in d'.connections <==> c in d.connections && c.range1 !in gone && c.range2 !in gone)
      && IsSubsequence(d'.connections, d.connections)
    ensures Consistent(d) ==> Consistent(DeleteArtifact(d, id))
  {
    match FindArtifact(d.timepoints, id)
    case None =>
    case Some((i, j)) =>
      var tps := d.timepoints;
      var tp := tps[i];
      var gone := IdsOf(tp.artifacts[j].ranges);
      assert ArtifactRangeIds([tp.artifacts[j]]) == gone by {
        assert [tp.artifacts[j]][1..] == [];
      }
      var tps' := tps[i := tp.(artifacts := RemoveAt(tp.artifacts, j))];
      RangeIdsSplit(tps, i);
      RangeIdsSplit(tps', i);
      assert tps'[..i] == tps[..i] && tps'[i + 1..] == tps[i + 1..];
      ArtifactRangeIdsSplit(tp.artifacts, j);
      WithoutTouchingMembers(d.connections, gone);
      WithoutTouchingIsSubsequence(d.connections, gone);
      CascadeKeepsConsistent(d, tps', gone);
  }

  // ---------------------------------------------------------------------
  // Id generation

  /** `parseInt(id.slice(1), 10)`. */
  function IdNumber(id: string): Option<int> {
    ParseInt(if id == "" then id else id[1..])
  }

  /** An id printed as a letter and a number reads back as that number. */
  lemma IdNumberOfPrefixed(c: char, n: nat)
    ensures IdNumber([c] + NatToDecimal(n)) == Some(n)
  {
    assert ([c] + NatToDecimal(n))[1..] == NatToDecimal(n);
    ParseIntOfDecimal(n);
  }

  /** `if (nextId < n) nextId = n;` where a NaN `n` never compares greater. */
  function Larger(m: int, n: Option<int>): (r: int)
    ensures r >= m && (n.Some? ==> r >= n.value)
    ensures r == m || n == Some(r)
  {
    if n.Some? && m < n.value then n.value else m
  }

  /** The accumulator of `getNextTimepointId`: the largest numeric suffix, starting from 0. */
  function MaxTimepointNumber(tps: seq<Timepoint>): (r: int)
    ensures r >= 0
    ensures forall i :: 0 <= i < |tps| && IdNumber(tps[i].id).Some? ==> IdNumber(tps[i].id).value <= r
  {
    if tps == [] then 0
    else
      var prefix := tps[..|tps| - 1];
      var m := MaxTimepointNumber(prefix);
      assert forall i :: 0 <= i < |prefix| ==> prefix[i] == tps[i];
      Larger(m, IdNumber(tps[|tps| - 1].id))
  }

  /** The maximum is 0, the seed, or the suffix of some timepoint. */
  lemma {:induction false} MaxTimepointNumberAttained(tps: seq<Timepoint>)
    ensures var r := MaxTimepointNumber(tps);
      r == 0 || exists i :: 0 <= i < |tps| && IdNumber(tps[i].id) == Some(r)
  {
    if tps != [] {
      var prefix := tps[..|tps| - 1];
      MaxTimepointNumberAttained(prefix);
      var m := MaxTimepointNumber(prefix);
      var last := IdNumber(tps[|tps| - 1].id);
      if !(last.Some? && m < last.value) && m != 0 {
        var i :| 0 <= i < |prefix| && IdNumber(prefix[i].id) == Some(m);
        assert prefix[i] == tps[i];
      }
    }
  }

  /** One step of the `getNextTimepointId` loop. */
  lemma MaxTimepointNumberSnoc(tps: seq<Timepoint>, i: nat)
    requires i < |tps|
    ensures MaxTimepointNumber(tps[..i + 1]) == Larger(MaxTimepointNumber(tps[..i]), IdNumber(tps[i].id))
  {
    assert tps[..i + 1][..i] == tps[..i];
  }

  /** `getNextTimepointId()`. */
  function NextTimepointId(tps: seq<Timepoint>): string {
    "t" + NatToDecimal(MaxTimepointNumber(tps) + 1)
  }

  /** The new timepoint id reads back as one more than every existing suffix, so it is fresh; it is "t1" at first. */
  lemma NextTimepointIdFresh(tps: seq<Timepoint>)
    ensures IdNumber(NextTimepointId(tps)) == Some(MaxTimepointNumber(tps) + 1)
    ensures forall i :: 0 <= i < |tps| ==> tps[i].id != NextTimepointId(tps)
    ensures tps == [] ==> NextTimepointId(tps) == "t1"
  {
    var m := MaxTimepointNumber(tps);
    var id := NextTimepointId(tps);
    NextTimepointIdNumber(tps);
    forall i | 0 <= i < |tps|
      ensures tps[i].id != id
    {
      var other := IdNumber(tps[i].id);
      assert other.Some? ==> other.value <= m;
    }
    if tps == [] {
      FirstTimepointId();
    }
  }

  lemma NextTimepointIdNumber(tps: seq<Timepoint>)
    ensures IdNumber(NextTimepointId(tps)) == Some(MaxTimepointNumber(tps) + 1)
  {
    IdNumberOfPrefixed('t', MaxTimepointNumber(tps) + 1);
  }

  lemma FirstTimepointId()
    ensures NextTimepointId([]) == "t1"
  {
    assert NatToDecimal(1) == "1";
  }

  /** The inner loop of `getNextArtifactId`, continuing from `seed`. */
  function MaxInArtifacts(arts: seq<Artifact>, seed: int): (r: int)
    ensures r >= seed
    ensures forall j :: 0 <= j < |arts| && IdNumber(arts[j].id).Some? ==> IdNumber(arts[j].id).value <= r
    ensures arts == [] ==> r == seed
  {
    if arts == [] then seed
    else
      var prefix := arts[..|arts| - 1];
      assert forall j :: 0 <= j < |prefix| ==> prefix[j] == arts[j];
      Larger(MaxInArtifacts(prefix, seed), IdNumber(arts[|arts| - 1].id))
  }

  /** The accumulator of `getNextArtifactId`, seeded with 1. */
  function MaxArtifactNumber(tps: seq<Timepoint>): (r: int)
    ensures r >= 1
    ensures forall i, j :: 0 <= i < |tps| && 0 <= j < |tps[i].artifacts| && IdNumber(tps[i].artifacts[j].id).Some? ==>
      IdNumber(tps[i].artifacts[j].id).value <= r
    ensures (forall i :: 0 <= i < |tps| ==> tps[i].artifacts == []) ==> r == 1
  {
    if tps == [] then 1
    else
      var prefix := tps[..|tps| - 1];
      assert forall i :: 0 <= i < |prefix| ==> prefix[i] == tps[i];
      MaxInArtifacts(tps[|tps| - 1].artifacts, MaxArtifactNumber(prefix))
  }

  /** One step of the inner `getNextArtifactId` loop. */
  lemma MaxInArtifactsSnoc(arts: seq<Artifact>, j: nat, seed: int)
    requires j < |arts|
    ensures MaxInArtifacts(arts[..j + 1], seed) == Larger(MaxInArtifacts(arts[..j], seed), IdNumber(arts[j].id))
  {
    assert arts[..j + 1][..j] == arts[..j];
  }

  /** One step of the outer `getNextArtifactId` loop. */
  lemma MaxArtifactNumberSnoc(tps: seq<Timepoint>, i: nat)
    requires i < |tps|
    ensures MaxArtifactNumber(tps[..i + 1]) == MaxInArtifacts(tps[i].artifacts, MaxArtifactNumber(tps[..i]))
  {
    assert tps[..i + 1][..i] == tps[..i];
  }

  /** The inner maximum is the seed or the suffix of one of the artifacts. */
  lemma {:induction false} MaxInArtifactsAttained(arts: seq<Artifact>, seed: int)
    ensures var r := MaxInArtifacts(arts, seed);
      r == seed || exists j :: 0 <= j < |arts| && IdNumber(arts[j].id) == Some(r)
  {
    if arts != [] {
      var prefix := arts[..|arts| - 1];
      MaxInArtifactsAttained(prefix, seed);
      var m := MaxInArtifacts(prefix, seed);
      var last := IdNumber(arts[|arts| - 1].id);
      if !(last.Some? && m < last.value) && m != seed {
        var j :| 0 <= j < |prefix| && IdNumber(prefix[j].id) == Some(m);
        assert prefix[j] == arts[j];
      }
    }
  }

  /** The maximum is 1, the seed, or the suffix of some artifact of some timepoint. */
  lemma {:induction false} MaxArtifactNumberAttained(tps: seq<Timepoint>)
    ensures var r := MaxArtifactNumber(tps);
      r == 1 || exists i, j :: 0 <= i < |tps| && 0 <= j < |tps[i].artifacts| && IdNumber(tps[i].artifacts[j].id) == Some(r)
  {
    if tps != [] {
      var prefix := tps[..|tps| - 1];
      MaxArtifactNumberAttained(prefix);
      var m := MaxArtifactNumber(prefix);
      var last := tps[|tps| - 1];
      MaxInArtifactsAttained(last.artifacts, m);
      if MaxInArtifacts(last.artifacts, m) == m && m != 1 {
        var i, j :| 0 <= i < |prefix| && 0 <= j < |prefix[i].artifacts| && IdNumber(prefix[i].artifacts[j].id) == Some(m);
        assert prefix[i] == tps[i];
      }
    }
  }

  /** `getNextArtifactId()`. */
  function NextArtifactId(tps: seq<Timepoint>): string {
    "a" + NatToDecimal(MaxArtifactNumber(tps) + 1)
  }

  /** The new artifact id is fresh; because of the seed 1 it is "a2", never "a1", in a document without artifacts. */
  lemma NextArtifactIdFresh(tps: seq<Timepoint>)
    ensures IdNumber(NextArtifactId(tps)) == Some(MaxArtifactNumber(tps) + 1)
    ensures forall i, j :: 0 <= i < |tps| && 0 <= j < |tps[i].artifacts| ==> tps[i].artifacts[j].id != NextArtifactId(tps)
    ensures (forall i :: 0 <= i < |tps| ==> tps[i].artifacts == []) ==> NextArtifactId(tps) == "a2"
  {
    var m := MaxArtifactNumber(tps);
    var id := NextArtifactId(tps);
    assert id == ['a'] + NatToDecimal(m + 1);
    IdNumberOfPrefixed('a', m + 1);
    forall i, j | 0 <= i < |tps| && 0 <= j < |tps[i].artifacts|
      ensures tps[i].artifacts[j].id != id
    {
      var other := IdNumber(tps[i].artifacts[j].id);
      assert other.Some? ==> other.value <= m;
    }
    if forall i :: 0 <= i < |tps| ==> tps[i].artifacts == [] {
      assert NatToDecimal(2) == "2";
    }
  }

  ghost predicate UniqueTimepointIds(tps: seq<Timepoint>) {
    forall i, j :: 0 <= i < j < |tps| ==> tps[i].id != tps[j].id
  }

  /** `makeTimepoint`: append an empty, unselected timepoint under the next id. */
  function MakeTimepoint(d: Doc): Doc {
    var id := NextTimepointId(d.timepoints);
    d.(timepoints := d.timepoints + [Timepoint(id, "Timepoint " + id, false, [])])
  }

  lemma MakeTimepointEffect(d: Doc)
    ensures var d' := MakeTimepoint(d);
      && |d'.timepoints| == |d.timepoints| + 1
      && d'.timepoints[..|d.timepoints|] == d.timepoints
      && d'.timepoints[|d.timepoints|].id !in (set i | 0 <= i < |d.timepoints| :: d.timepoints[i].id)
      && d'.timepoints[|d.timepoints|].artifacts == []
    ensures UniqueTimepointIds(d.timepoints) ==> UniqueTimepointIds(MakeTimepoint(d).timepoints)
    ensures Consistent(d) ==> Consistent(MakeTimepoint(d))
  {
    var d' := MakeTimepoint(d);
    NextTimepointIdFresh(d.timepoints);
    assert d'.timepoints[..|d.timepoints|] == d.timepoints;
    var tp := d'.timepoints[|d.timepoints|];
    RangeIdsConcat(d.timepoints, [tp]);
    assert [tp][1..] == [];
  }

  /** `makeTextArtifact(text)`: a new, unattached artifact with a fresh id and no ranges. */
  function MakeTextArtifact(tps: seq<Timepoint>, text: string): (a: Artifact)
    ensures a.content == TextContent(text) && a.ranges == []
    ensures forall i, j :: 0 <= i < |tps| && 0 <= j < |tps[i].artifacts| ==> tps[i].artifacts[j].id != a.id
  {
    NextArtifactIdFresh(tps);
    Artifact(NextArtifactId(tps), TextContent(text), [])
  }

  /** `makeImageArtifact(imageSrc)`. */
  function MakeImageArtifact(tps: seq<Timepoint>, imageSrc: string): (a: Artifact)
    ensures a.content == ImageContent(imageSrc) && a.ranges == []
    ensures forall i, j :: 0 <= i < |tps| && 0 <= j < |tps[i].artifacts| ==> tps[i].artifacts[j].id != a.id
  {
    NextArtifactIdFresh(tps);
    Artifact(NextArtifactId(tps), ImageContent(imageSrc), [])
  }

  // ---------------------------------------------------------------------
  // Styles, colors, notes and titles

  /** Index of the first style named `name`. */
  function FindStyle(styles: seq<Style>, name: string): (r: Option<nat>)
    ensures r.Some? ==> r.value < |styles| && styles[r.value].name == name
    ensures r.Some? ==> forall i :: 0 <= i < r.value ==> styles[i].name != name
    ensures r.None? ==> forall i :: 0 <= i < |styles| ==> styles[i].name != name
  {
    if styles == [] then None
    else if styles[0].name == name then Some(0)
    else match FindStyle(styles[1..], name)
      case None => None
      case Some(i) => Some(i + 1)
  }

  /** The toggle of `setRangeStyle`: remove the first style with the clicked name, or append the clicked style. */
  function ToggleStyle(styles: seq<Style>, clicked: Style): seq<Style> {
    match FindStyle(styles, clicked.name)
    case None => styles + [clicked]
    case Some(i) => RemoveAt(styles, i)
  }

  ghost predicate HasStyle(styles: seq<Style>, name: string) {
    exists i :: 0 <= i < |styles| && styles[i].name == name
  }

  ghost predicate UniqueStyleNames(styles: seq<Style>) {
    forall i, j :: 0 <= i < j < |styles| ==> styles[i].name != styles[j].name
  }

  /**
   * Toggling leaves every other style name as it was; on a list with unique
   * names it flips the clicked name's presence and keeps the names unique.
   */
  lemma ToggleStyleFlips(styles: seq<Style>, clicked: Style)
    ensures forall n :: n != clicked.name ==> (HasStyle(ToggleStyle(styles, clicked), n) <==> HasStyle(styles, n))
    ensures UniqueStyleNames(styles) ==>
      && (HasStyle(ToggleStyle(styles, clicked), clicked.name) <==> !HasStyle(styles, clicked.name))
      && UniqueStyleNames(ToggleStyle(styles, clicked))
  {
    var t := ToggleStyle(styles, clicked);
    match FindStyle(styles, clicked.name)
    case None =>
      assert t[|styles|] == clicked;
      forall n | HasStyle(styles, n)
        ensures HasStyle(t, n)
      {
        var i :| 0 <= i < |styles| && styles[i].name == n;
        assert t[i] == styles[i];
      }
      forall n | n != clicked.name && HasStyle(t, n)
        ensures HasStyle(styles, n)
      {
        var i :| 0 <= i < |t| && t[i].name == n;
        assert styles[i] == t[i];
      }
    case Some(k) =>
      forall n | n != clicked.name && HasStyle(styles, n)
        ensures HasStyle(t, n)
      {
        var i :| 0 <= i < |styles| && styles[i].name == n;
        if i < k {
          assert t[i] == styles[i];
        } else {
          assert t[i - 1] == styles[i];
        }
      }
      forall n | HasStyle(t, n)
        ensures HasStyle(styles, n)
      {
        var i :| 0 <= i < |t| && t[i].name == n;
        if i < k {
          assert t[i] == styles[i];
        } else {
          assert t[i] == styles[i + 1];
        }
      }
      if UniqueStyleNames(styles) {
        forall i | 0 <= i < |t|
          ensures t[i].name != clicked.name
        {
          if i < k {
            assert t[i] == styles[i];
          } else {
            assert t[i] == styles[i + 1];
          }
        }
      }
  }

  /** Toggling a style absent from the list twice gives back the list. */
  lemma ToggleStyleTwice(styles: seq<Style>, clicked: Style)
    requires !HasStyle(styles, clicked.name)
    ensures ToggleStyle(ToggleStyle(styles, clicked), clicked) == styles
  {
    var t := styles + [clicked];
    assert ToggleStyle(styles, clicked) == t;
    assert forall i :: 0 <= i < |styles| ==> t[i].name != clicked.name;
    var k := FindStyle(t, clicked.name);
    assert t[|styles|].name == clicked.name;
    assert k.Some? && k.value >= |styles|;
    assert RemoveAt(t, |styles|) == styles;
  }

  /** The edits `setRangeStyle`, `setRangeColor` and `setRangeNote` make to the range they find. */
  datatype RangeChange =
    | ToggleRangeStyle(clicked: Style)
    | SetRangeColor(color: string)
    | SetRangeNote(note: string)

  function ChangeRange(r: Range, ch: RangeChange): (r': Range)
    ensures r'.id == r.id && r'.selected == r.selected && r'.shape == r.shape
  {
    match ch
    case ToggleRangeStyle(clicked) => r.(styles := ToggleStyle(r.styles, clicked))
    case SetRangeColor(color) => r.(color := color)
    case SetRangeNote(note) => r.(note := note)
  }

  /** Apply `ch` to the first range with id `rangeId` (`getRangeById`); nothing when there is none. */
  function ChangeRangeById(tps: seq<Timepoint>, rangeId: string, ch: RangeChange): seq<Timepoint> {
    match FindRange(tps, RangeWithId(rangeId))
    case None => tps
    case Some(p) => UpdateRangeAt(tps, p, ChangeRange(RangeAt(tps, p), ch))
  }

  /** Replacing the range at `p` changes that position only. */
  lemma UpdateRangeAtEffect(tps: seq<Timepoint>, p: Pos, r: Range)
    requires ValidPos(tps, p)
    ensures forall q :: ValidPos(tps, q) <==> ValidPos(UpdateRangeAt(tps, p, r), q)
    ensures forall q :: ValidPos(tps, q) ==> RangeAt(UpdateRangeAt(tps, p, r), q) == if q == p then r else RangeAt(tps, q)
  {
  }

  /** The first range with the id, and only it, is changed; ids and connections stay valid. */
  lemma ChangeRangeByIdEffect(d: Doc, rangeId: string, ch: RangeChange)
    ensures var tps' := ChangeRangeById(d.timepoints, rangeId, ch);
      match FindRange(d.timepoints, RangeWithId(rangeId))
      case None => tps' == d.timepoints
      case Some(p) =>
        && RangeAt(d.timepoints, p).id == rangeId
        && (forall q :: ValidPos(d.timepoints, q) <==> ValidPos(tps', q))
        && (forall q :: ValidPos(d.timepoints, q) ==>
              RangeAt(tps', q) == if q == p then ChangeRange(RangeAt(d.timepoints, p), ch) else RangeAt(d.timepoints, q))
    ensures Consistent(d) ==> Consistent(d.(timepoints := ChangeRangeById(d.timepoints, rangeId, ch)))
  {
    var tps' := ChangeRangeById(d.timepoints, rangeId, ch);
    match FindRange(d.timepoints, RangeWithId(rangeId))
    case None =>
    case Some(p) =>
      UpdateRangeAtEffect(d.timepoints, p, ChangeRange(RangeAt(d.timepoints, p), ch));
      assert SameRangeIds(d.timepoints, tps');
      RelabelKeepsConsistent(d, d.(timepoints := tps'));
  }

  /** The edits `setConnectionColor` and `setConnectionNote` make. */
  datatype ConnectionChange = SetConnectionColor(color: string) | SetConnectionNote(note: string)

  function ChangeConnection(c: Connection, ch: ConnectionChange): (c': Connection)
    ensures c'.id == c.id && c'.range1 == c.range1 && c'.range2 == c.range2 && c'.selected == c.selected
  {
    match ch
    case SetConnectionColor(color) => c.(color := color)
    case SetConnectionNote(note) => c.(note := note)
  }

  /** Apply `ch` to the first connection with the id (`getConnectionById`). */
  function ChangeConnectionById(conns: seq<Connection>, id: string, ch: ConnectionChange): (r: seq<Connection>)
    ensures |r| == |conns|
    ensures FindConnection(conns, WithConnectionId(id)).None? ==> r == conns
    ensures FindConnection(conns, WithConnectionId(id)).Some? ==>
      var l := FindConnection(conns, WithConnectionId(id)).value;
      forall m :: 0 <= m < |conns| ==> r[m] == if m == l then ChangeConnection(conns[l], ch) else conns[m]
  {
    match FindConnection(conns, WithConnectionId(id))
    case None => conns
    case Some(l) => conns[l := ChangeConnection(conns[l], ch)]
  }

  /** `setTimepointTitle`: every timepoint with the id is renamed (the loop has no `break`). */
  function RetitleTimepoints(tps: seq<Timepoint>, id: string, title: string): (r: seq<Timepoint>)
    ensures |r| == |tps|
    ensures forall i :: 0 <= i < |tps| ==> r[i] == if tps[i].id == id then tps[i].(name := title) else tps[i]
  {
    seq(|tps|, i requires 0 <= i < |tps| => if tps[i].id == id then tps[i].(name := title) else tps[i])
  }

  /** Colors, notes, titles and selection flags of connections and timepoints do not affect consistency. */
  lemma FlagEditsKeepConsistent(d: Doc, tps': seq<Timepoint>, conns': seq<Connection>)
    requires |tps'| == |d.timepoints| && forall i :: 0 <= i < |tps'| ==> tps'[i].artifacts == d.timepoints[i].artifacts
    requires SameEnds(d.connections, conns')
    ensures Consistent(d) ==> Consistent(Doc(tps', conns'))
  {
    assert SameRangeIds(d.timepoints, tps');
    RelabelKeepsConsistent(d, Doc(tps', conns'));
  }
}
