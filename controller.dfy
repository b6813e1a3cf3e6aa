/**
 * The editor controller: the document held in two mutable lists, the
 * `shiftDown` and `previousSelection` fields, and the loops that query and
 * update them.  Each method is proved against the function of module
 * `Document` that states its effect.
 */
module Controller {
  import opened Optional
  import opened Text
  import opened Document

  // ---------------------------------------------------------------------
  // Traversals over one level of the document

  /** The innermost loop of `getSelectedRanges`. */
  method CollectSelectedIn(rs: seq<Range>) returns (sel: seq<Range>)
    ensures sel == SelectedIn(rs)
  {
    sel := [];
    for k := 0 to |rs|
      invariant sel == SelectedIn(rs[..k])
    {
      SelectedInSnoc(rs, k);
      if rs[k].selected {
        sel := sel + [rs[k]];
      }
    }
    assert rs[..|rs|] == rs;
  }

  method CollectSelectedInArtifacts(arts: seq<Artifact>) returns (sel: seq<Range>)
    ensures sel == SelectedInArtifacts(arts)
  {
    sel := [];
    for j := 0 to |arts|
      invariant sel == SelectedInArtifacts(arts[..j])
    {
      SelectedInArtifactsSnoc(arts, j);
      var more := CollectSelectedIn(arts[j].ranges);
      sel := sel + more;
    }
    assert arts[..|arts|] == arts;
  }

  /** The range loop of `getRangeById` and `removeRange`: the first range matching `key`. */
  method LocateInRanges(rs: seq<Range>, key: RangeKey) returns (r: Option<nat>)
    ensures r == FindInRanges(rs, key)
  {
    for k := 0 to |rs|
      invariant forall m :: 0 <= m < k ==> !RangeMatches(rs[m], key)
    {
      if RangeMatches(rs[k], key) {
        return Some(k);
      }
    }
    return None;
  }

  method LocateInArtifacts(arts: seq<Artifact>, key: RangeKey) returns (r: Option<(nat, nat)>)
    ensures r == FindInArtifacts(arts, key)
  {
    for j := 0 to |arts|
      invariant forall m :: 0 <= m < j ==> FindInRanges(arts[m].ranges, key).None?
    {
      var k := LocateInRanges(arts[j].ranges, key);
      if k.Some? {
        return Some((j, k.value));
      }
    }
    return None;
  }

  /** The position of the first range matching `key`, in traversal order. */
  method LocateRange(tps: seq<Timepoint>, key: RangeKey) returns (r: Option<Pos>)
    ensures r == FindRange(tps, key)
  {
    for i := 0 to |tps|
      invariant forall m :: 0 <= m < i ==> FindInArtifacts(tps[m].artifacts, key).None?
    {
      var jk := LocateInArtifacts(tps[i].artifacts, key);
      if jk.Some? {
        return Some(Pos(i, jk.value.0, jk.value.1));
      }
    }
    return None;
  }

  /** The artifact loop of `getArtifactById` and `deleteArtifact`. */
  method LocateArtifactIn(arts: seq<Artifact>, id: string) returns (r: Option<nat>)
    ensures r == FindArtifactIn(arts, id)
  {
    for j := 0 to |arts|
      invariant forall m :: 0 <= m < j ==> arts[m].id != id
    {
      if arts[j].id == id {
        return Some(j);
      }
    }
    return None;
  }

  method LocateArtifact(tps: seq<Timepoint>, id: string) returns (r: Option<(nat, nat)>)
    ensures r == FindArtifact(tps, id)
  {
    for i := 0 to |tps|
      invariant forall m :: 0 <= m < i ==> FindArtifactIn(tps[m].artifacts, id).None?
    {
      var j := LocateArtifactIn(tps[i].artifacts, id);
      if j.Some? {
        return Some((i, j.value));
      }
    }
    return None;
  }

  /** The search loop of `deleteTimepoint`. */
  method LocateTimepoint(tps: seq<Timepoint>, id: string) returns (r: Option<nat>)
    ensures r == FindTimepoint(tps, id)
  {
    for i := 0 to |tps|
      invariant forall m :: 0 <= m < i ==> tps[m].id != id
    {
      if tps[i].id == id {
        return Some(i);
      }
    }
    return None;
  }

  /** The connection loops of `getSelectedConnection`, `getConnectionById` and `removeConnection`. */
  method LocateConnection(conns: seq<Connection>, key: ConnectionKey) returns (r: Option<nat>)
    ensures r == FindConnection(conns, key)
  {
    for l := 0 to |conns|
      invariant forall m :: 0 <= m < l ==> !ConnectionMatches(conns[m], key)
    {
      if ConnectionMatches(conns[l], key) {
        return Some(l);
      }
    }
    return None;
  }

  /** The loop of `rangeIsSelected`, run to `selectedRanges.length`. */
  method ScanForRangeId(sel: seq<Range>, rangeId: string) returns (b: bool)
    ensures b == RangeIsSelectedIn(sel, rangeId)
  {
    for i := 0 to |sel|
      invariant RangeIsSelectedIn(sel, rangeId) == ScanSelected(sel, rangeId, i, Some(|sel|))
    {
      if sel[i].id == rangeId {
        return true;
      }
    }
    return false;
  }

  /** The first loop of `removeConnectionsForArtifacts`: the ids of all their ranges. */
  method CollectRangeIds(arts: seq<Artifact>) returns (ids: set<string>)
    ensures ids == ArtifactRangeIds(arts)
  {
    ids := {};
    for j := 0 to |arts|
      invariant ids == ArtifactRangeIds(arts[..j])
    {
      ArtifactRangeIdsSnoc(arts, j);
      var rs := arts[j].ranges;
      var inner := {};
      for k := 0 to |rs|
        invariant inner == IdsOf(rs[..k])
      {
        IdsOfSnoc(rs, k);
        inner := inner + {rs[k].id};
      }
      assert rs[..|rs|] == rs;
      ids := ids + inner;
    }
    assert arts[..|arts|] == arts;
  }

  /**
   * The range loop of `updateSelection` (and of `clearAllSelectedRanges`):
   * rewrite every flag, remembering the target id once seen.
   */
  method EditRangesIn(rs: seq<Range>, e: RangeEdit, seen: Option<string>) returns (out: seq<Range>, seen': Option<string>)
    ensures out == EditRangeList(rs, e)
    ensures e.SelectOnly? ==> seen' == if e.target in IdsOf(rs) then Some(e.target) else seen
  {
    out := rs;
    seen' := seen;
    for k := 0 to |rs|
      invariant |out| == |rs|
      invariant forall m :: 0 <= m < k ==> out[m] == EditRange(rs[m], e)
      invariant forall m :: k <= m < |rs| ==> out[m] == rs[m]
      invariant e.SelectOnly? ==> seen' == if e.target in IdsOf(rs[..k]) then Some(e.target) else seen
    {
      IdsOfSnoc(rs, k);
      var range := out[k];
      match e
      case ClearSelection =>
        out := out[k := range.(selected := false)];
      case SelectOnly(target, clear, prev) =>
        if range.id == target {
          out := out[k := range.(selected := true)];
          seen' := Some(range.id);
        } else if clear || prev != Some(range.id) {
          out := out[k := range.(selected := false)];
        }
    }
    assert rs[..|rs|] == rs;
  }

  method EditArtifactsIn(arts: seq<Artifact>, e: RangeEdit, seen: Option<string>) returns (out: seq<Artifact>, seen': Option<string>)
    ensures out == EditArtifacts(arts, e)
    ensures e.SelectOnly? ==> seen' == if e.target in ArtifactRangeIds(arts) then Some(e.target) else seen
  {
    out := arts;
    seen' := seen;
    for j := 0 to |arts|
      invariant |out| == |arts|
      invariant forall m :: 0 <= m < j ==> out[m] == arts[m].(ranges := EditRangeList(arts[m].ranges, e))
      invariant forall m :: j <= m < |arts| ==> out[m] == arts[m]
      invariant e.SelectOnly? ==> seen' == if e.target in ArtifactRangeIds(arts[..j]) then Some(e.target) else seen
    {
      ArtifactRangeIdsSnoc(arts, j);
      var rs;
      rs, seen' := EditRangesIn(out[j].ranges, e, seen');
      out := out[j := out[j].(ranges := rs)];
    }
    assert arts[..|arts|] == arts;
  }

  /** The loop of `getNextTimepointId`: the largest numeric suffix, from 0. */
  method ScanTimepointNumbers(tps: seq<Timepoint>) returns (nextId: int)
    ensures nextId == MaxTimepointNumber(tps)
  {
    nextId := 0;
    for i := 0 to |tps|
      invariant nextId == MaxTimepointNumber(tps[..i])
    {
      MaxTimepointNumberSnoc(tps, i);
      var tId := IdNumber(tps[i].id);
      if tId.Some? && nextId < tId.value {
        nextId := tId.value;
      }
    }
    assert tps[..|tps|] == tps;
  }

  /** The nested loops of `getNextArtifactId`: the largest numeric suffix, from 1. */
  method ScanArtifactNumbers(tps: seq<Timepoint>) returns (nextId: int)
    ensures nextId == MaxArtifactNumber(tps)
  {
    nextId := 1;
    for i := 0 to |tps|
      invariant nextId == MaxArtifactNumber(tps[..i])
    {
      MaxArtifactNumberSnoc(tps, i);
      nextId := ScanArtifactsFrom(tps[i].artifacts, nextId);
    }
    assert tps[..|tps|] == tps;
  }

  /** The inner loop of `getNextArtifactId`, continuing from `seed`. */
  method ScanArtifactsFrom(arts: seq<Artifact>, seed: int) returns (nextId: int)
    ensures nextId == MaxInArtifacts(arts, seed)
  {
    nextId := seed;
    for j := 0 to |arts|
      invariant nextId == MaxInArtifacts(arts[..j], seed)
    {
      MaxInArtifactsSnoc(arts, j, seed);
      var aId := IdNumber(arts[j].id);
      if aId.Some? && nextId < aId.value {
        nextId := aId.value;
      }
    }
    assert arts[..|arts|] == arts;
  }

  /**
   * The outer loop over timepoints shared by `updateSelection` and
   * `clearAllSelectedRanges`; `seen'` is the id `updateSelection` records.
   */
  method EditTimepointsIn(tps: seq<Timepoint>, e: RangeEdit, seen: Option<string>) returns (out: seq<Timepoint>, seen': Option<string>)
    ensures out == EditRanges(tps, e)
    ensures e.SelectOnly? ==> seen' == if e.target in RangeIds(tps) then Some(e.target) else seen
  {
    out := tps;
    seen' := seen;
    for i := 0 to |tps|
      invariant |out| == |tps|
      invariant forall m :: 0 <= m < i ==> out[m] == tps[m].(artifacts := EditArtifacts(tps[m].artifacts, e))
      invariant forall m :: i <= m < |tps| ==> out[m] == tps[m]
      invariant e.SelectOnly? ==> seen' == if e.target in RangeIds(tps[..i]) then Some(e.target) else seen
    {
      RangeIdsSnoc(tps, i);
      var arts;
      arts, seen' := EditArtifactsIn(out[i].artifacts, e, seen');
      out := out[i := out[i].(artifacts := arts)];
    }
    assert tps[..|tps|] == tps;
  }

  // ---------------------------------------------------------------------
  // The controller

  class Editor {
    var timepoints: seq<Timepoint>
    var connections: seq<Connection>
    var shiftDown: bool
    var previousSelection: Option<string>

    function State(): Doc
      reads this
    {
      Doc(timepoints, connections)
    }

    /** The state after `loadData`: the loaded lists, shift released, no previous selection. */
    constructor (timepoints: seq<Timepoint>, connections: seq<Connection>)
      ensures this.timepoints == timepoints && this.connections == connections
      ensures !shiftDown && previousSelection == None
    {
      this.timepoints := timepoints;
      this.connections := connections;
      shiftDown := false;
      previousSelection := None;
    }

    // -------------------------------------------------------------------
    // Queries

    /** `getSelectedRanges()`. */
    method GetSelectedRanges() returns (sel: seq<Range>)
      ensures sel == SelectedRanges(timepoints)
    {
      sel := [];
      for i := 0 to |timepoints|
        invariant sel == SelectedRanges(timepoints[..i])
      {
        SelectedRangesSnoc(timepoints, i);
        var more := CollectSelectedInArtifacts(timepoints[i].artifacts);
        sel := sel + more;
      }
      assert timepoints[..|timepoints|] == timepoints;
    }

    /**
     * `rangeIsSelected(rangeId)` with the loop bound the code evidently
     * intends, `selectedRanges.length`; the test as written is
     * `RangeIsSelectedAsWritten`, which never holds.
     */
    method RangeIsSelected(rangeId: string) returns (b: bool)
      ensures b == RangeIsSelectedIn(SelectedRanges(timepoints), rangeId)
      ensures b <==> exists r :: r in SelectedRanges(timepoints) && r.id == rangeId
    {
      var selectedRanges := GetSelectedRanges();
      b := ScanForRangeId(selectedRanges, rangeId);
      RangeIsSelectedInIffMember(selectedRanges, rangeId);
    }

    /** `getSelectedConnection()`: the first selected connection, or null. */
    method GetSelectedConnection() returns (c: Option<Connection>)
      ensures c.Some? <==> exists l :: 0 <= l < |connections| && connections[l].selected
      ensures c.Some? ==> exists l :: 0 <= l < |connections| && connections[l] == c.value && c.value.selected &&
                                      forall m :: 0 <= m < l ==> !connections[m].selected
    {
      var l := LocateConnection(connections, SelectedConnection);
      c := if l.Some? then Some(connections[l.value]) else None;
    }

    /** `getConnectionById(id)`. */
    method GetConnectionById(id: string) returns (c: Option<Connection>)
      ensures FindConnection(connections, WithConnectionId(id)).None? <==> c.None?
      ensures c.Some? ==> c == Some(connections[FindConnection(connections, WithConnectionId(id)).value]) && c.value.id == id
    {
      var l := LocateConnection(connections, WithConnectionId(id));
      c := if l.Some? then Some(connections[l.value]) else None;
    }

    /** `getRangeById(id)`. */
    method GetRangeById(rangeId: string) returns (r: Option<Range>)
      ensures r.None? <==> forall p :: ValidPos(timepoints, p) ==> RangeAt(timepoints, p).id != rangeId
      ensures r.Some? ==> FindRange(timepoints, RangeWithId(rangeId)).Some? && r.value.id == rangeId &&
                          r.value == RangeAt(timepoints, FindRange(timepoints, RangeWithId(rangeId)).value)
    {
      var p := LocateRange(timepoints, RangeWithId(rangeId));
      r := if p.Some? then Some(RangeAt(timepoints, p.value)) else None;
    }

    /** `getArtifactById(id)`. */
    method GetArtifactById(id: string) returns (a: Option<Artifact>)
      ensures a.None? <==> forall i, j :: 0 <= i < |timepoints| && 0 <= j < |timepoints[i].artifacts| ==> timepoints[i].artifacts[j].id != id
      ensures a.Some? ==> a.value.id == id && exists i :: 0 <= i < |timepoints| && a.value in timepoints[i].artifacts
      ensures a.Some? ==> FindArtifact(timepoints, id).Some? &&
                          var (i, j) := FindArtifact(timepoints, id).value;
                          a.value == timepoints[i].artifacts[j]
    {
      var ij := LocateArtifact(timepoints, id);
      match ij
      case None =>
        a := None;
      case Some((i, j)) =>
        a := Some(timepoints[i].artifacts[j]);
        assert a.value in timepoints[i].artifacts;
    }

    /** `rangeIsConnected(rangeId)`. */
    method RangeIsConnected(rangeId: string) returns (b: bool)
      ensures b <==> IsConnected(connections, rangeId)
    {
      for l := 0 to |connections|
        invariant forall m :: 0 <= m < l ==> !Touches(connections[m], rangeId)
      {
        if Touches(connections[l], rangeId) {
          return true;
        }
      }
      return false;
    }

    /** `rangesAreConnected(rangeId1, rangeId2)`. */
    method RangesAreConnected(rangeId1: string, rangeId2: string) returns (b: bool)
      ensures b <==> RangesConnected(connections, rangeId1, rangeId2)
    {
      for l := 0 to |connections|
        invariant forall m :: 0 <= m < l ==> !(Touches(connections[m], rangeId1) && Touches(connections[m], rangeId2))
      {
        if Touches(connections[l], rangeId1) && Touches(connections[l], rangeId2) {
          return true;
        }
      }
      return false;
    }

    /**
     * `rangeIsConnectable(rangeId)`: one or two ranges must be selected; with
     * two, `rangeId` is one of them and they are not yet connected; with one,
     * `rangeId` is another range not yet connected to it.
     */
    method RangeIsConnectable(rangeId: string) returns (b: bool)
      ensures var sel := SelectedRanges(timepoints);
        && (|sel| == 0 || |sel| > 2 ==> !b)
        && (|sel| == 1 ==> (b <==> sel[0].id != rangeId && !RangesConnected(connections, sel[0].id, rangeId)))
        && (|sel| == 2 ==> (b <==> (sel[0].id == rangeId || sel[1].id == rangeId) && !RangesConnected(connections, sel[0].id, sel[1].id)))
    {
      var selectedRanges := GetSelectedRanges();
      if |selectedRanges| > 2 || |selectedRanges| == 0 {
        return false;
      }
      if |selectedRanges| == 2 {
        var connected := RangesAreConnected(selectedRanges[0].id, selectedRanges[1].id);
        if (selectedRanges[0].id != rangeId && selectedRanges[1].id != rangeId) || connected {
          return false;
        }
      }
      if |selectedRanges| == 1 {
        if selectedRanges[0].id == rangeId {
          return false;
        }
        var connected := RangesAreConnected(selectedRanges[0].id, rangeId);
        if connected {
          return false;
        }
      }
      return true;
    }

    /** `getNextTimepointId()`. */
    method GetNextTimepointId() returns (id: string)
      ensures id == NextTimepointId(timepoints)
    {
      var nextId := ScanTimepointNumbers(timepoints);
      id := "t" + NatToDecimal(nextId + 1);
    }

    /** `getNextArtifactId()`. */
    method GetNextArtifactId() returns (id: string)
      ensures id == NextArtifactId(timepoints)
    {
      var nextId := ScanArtifactNumbers(timepoints);
      id := "a" + NatToDecimal(nextId + 1);
    }

    /** `makeTextArtifact(text)`: the artifact is returned, not added. */
    method MakeTextArtifact(text: string) returns (a: Artifact)
      ensures a == Document.MakeTextArtifact(timepoints, text)
    {
      var id := GetNextArtifactId();
      a := Artifact(id, TextContent(text), []);
    }

    /** `makeImageArtifact(imageSrc)`: the artifact is returned, not added. */
    method MakeImageArtifact(imageSrc: string) returns (a: Artifact)
      ensures a == Document.MakeImageArtifact(timepoints, imageSrc)
    {
      var id := GetNextArtifactId();
      a := Artifact(id, ImageContent(imageSrc), []);
    }

    // -------------------------------------------------------------------
    // Selection

    /**
     * `updateSelection(rangeIdToSelect, clearPrevious)`: `clearPrevious`
     * defaults to `!shiftDown`; the loop rewrites every range's flag and
     * `previousSelection` becomes the target id, or null when no range has it.
     */
    method UpdateSelection(rangeIdToSelect: string, clearPrevious: Option<bool>)
      modifies this
      ensures var clear := clearPrevious.GetOr(!old(shiftDown));
        timepoints == EditRanges(old(timepoints), SelectOnly(rangeIdToSelect, clear, old(previousSelection)))
      ensures previousSelection == NewlySelected(old(timepoints), rangeIdToSelect)
      ensures connections == old(connections) && shiftDown == old(shiftDown)
      ensures old(Consistent(State())) ==> Consistent(State())
    {
      RelabelKeepsConsistent(State(), Doc(EditRanges(timepoints, SelectOnly(rangeIdToSelect, clearPrevious.GetOr(!shiftDown), previousSelection)), connections));
      var clear := clearPrevious.GetOr(!shiftDown);
      var e := SelectOnly(rangeIdToSelect, clear, previousSelection);
      var newlySelected;
      timepoints, newlySelected := EditTimepointsIn(timepoints, e, None);
      previousSelection := newlySelected;
    }

    /** `clearAllSelectedRanges`: every range unselected (the source clears the collected ranges by reference). */
    method ClearAllSelectedRanges()
      modifies this
      ensures timepoints == EditRanges(old(timepoints), ClearSelection)
      ensures connections == old(connections) && shiftDown == old(shiftDown) && previousSelection == old(previousSelection)
      ensures old(Consistent(State())) ==> Consistent(State())
    {
      RelabelKeepsConsistent(State(), Doc(EditRanges(timepoints, ClearSelection), connections));
      var unused;
      timepoints, unused := EditTimepointsIn(timepoints, ClearSelection, None);
    }

    /** `selectTimepoint(id)`. */
    method SelectTimepoint(id: string)
      modifies this
      ensures timepoints == SelectTimepoints(old(timepoints), id)
      ensures connections == old(connections) && shiftDown == old(shiftDown) && previousSelection == old(previousSelection)
      ensures old(Consistent(State())) ==> Consistent(State())
    {
      FlagEditsKeepConsistent(State(), SelectTimepoints(timepoints, id), connections);
      ghost var tps := timepoints;
      for i := 0 to |timepoints|
        invariant |timepoints| == |tps|
        invariant forall m :: 0 <= m < i ==> timepoints[m] == tps[m].(selected := tps[m].id == id)
        invariant forall m :: i <= m < |tps| ==> timepoints[m] == tps[m]
        invariant connections == old(connections)
        invariant shiftDown == old(shiftDown) && previousSelection == old(previousSelection)
      {
        timepoints := timepoints[i := timepoints[i].(selected := timepoints[i].id == id)];
      }
    }

    /** `clearAllSelectedTimepoints`. */
    method ClearAllSelectedTimepoints()
      modifies this
      ensures timepoints == ClearTimepoints(old(timepoints))
      ensures connections == old(connections) && shiftDown == old(shiftDown) && previousSelection == old(previousSelection)
      ensures old(Consistent(State())) ==> Consistent(State())
    {
      FlagEditsKeepConsistent(State(), ClearTimepoints(timepoints), connections);
      ghost var tps := timepoints;
      for i := 0 to |timepoints|
        invariant |timepoints| == |tps|
        invariant forall m :: 0 <= m < i ==> timepoints[m] == tps[m].(selected := false)
        invariant forall m :: i <= m < |tps| ==> timepoints[m] == tps[m]
        invariant connections == old(connections)
        invariant shiftDown == old(shiftDown) && previousSelection == old(previousSelection)
      {
        timepoints := timepoints[i := timepoints[i].(selected := false)];
      }
    }

    /** `selectConnection(id)`. */
    method SelectConnection(id: string)
      modifies this
      ensures connections == SelectConnections(old(connections), id)
      ensures timepoints == old(timepoints) && shiftDown == old(shiftDown) && previousSelection == old(previousSelection)
      ensures old(Consistent(State())) ==> Consistent(State())
    {
      FlagEditsKeepConsistent(State(), timepoints, SelectConnections(connections, id));
      ghost var conns := connections;
      for l := 0 to |connections|
        invariant |connections| == |conns|
        invariant forall m :: 0 <= m < l ==> connections[m] == conns[m].(selected := conns[m].id == id)
        invariant forall m :: l <= m < |conns| ==> connections[m] == conns[m]
        invariant timepoints == old(timepoints)
        invariant shiftDown == old(shiftDown) && previousSelection == old(previousSelection)
      {
        connections := connections[l := connections[l].(selected := connections[l].id == id)];
      }
    }

    /** `clearAllSelectedConnections`. */
    method ClearAllSelectedConnections()
      modifies this
      ensures connections == ClearConnections(old(connections))
      ensures timepoints == old(timepoints) && shiftDown == old(shiftDown) && previousSelection == old(previousSelection)
      ensures old(Consistent(State())) ==> Consistent(State())
    {
      FlagEditsKeepConsistent(State(), timepoints, ClearConnections(connections));
      ghost var conns := connections;
      for l := 0 to |connections|
        invariant |connections| == |conns|
        invariant forall m :: 0 <= m < l ==> connections[m] == conns[m].(selected := false)
        invariant forall m :: l <= m < |conns| ==> connections[m] == conns[m]
        invariant timepoints == old(timepoints)
        invariant shiftDown == old(shiftDown) && previousSelection == old(previousSelection)
      {
        connections := connections[l := connections[l].(selected := false)];
      }
    }

    /** `clearAllSelectedElements`. */
    method ClearAllSelectedElements()
      modifies this
      ensures State() == ClearAllSelected(old(State()))
      ensures shiftDown == old(shiftDown) && previousSelection == old(previousSelection)
      ensures old(Consistent(State())) ==> Consistent(State())
    {
      ClearAllSelectedConnections();
      ClearAllSelectedRanges();
      ClearAllSelectedTimepoints();
    }

    // -------------------------------------------------------------------
    // Connecting and removing

    /** `makeConnection()`. */
    method MakeConnection()
      modifies this
      ensures State() == Document.MakeConnection(old(State()))
      ensures shiftDown == old(shiftDown) && previousSelection == old(previousSelection)
      ensures old(Consistent(State())) ==> Consistent(State())
    {
      MakeConnectionEffect(State());
      var selectedRanges := GetSelectedRanges();
      if |selectedRanges| == 2 {
        var r1 := selectedRanges[0];
        var r2 := selectedRanges[1];
        var connected := RangesAreConnected(r1.id, r2.id);
        if !connected {
          connections := connections + [Connection(r1.id + "-" + r2.id, r1.id, r2.id, false, "", "color1")];
        }
      }
    }

    /** `removeConnection(connectionId)`; `None` stands for a missing argument. */
    method RemoveConnection(connectionId: Option<string>)
      modifies this
      ensures State() == Document.RemoveConnection(old(State()), connectionId)
      ensures shiftDown == old(shiftDown) && previousSelection == old(previousSelection)
      ensures old(Consistent(State())) ==> Consistent(State())
    {
      RemoveConnectionEffect(State(), connectionId);
      var selectedRanges := GetSelectedRanges();
      if |selectedRanges| == 2 || Truthy(connectionId) {
        // a truthy id wins over the selected pair, as in the loop's inner test
        var key := if Truthy(connectionId) then WithConnectionId(connectionId.value)
                   else Joining(selectedRanges[0].id, selectedRanges[1].id);
        assert RemovalKey(State(), connectionId) == Some(key);
        var l := LocateConnection(connections, key);
        if l.Some? {
          connections := RemoveAt(connections, l.value);
        }
      }
    }

    /** `removeRange()`. */
    method RemoveRange()
      modifies this
      ensures State() == Document.RemoveRange(old(State()))
      ensures shiftDown == old(shiftDown) && previousSelection == old(previousSelection)
      ensures old(Consistent(State())) ==> Consistent(State())
    {
      RemoveRangeEffect(State());
      var selectedRanges := GetSelectedRanges();
      if |selectedRanges| != 1 {
        return;
      }
      // `range === selectedRange`: the one selected range
      var p := LocateRange(timepoints, SelectedRange);
      if p.Some? {
        var range := RangeAt(timepoints, p.value);
        var connected := RangeIsConnected(range.id);
        if !connected {
          timepoints := RemoveRangeAt(timepoints, p.value);
        }
      }
    }

    /** `removeSelected()`. */
    method RemoveSelected()
      modifies this
      ensures State() == Document.RemoveSelected(old(State()))
      ensures shiftDown == old(shiftDown) && previousSelection == old(previousSelection)
      ensures old(Consistent(State())) ==> Consistent(State())
    {
      RemoveSelectedEffect(State());
      var l := LocateConnection(connections, SelectedConnection);
      if l.Some? {
        RemoveConnection(Some(connections[l.value].id));
      } else {
        RemoveRange();
      }
    }

    // -------------------------------------------------------------------
    // Cascade deletion

    /** `removeConnectionsForArtifacts(artifacts)`: the backwards splice loop. */
    method RemoveConnectionsForArtifacts(artifacts: seq<Artifact>)
      modifies this
      ensures connections == RemoveConnectionsFor(old(connections), artifacts)
      ensures timepoints == old(timepoints) && shiftDown == old(shiftDown) && previousSelection == old(previousSelection)
      ensures old(Consistent(State())) ==> Consistent(State())
    {
      WithoutTouchingIsSubsequence(connections, ArtifactRangeIds(artifacts));
      SubsequenceConnectionsKeepConsistent(State(), RemoveConnectionsFor(connections, artifacts));
      var ranges := CollectRangeIds(artifacts);
      ghost var conns := connections;
      var l := |connections| - 1;
      while l >= 0
        invariant -1 <= l < |conns|
        invariant connections == conns[..l + 1] + WithoutTouching(conns[l + 1..], ranges)
        invariant timepoints == old(timepoints)
        invariant shiftDown == old(shiftDown) && previousSelection == old(previousSelection)
        decreases l
      {
        FilterStep(conns, ranges, l, connections);
        var connection := connections[l];
        if connection.range1 in ranges || connection.range2 in ranges {
          connections := RemoveAt(connections, l);
        }
        l := l - 1;
      }
      assert conns[0..] == conns;
    }

    /** `deleteTimepoint(timepointId)`. */
    method DeleteTimepoint(timepointId: string)
      modifies this
      ensures State() == Document.DeleteTimepoint(old(State()), timepointId)
      ensures shiftDown == old(shiftDown) && previousSelection == old(previousSelection)
      ensures old(Consistent(State())) ==> Consistent(State())
    {
      DeleteTimepointCascade(State(), timepointId);
      var found := LocateTimepoint(timepoints, timepointId);
      if found.Some? {
        var timepoint := timepoints[found.value];
        RemoveConnectionsForArtifacts(timepoint.artifacts);
        timepoints := RemoveAt(timepoints, found.value);
      }
    }

    /** `deleteArtifact(artifactId)`. */
    method DeleteArtifact(artifactId: string)
      modifies this
      ensures State() == Document.DeleteArtifact(old(State()), artifactId)
      ensures shiftDown == old(shiftDown) && previousSelection == old(previousSelection)
      ensures old(Consistent(State())) ==> Consistent(State())
    {
      DeleteArtifactCascade(State(), artifactId);
      var found := LocateArtifact(timepoints, artifactId);
      match found
      case None =>
      case Some((i, j)) =>
        var timepoint := timepoints[i];
        RemoveConnectionsForArtifacts([timepoint.artifacts[j]]);
        timepoints := timepoints[i := timepoint.(artifacts := RemoveAt(timepoint.artifacts, j))];
    }

    // -------------------------------------------------------------------
    // Creation and editing

    /** `makeTimepoint()`. */
    method MakeTimepoint()
      modifies this
      ensures State() == Document.MakeTimepoint(old(State()))
      ensures shiftDown == old(shiftDown) && previousSelection == old(previousSelection)
      ensures old(Consistent(State())) ==> Consistent(State())
    {
      MakeTimepointEffect(State());
      var nextId := GetNextTimepointId();
      timepoints := timepoints + [Timepoint(nextId, "Timepoint " + nextId, false, [])];
    }

    /** `setTimepointTitle(timepointId, newTitle)`. */
    method SetTimepointTitle(timepointId: string, newTitle: string)
      modifies this
      ensures timepoints == RetitleTimepoints(old(timepoints), timepointId, newTitle)
      ensures connections == old(connections) && shiftDown == old(shiftDown) && previousSelection == old(previousSelection)
      ensures old(Consistent(State())) ==> Consistent(State())
    {
      FlagEditsKeepConsistent(State(), RetitleTimepoints(timepoints, timepointId, newTitle), connections);
      ghost var tps := timepoints;
      for i := 0 to |timepoints|
        invariant |timepoints| == |tps|
        invariant forall m :: 0 <= m < i ==> timepoints[m] == if tps[m].id == timepointId then tps[m].(name := newTitle) else tps[m]
        invariant forall m :: i <= m < |tps| ==> timepoints[m] == tps[m]
        invariant connections == old(connections)
        invariant shiftDown == old(shiftDown) && previousSelection == old(previousSelection)
      {
        if timepoints[i].id == timepointId {
          timepoints := timepoints[i := timepoints[i].(name := newTitle)];
        }
      }
    }

    /** `setRangeStyle(rangeId, clickedStyle)`: toggle the style by name on the first range with the id. */
    method SetRangeStyle(rangeId: string, clickedStyle: Style)
      modifies this
      ensures timepoints == ChangeRangeById(old(timepoints), rangeId, ToggleRangeStyle(clickedStyle))
      ensures connections == old(connections) && shiftDown == old(shiftDown) && previousSelection == old(previousSelection)
      ensures old(Consistent(State())) ==> Consistent(State())
    {
      ChangeRangeByIdEffect(State(), rangeId, ToggleRangeStyle(clickedStyle));
      var p := LocateRange(timepoints, RangeWithId(rangeId));
      if p.Some? {
        var range := RangeAt(timepoints, p.value);
        var styles := range.styles;
        var removeThis := -1;
        for i := 0 to |styles|
          invariant forall m :: 0 <= m < i ==> styles[m].name != clickedStyle.name
        {
          if styles[i].name == clickedStyle.name {
            removeThis := i;
            break;
          }
        }
        assert removeThis == -1 <==> FindStyle(styles, clickedStyle.name).None?;
        assert removeThis != -1 ==> FindStyle(styles, clickedStyle.name) == Some(removeThis);
        if removeThis == -1 {
          styles := styles + [clickedStyle];
        } else {
          styles := RemoveAt(styles, removeThis);
        }
        timepoints := UpdateRangeAt(timepoints, p.value, range.(styles := styles));
      }
    }

    /** `setRangeColor(rangeId, color)`. */
    method SetRangeColor(rangeId: string, color: string)
      modifies this
      ensures timepoints == ChangeRangeById(old(timepoints), rangeId, Document.SetRangeColor(color))
      ensures connections == old(connections) && shiftDown == old(shiftDown) && previousSelection == old(previousSelection)
      ensures old(Consistent(State())) ==> Consistent(State())
    {
      ChangeRangeByIdEffect(State(), rangeId, Document.SetRangeColor(color));
      var p := LocateRange(timepoints, RangeWithId(rangeId));
      if p.Some? {
        var range := RangeAt(timepoints, p.value);
        timepoints := UpdateRangeAt(timepoints, p.value, range.(color := color));
      }
    }

    /** `setRangeNote(rangeId, note)`. */
    method SetRangeNote(rangeId: string, note: string)
      modifies this
      ensures timepoints == ChangeRangeById(old(timepoints), rangeId, Document.SetRangeNote(note))
      ensures connections == old(connections) && shiftDown == old(shiftDown) && previousSelection == old(previousSelection)
      ensures old(Consistent(State())) ==> Consistent(State())
    {
      ChangeRangeByIdEffect(State(), rangeId, Document.SetRangeNote(note));
      var p := LocateRange(timepoints, RangeWithId(rangeId));
      if p.Some? {
        var range := RangeAt(timepoints, p.value);
        timepoints := UpdateRangeAt(timepoints, p.value, range.(note := note));
      }
    }

    /** `setConnectionColor(connectionId, color)`. */
    method SetConnectionColor(connectionId: string, color: string)
      modifies this
      ensures connections == ChangeConnectionById(old(connections), connectionId, Document.SetConnectionColor(color))
      ensures timepoints == old(timepoints) && shiftDown == old(shiftDown) && previousSelection == old(previousSelection)
      ensures old(Consistent(State())) ==> Consistent(State())
    {
      FlagEditsKeepConsistent(State(), timepoints, ChangeConnectionById(connections, connectionId, Document.SetConnectionColor(color)));
      var l := LocateConnection(connections, WithConnectionId(connectionId));
      if l.Some? {
        connections := connections[l.value := connections[l.value].(color := color)];
      }
    }

    /** `setConnectionNote(connectionId, note)`. */
    method SetConnectionNote(connectionId: string, note: string)
      modifies this
      ensures connections == ChangeConnectionById(old(connections), connectionId, Document.SetConnectionNote(note))
      ensures timepoints == old(timepoints) && shiftDown == old(shiftDown) && previousSelection == old(previousSelection)
      ensures old(Consistent(State())) ==> Consistent(State())
    {
      FlagEditsKeepConsistent(State(), timepoints, ChangeConnectionById(connections, connectionId, Document.SetConnectionNote(note)));
      var l := LocateConnection(connections, WithConnectionId(connectionId));
      if l.Some? {
        connections := connections[l.value := connections[l.value].(note := note)];
      }
    }
  }

  // ---------------------------------------------------------------------
  // File classification

  /** `isImageFile(fileName)`: by extension, ignoring ASCII case. */
  function IsImageFile(fileName: string): bool {
    var lcName := ToLower(fileName);
    EndsWith(lcName, ".png") || EndsWith(lcName, ".gif") || EndsWith(lcName, ".jpg") || EndsWith(lcName, ".jpeg")
  }

  /** A file is an image exactly when its lower-cased name ends in one of the four extensions. */
  lemma IsImageFileByExtension(fileName: string)
    ensures var lcName := ToLower(fileName);
      IsImageFile(fileName) <==>
        HasSuffix(lcName, ".png") || HasSuffix(lcName, ".gif") || HasSuffix(lcName, ".jpg") || HasSuffix(lcName, ".jpeg")
  {
    var lcName := ToLower(fileName);
    EndsWithIsSuffix(lcName, ".png");
    EndsWithIsSuffix(lcName, ".gif");
    EndsWithIsSuffix(lcName, ".jpg");
    EndsWithIsSuffix(lcName, ".jpeg");
  }

  /** Case is ignored; a name no longer than the extension is not an image. */
  lemma IsImageFileExamples()
    ensures IsImageFile("A.PNG")
    ensures !IsImageFile("png")
  {
    IsImageFileByExtension("A.PNG");
    IsImageFileByExtension("png");
    assert ToLower("A.PNG") == "a.png";
  }
}
