/**
 The commits of puts, patches and deletes that may arrive out of order (`_writeUpdate` and `_writeDelete` in
 resources/Table.ts), with auditing on and on the RocksDB path, where the stored version never goes back.
 */
module Resequencing {
  import opened Wrappers
  import Ordering
  import opened Crdt
  import opened Versions
  import opened Timelines
  import opened Places
  import opened GatheredOrder

  datatype State = State(record: Object, stamp: Stamp, audit: map<int, Write>)

  /** The check at the top of a commit takes the write for a newer one than the last writer's. */
  ghost predicate Preferred(names: map<string, int>, s: State, w: Write) {
    Precedence(names, w.time, Some(s.stamp), Some(w.nodeId)) > 0
  }

  ghost predicate Superseded(audit: map<int, Write>, place: int) {
    exists p :: p in Later(audit, place) && !audit[p].kind.Patch?
  }

  /** The audited patches of later places, in an order of versions. */
  ghost predicate Gathered(gathered: seq<Write>, audit: map<int, Write>, place: int) {
    Rearranged(gathered, Timeline(Later(audit, place)))
  }

  /** What a write that is not preferred stores. */
  ghost function Inserted(s: State, w: Write, place: int, gathered: seq<Write>): State {
    var rebuilt := RebuiltThrough(w.update, Updates(gathered), w.kind.Put?);
    var audit := s.audit[place := w];
    if gathered == [] then State(Applied(s.record, w), s.stamp.(nodeId := Some(w.nodeId)), audit)
    else if rebuilt == map[] then s.(audit := audit) // everything is overwritten, only the audit entry is stored
    else State(Apply(s.record, rebuilt), s.stamp.(nodeId := Some(w.nodeId)), audit)
  }

  /** The state that a commit leaves behind. */
  ghost function Committed(names: map<string, int>, s: State, w: Write, gathered: seq<Write>): State {
    var place := Place(names, w);
    if Preferred(names, s, w) then State(Applied(s.record, w), Stamp(w.time, Some(w.nodeId)), s.audit[place := w])
    else if w.kind.Delete? || place in s.audit || Superseded(s.audit, place) then
      s // a late delete, a duplicate, or a newer put or delete overrides it completely
    else Inserted(s, w, place, gathered)
  }

  /** A late write that leaves the record alone, as newer writes have overwritten all that it says. */
  predicate NothingLeft(w: Write, gathered: seq<Write>) {
    gathered != [] && forall key :: key in w.update ==> w.kind.Patch? && Overwritten(Updates(gathered), key)
  }

  lemma NothingLeftExactly(w: Write, gathered: seq<Write>)
    requires Proper(w) && !w.kind.Delete?
    ensures gathered != [] && RebuiltThrough(w.update, Updates(gathered), w.kind.Put?) == map[] <==> NothingLeft(w, gathered)
  {
    var rebuilt := RebuiltThrough(w.update, Updates(gathered), w.kind.Put?);
    if w.kind.Put? {
      LatePutRebuilt(w.update, Updates(gathered));
      assert rebuilt == map[] <==> w.update.Keys == {};
    } else {
      forall key
        ensures key in rebuilt <==> key in w.update && !Overwritten(Updates(gathered), key)
      {
        LatePatchRebuilt(w.update, Updates(gathered), key);
        if key in w.update && !Overwritten(Updates(gathered), key) {
          IncrementsAdd(Some(w.update[key]), Updates(gathered), key);
        }
      }
      if NothingLeft(w, gathered) {
        assert rebuilt.Keys == {};
      }
    }
  }

  /**
   Whose stamp an entry carries: the version is that of the newest write, and the node is the one that stored last,
   even if its write was a late one.
   */
  lemma StampTells(names: map<string, int>, s: State, w: Write, gathered: seq<Write>)
    requires Proper(w)
    ensures var s', place := Committed(names, s, w, gathered), Place(names, w);
            && s'.stamp.version == (if s.stamp.version < w.time then w.time else s.stamp.version)
            && s'.stamp.nodeId == if !Preferred(names, s, w)
                                     && (w.kind.Delete? || place in s.audit || Superseded(s.audit, place) || NothingLeft(w, gathered))
                                  then s.stamp.nodeId else Some(w.nodeId)
  {
    if !w.kind.Delete? {
      NothingLeftExactly(w, gathered);
    }
  }

  // ----- the patches after a write

  /**
   What the walk of the audit trail must deliver: the audited writes that are not older than `time`,
   each once, in any order.
   */
  ghost predicate Visited(visited: seq<Write>, audit: map<int, Write>, time: int) {
    NoDuplicates(visited) && forall w :: w in visited <==> time <= w.time && Logged(w, audit)
  }

  /** A write has its timestamp for itself, or shares it with writes of other nodes, and all of these have names. */
  ghost predicate Comparable(names: map<string, int>, audit: map<int, Write>, w: Write) {
    forall v :: Logged(v, audit) && v.time == w.time && v != w ==> v.nodeId != w.nodeId && Named(names, v) && Named(names, w)
  }

  /** What the tie check says of an audited write of the same time. */
  lemma TieTells(names: map<string, int>, audit: map<int, Write>, w: Write, v: Write)
    requires Distinct(names) && Comparable(names, audit, w) && Logged(v, audit) && v.time == w.time
    ensures var order := Precedence(names, w.time, Some(Stamp(v.time, Some(v.nodeId))), Some(w.nodeId));
            && (order == 0 <==> v == w)
            && (order > 0 <==> Place(names, v) < Place(names, w))
            && (order < 0 <==> Place(names, w) < Place(names, v))
  {
    if v != w {
      PlaceOrder(names, w, v);
      PlaceOrder(names, v, w);
      Ordering.TextLessTrichotomy(Name(names, w), Name(names, v));
    }
  }

  lemma SamePlaceIsSame(names: map<string, int>, audit: map<int, Write>, w: Write)
    requires Placed(names, audit) && Comparable(names, audit, w) && Place(names, w) in audit
    ensures audit[Place(names, w)] == w && Logged(w, audit)
  {
    var v := audit[Place(names, w)];
    assert Logged(v, audit);
    PlaceByTime(names, v, w);
    PlaceByTime(names, w, v);
    if v != w {
      PlaceOrder(names, v, w);
    }
  }

  function GrownBy(sorted: seq<Write>, at: nat, w: Write): (grown: seq<Write>)
    requires at <= |sorted|
    ensures |grown| == |sorted| + 1
    ensures forall i :: 0 <= i < |grown| ==> grown[i] == if i < at then sorted[i] else if i == at then w else sorted[i - 1]
  {
    sorted[..at] + [w] + sorted[at..]
  }

  lemma GrownOrder(sorted: seq<Write>, at: nat, w: Write)
    requires NonDecreasing(sorted) && at <= |sorted|
    requires at > 0 ==> sorted[at - 1].time <= w.time
    requires forall i :: at <= i < |sorted| ==> w.time < sorted[i].time
    ensures NonDecreasing(GrownBy(sorted, at, w))
  {
    var grown := GrownBy(sorted, at, w);
    forall i, j | 0 <= i < j < |grown|
      ensures grown[i].time <= grown[j].time
    {
      if i < at == j {
        assert sorted[i].time <= sorted[at - 1].time;
      }
    }
  }

  lemma GrownMembers(sorted: seq<Write>, at: nat, w: Write)
    requires NoDuplicates(sorted) && w !in sorted && at <= |sorted|
    ensures NoDuplicates(GrownBy(sorted, at, w))
    ensures forall v :: v in GrownBy(sorted, at, w) <==> v in sorted || v == w
  {
    var grown := GrownBy(sorted, at, w);
    assert sorted == sorted[..at] + sorted[at..];
    forall i, j | 0 <= i < j < |grown|
      ensures grown[i] != grown[j]
    {
      if i == at {
        assert grown[j] in sorted;
      } else if j == at {
        assert grown[i] in sorted;
      }
    }
  }

  /** The stable sort of the gathered patches by version, which leaves those of one version as they come. */
  method SortByVersion(writes: seq<Write>) returns (sorted: seq<Write>)
    requires NoDuplicates(writes)
    ensures Rearranged(sorted, writes)
  {
    sorted := [];
    for n := 0 to |writes|
      invariant Rearranged(sorted, writes[..n])
    {
      var w, at := writes[n], |sorted|;
      while at > 0 && w.time < sorted[at - 1].time
        invariant 0 <= at <= |sorted|
        invariant forall i :: at <= i < |sorted| ==> w.time < sorted[i].time
      {
        at := at - 1;
      }
      assert writes[..n + 1] == writes[..n] + [w];
      assert w !in writes[..n];
      GrownOrder(sorted, at, w);
      GrownMembers(sorted, at, w);
      sorted := GrownBy(sorted, at, w);
    }
    assert writes[..|writes|] == writes;
  }

  /** What the walk has kept when it has met everything. */
  lemma WalkEnds(names: map<string, int>, audit: map<int, Write>, w: Write, visited: seq<Write>, gathered: seq<Write>)
    requires Placed(names, audit) && Comparable(names, audit, w) && Visited(visited, audit, w.time)
    requires w !in visited && AllPatches(gathered)
    requires forall v :: v in gathered <==> v in visited && Place(names, w) < Place(names, v)
    ensures Place(names, w) !in audit && !Superseded(audit, Place(names, w))
    ensures forall v :: v in gathered <==> v in Timeline(Later(audit, Place(names, w)))
  {
    var place := Place(names, w);
    var later := Later(audit, place);
    if place in audit {
      SamePlaceIsSame(names, audit, w);
    }
    TimelineMembers(later);
    forall v
      ensures v in gathered <==> Logged(v, later)
    {
      PlaceByTime(names, v, w);
      if Logged(v, later) {
        var p :| p in later && later[p] == v;
        assert p in audit && audit[p] == v;
      }
      if v in gathered {
        var p :| p in audit && audit[p] == v;
        assert p in later;
      }
    }
    forall p | p in later
      ensures audit[p].kind.Patch?
    {
      assert Logged(later[p], later);
    }
  }

  lemma LoggedAtPlace(names: map<string, int>, audit: map<int, Write>, w: Write)
    requires Placed(names, audit) && Logged(w, audit)
    ensures Place(names, w) in audit && audit[Place(names, w)] == w
  {
  }

  lemma FullIsLater(names: map<string, int>, audit: map<int, Write>, w: Write, v: Write)
    requires Placed(names, audit) && Logged(v, audit) && Place(names, w) < Place(names, v) && !v.kind.Patch?
    ensures Superseded(audit, Place(names, w))
  {
    LoggedAtPlace(names, audit, v);
    assert Place(names, v) in Later(audit, Place(names, w));
  }

  /** The patches after `w`, in an order of versions; none when `w` is a duplicate or something newer overrides it. */
  method SucceedingUpdates(names: map<string, int>, w: Write, visited: seq<Write>, ghost audit: map<int, Write>)
    returns (succeeding: Option<seq<Write>>)
    requires Distinct(names) && Placed(names, audit) && Comparable(names, audit, w) && Visited(visited, audit, w.time)
    ensures succeeding.None? <==> Place(names, w) in audit || Superseded(audit, Place(names, w))
    ensures succeeding.Some? ==> Gathered(succeeding.value, audit, Place(names, w))
  {
    var gathered := [];
    for i := 0 to |visited|
      invariant NoDuplicates(gathered) && AllPatches(gathered) && w !in visited[..i]
      invariant forall v :: v in gathered <==> v in visited[..i] && Place(names, w) < Place(names, v)
    {
      var auditRecord := visited[i];
      assert auditRecord in visited && auditRecord !in visited[..i];
      assert visited[..i + 1] == visited[..i] + [auditRecord];
      PlaceByTime(names, w, auditRecord);
      if auditRecord.time == w.time {
        TieTells(names, audit, w, auditRecord);
        var order := PrecedesExistingVersion(names, None, w.time, Some(Stamp(auditRecord.time, Some(auditRecord.nodeId))), Some(w.nodeId));
        if order == 0 {
          LoggedAtPlace(names, audit, w);
          return None; // treat a tie as a duplicate and drop it
        }
        if order > 0 {
          continue; // the existing write is older
        }
      }
      if !auditRecord.kind.Patch? {
        FullIsLater(names, audit, w, auditRecord);
        return None; // there is a newer full record update
      }
      gathered := gathered + [auditRecord];
    }
    assert visited[..|visited|] == visited;
    WalkEnds(names, audit, w, visited, gathered);
    var sorted := SortByVersion(gathered);
    succeeding := Some(sorted);
  }

  /** The loop over the later patches; `None` when there is none, the empty map when nothing is left to do. */
  method RebuildThroughAll(update: Object, succeeding: seq<Write>, fullUpdate: bool) returns (rebuilt: Option<Object>)
    ensures rebuilt.None? <==> succeeding == []
    ensures rebuilt.Some? ==> rebuilt.value == RebuiltThrough(update, Updates(succeeding), fullUpdate)
  {
    rebuilt := None;
    for i := 0 to |succeeding|
      invariant rebuilt.None? <==> i == 0
      invariant RebuiltThrough(if i == 0 then update else rebuilt.value, Updates(succeeding[i..]), fullUpdate)
                == RebuiltThrough(update, Updates(succeeding), fullUpdate)
    {
      assert succeeding[i..][1..] == succeeding[i + 1..];
      assert Updates(succeeding[i..])[1..] == Updates(succeeding[i + 1..]);
      rebuilt := RebuildUpdateBefore(if rebuilt.None? then update else rebuilt.value, succeeding[i].update, fullUpdate);
      if rebuilt.None? {
        RebuiltThroughEmpty(Updates(succeeding[i + 1..]), fullUpdate);
        return Some(map[]); // all changes are overwritten
      }
    }
    assert succeeding[|succeeding|..] == [];
  }

  // ----- the store

  lemma TimelineGathers(names: map<string, int>, audit: map<int, Write>, place: int)
    requires Placed(names, audit)
    ensures Gathered(Timeline(Later(audit, place)), audit, place)
  {
    PlacedAscends(names, Later(audit, place));
    TimelineAscends(Later(audit, place));
  }

  /** One record of a table, with the part of the audit log that belongs to it. */
  class RecordStore {
    var record: Object
    var version: int
    var nodeId: Option<int>
    ghost var audit: map<int, Write>

    ghost function View(): State
      reads this
    {
      State(record, Stamp(version, nodeId), audit)
    }

    constructor (record: Object, version: int)
      ensures View() == State(record, Stamp(version, None), map[])
    {
      this.record := record;
      this.version := version;
      this.nodeId := None;
      this.audit := map[];
    }

    method CommitUpdate(names: map<string, int>, w: Write, visited: seq<Write>) returns (ghost gathered: seq<Write>)
      requires Distinct(names) && !w.kind.Delete?
      requires Placed(names, audit) && Comparable(names, audit, w) && Visited(visited, audit, w.time)
      modifies this
      ensures View() == Committed(names, old(View()), w, gathered)
      ensures Gathered(gathered, old(audit), Place(names, w))
    {
      TimelineGathers(names, audit, Place(names, w));
      gathered := Timeline(Later(audit, Place(names, w)));
      var precedesExisting := PrecedesExistingVersion(names, None, w.time, Some(Stamp(version, nodeId)), Some(w.nodeId));
      var incrementalUpdateToApply: Option<Object> := None;
      if precedesExisting <= 0 {
        var succeedingUpdates := SucceedingUpdates(names, w, visited, audit);
        if succeedingUpdates.None? {
          return;
        }
        gathered := succeedingUpdates.value;
        incrementalUpdateToApply := RebuildThroughAll(w.update, succeedingUpdates.value, w.kind.Put?);
        if incrementalUpdateToApply == Some(map[]) {
          audit := audit[Place(names, w) := w]; // nothing left to do but to store the audit record
          return;
        }
      }
      var recordToStore: Object;
      if w.kind.Put? && incrementalUpdateToApply.None? {
        recordToStore := w.update;
      } else {
        recordToStore := UpdateAndFreeze(record, if incrementalUpdateToApply.None? then w.update else incrementalUpdateToApply.value);
      }
      record := recordToStore;
      version := if w.time < version then version else w.time;
      nodeId := Some(w.nodeId);
      audit := audit[Place(names, w) := w];
    }

    /** A delete that is not preferred leaves no trace. */
    method CommitDelete(names: map<string, int>, w: Write)
      requires Distinct(names) && w.kind.Delete? && Proper(w)
      modifies this
      ensures forall gathered :: View() == Committed(names, old(View()), w, gathered)
    {
      var precedesExisting := PrecedesExistingVersion(names, None, w.time, Some(Stamp(version, nodeId)), Some(w.nodeId));
      if precedesExisting <= 0 {
        return; // a newer record exists locally
      }
      record := map[];
      version := w.time;
      nodeId := Some(w.nodeId);
      audit := audit[Place(names, w) := w];
    }
  }
}
