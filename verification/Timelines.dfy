/**
 Puts, patches and deletes of one record in the order in which they are meant to take effect, and the record
 that this order leaves. A deleted record is one without properties.
 */
module Timelines {
  import opened Wrappers
  import opened Crdt

  datatype Kind = Put | Patch | Delete

  /** A write as the audit log keeps it; only a patch leaves the properties alone that it does not name. */
  datatype Write = Write(time: int, nodeId: int, kind: Kind, update: Object)

  /** Puts are flattened before they are written, and deletes say nothing. */
  predicate Proper(w: Write) {
    (w.kind.Put? ==> Resolved(w.update)) && (w.kind.Delete? ==> w.update == map[])
  }

  predicate AllPatches(writes: seq<Write>) {
    forall w :: w in writes ==> w.kind.Patch?
  }

  // ----- lists of writes

  function Updates(writes: seq<Write>): seq<Object> {
    if writes == [] then [] else [writes[0].update] + Updates(writes[1..])
  }

  predicate NonDecreasing(writes: seq<Write>) {
    forall i, j :: 0 <= i < j < |writes| ==> writes[i].time <= writes[j].time
  }

  predicate NoDuplicates(writes: seq<Write>) {
    forall i, j :: 0 <= i < j < |writes| ==> writes[i] != writes[j]
  }

  function Without(writes: seq<Write>, i: nat): (others: seq<Write>)
    requires i < |writes|
    ensures |others| == |writes| - 1
    ensures forall j :: 0 <= j < |others| ==> others[j] == if j < i then writes[j] else writes[j + 1]
  {
    writes[..i] + writes[i + 1..]
  }

  lemma WithoutMembers(writes: seq<Write>, i: nat)
    requires NoDuplicates(writes) && i < |writes|
    ensures NoDuplicates(Without(writes, i))
    ensures forall v :: v in Without(writes, i) <==> v in writes && v != writes[i]
  {
    var others := Without(writes, i);
    forall v | v in writes && v != writes[i]
      ensures v in others
    {
      var k :| 0 <= k < |writes| && writes[k] == v;
      assert others[if k < i then k else k - 1] == v;
    }
  }

  lemma WithoutOrder(writes: seq<Write>, i: nat)
    requires NonDecreasing(writes) && i < |writes|
    ensures NonDecreasing(Without(writes, i))
  {
  }

  lemma HasMember(writes: seq<Write>)
    ensures writes != [] ==> exists v :: v in writes
  {
    if writes == [] {
    } else {
      assert writes[0] in writes;
    }
  }

  // ----- a log: writes by their places

  ghost function MaxOf(places: set<int>): (p: int)
    requires places != {}
    ensures p in places && forall q :: q in places ==> q <= p
  {
    var q := Pick(places);
    var rest := places - {q};
    if rest == {} then
      assert places == {q};
      q
    else
      var v := MaxOf(rest);
      assert places == rest + {q};
      if q < v then v else q
  }

  ghost function Timeline(log: map<int, Write>): seq<Write> {
    if log == map[] then []
    else
      assert log.Keys != {};
      var p := MaxOf(log.Keys); Timeline(log - {p}) + [log[p]]
  }

  function Earlier(log: map<int, Write>, place: int): map<int, Write> {
    map p | p in log && p < place :: log[p]
  }

  function Later(log: map<int, Write>, place: int): map<int, Write> {
    map p | p in log && place < p :: log[p]
  }

  ghost predicate Logged(w: Write, log: map<int, Write>) {
    exists p :: p in log && log[p] == w
  }

  lemma TimelineLast(log: map<int, Write>, place: int)
    requires place in log && forall p :: p in log ==> p <= place
    ensures Timeline(log) == Timeline(log - {place}) + [log[place]]
  {
    assert log.Keys != {};
    assert MaxOf(log.Keys) == place;
  }

  lemma LaterWithoutLast(log: map<int, Write>, place: int, last: int)
    requires place < last && last in log && forall p :: p in log ==> p <= last
    ensures Earlier(log - {last}, place) == Earlier(log, place)
    ensures Later(log - {last}, place) == Later(log, place) - {last}
    ensures Timeline(Later(log, place)) == Timeline(Later(log - {last}, place)) + [log[last]]
  {
    TimelineLast(Later(log, place), last);
  }

  lemma {:induction false} TimelineSplit(log: map<int, Write>, place: int)
    ensures Timeline(log) == Timeline(Earlier(log, place)) + (if place in log then [log[place]] else []) + Timeline(Later(log, place))
    decreases log
  {
    if log == map[] {
      assert Earlier(log, place) == map[] && Later(log, place) == map[];
    } else {
      assert log.Keys != {};
      var last := MaxOf(log.Keys);
      if last <= place {
        assert Later(log, place) == map[] && Earlier(log, place) == log - {place};
        assert place !in log ==> log - {place} == log;
      } else {
        TimelineSplit(log - {last}, place);
        LaterWithoutLast(log, place, last);
      }
    }
  }

  lemma TimelineInsert(log: map<int, Write>, place: int, w: Write)
    requires place !in log
    ensures Timeline(log[place := w]) == Timeline(Earlier(log, place)) + [w] + Timeline(Later(log, place))
  {
    var grown := log[place := w];
    assert Earlier(grown, place) == Earlier(log, place) && Later(grown, place) == Later(log, place);
    TimelineSplit(grown, place);
  }

  lemma {:induction false} TimelineMembers(log: map<int, Write>)
    ensures forall w :: w in Timeline(log) <==> Logged(w, log)
    decreases log
  {
    if log == map[] {
    } else {
      assert log.Keys != {};
      var last := MaxOf(log.Keys);
      TimelineMembers(log - {last});
      forall w
        ensures Logged(w, log) <==> Logged(w, log - {last}) || w == log[last]
      {
        if Logged(w, log) && w != log[last] {
          var p :| p in log && log[p] == w;
          assert p in log - {last};
        }
      }
    }
  }

  /** Places are in the order of the timestamps, and no write has two of them. */
  ghost predicate Ascending(log: map<int, Write>) {
    && (forall p, q :: p in log && q in log && p < q ==> log[p].time <= log[q].time)
    && (forall p, q :: p in log && q in log && p != q ==> log[p] != log[q])
  }

  lemma {:induction false} TimelineAscends(log: map<int, Write>)
    requires Ascending(log)
    ensures NonDecreasing(Timeline(log)) && NoDuplicates(Timeline(log))
    decreases log
  {
    if log == map[] {
    } else {
      assert log.Keys != {};
      var last := MaxOf(log.Keys);
      TimelineAscends(log - {last});
      TimelineMembers(log - {last});
      var front := Timeline(log - {last});
      forall i | 0 <= i < |front|
        ensures front[i].time <= log[last].time && front[i] != log[last]
      {
        assert Logged(front[i], log - {last});
      }
    }
  }

  // ----- the meaning of a log: its writes in the order of their places

  function Applied(record: Object, w: Write): Object {
    if w.kind.Patch? then Apply(record, w.update) else w.update
  }

  function Replayed(record: Object, writes: seq<Write>): Object
    decreases |writes|
  {
    if writes == [] then record else Replayed(Applied(record, writes[0]), writes[1..])
  }

  ghost function Replay(base: Object, log: map<int, Write>): Object {
    Replayed(base, Timeline(log))
  }

  lemma {:induction false} ReplayedConcat(record: Object, a: seq<Write>, b: seq<Write>)
    ensures Replayed(record, a + b) == Replayed(Replayed(record, a), b)
    decreases |a|
  {
    if a == [] {
      assert a + b == b;
    } else {
      assert (a + b)[1..] == a[1..] + b;
      ReplayedConcat(Applied(record, a[0]), a[1..], b);
    }
  }

  lemma ReplayedLast(record: Object, writes: seq<Write>, w: Write)
    ensures Replayed(record, writes + [w]) == Applied(Replayed(record, writes), w)
  {
    ReplayedConcat(record, writes, [w]);
    assert [w][1..] == [];
  }

  lemma {:induction false} ReplayedPatches(record: Object, writes: seq<Write>)
    requires AllPatches(writes)
    ensures Replayed(record, writes) == ApplyAll(record, Updates(writes))
    decreases |writes|
  {
    if writes == [] {
    } else {
      ReplayedPatches(Applied(record, writes[0]), writes[1..]);
      assert Updates(writes)[1..] == Updates(writes[1..]);
    }
  }

  /** A put or a delete hides everything before it. */
  lemma {:induction false} FullHides(x: Object, y: Object, writes: seq<Write>)
    requires !AllPatches(writes)
    ensures Replayed(x, writes) == Replayed(y, writes)
    decreases |writes|
  {
    if !writes[0].kind.Patch? {
    } else {
      FullHides(Applied(x, writes[0]), Applied(y, writes[0]), writes[1..]);
    }
  }

  /** The replay before and after a write takes its place. */
  lemma ReplayAround(base: Object, log: map<int, Write>, place: int, w: Write)
    requires place !in log
    ensures var before := Replay(base, Earlier(log, place));
            var after := Timeline(Later(log, place));
            && Replay(base, log) == Replayed(before, after)
            && Replay(base, log[place := w]) == Replayed(Applied(before, w), after)
  {
    var before, after := Timeline(Earlier(log, place)), Timeline(Later(log, place));
    TimelineSplit(log, place);
    TimelineInsert(log, place, w);
    assert before + [] == before;
    ReplayedConcat(base, before, after);
    ReplayedConcat(base, before + [w], after);
    ReplayedLast(base, before, w);
  }
}
