/**
 The check at the top of a commit compares a write with the last writer, and not with the newest write. With three
 nodes at one timestamp it can take an older write for the newest.
 */
module TimestampTies {
  import Ordering
  import opened Wrappers
  import opened Crdt
  import opened Versions
  import opened Timelines
  import opened Places
  import opened GatheredOrder
  import opened Resequencing
  import opened Convergence

  /** A new write is preferred although one of a later place has arrived. */
  ghost predicate Misjudged(names: map<string, int>, arrived: map<int, Write>, s: State, w: Write) {
    Preferred(names, s, w) && Later(arrived, Place(names, w)) != map[]
  }

  /** A misjudged write comes from a third node, between the last writer and another writer of its time. */
  lemma MisjudgedMeans(names: map<string, int>, start: int, arrived: map<int, Write>, s: State, w: Write)
    requires Tracked(names, start, arrived, s) && Comparable(names, arrived, w)
    ensures Misjudged(names, arrived, s, w) <==>
      && w.time == s.stamp.version && s.stamp.nodeId != Some(w.nodeId)
      && TieBreak(NameOf(names, Some(w.nodeId)), NameOf(names, s.stamp.nodeId)) > 0
      && exists v :: Logged(v, arrived) && v != w && v.time == w.time && Ordering.TextLess(Name(names, w), Name(names, v))
  {
    var later := Later(arrived, Place(names, w));
    if Misjudged(names, arrived, s, w) {
      AheadOnlyOfTies(names, start, arrived, s, w);
      var p := Pick(later.Keys);
      assert Logged(arrived[p], arrived) && arrived[p] != w;
      PlaceOrder(names, w, arrived[p]);
    }
    if v :| Logged(v, arrived) && v != w && v.time == w.time && Ordering.TextLess(Name(names, w), Name(names, v)) {
      PlaceOrder(names, w, v);
      assert Place(names, v) in later;
    }
  }

  lemma ThreeNames(names: map<string, int>, a: string, b: string, c: string)
    requires a in names && b in names && c in names && Ordering.TextLess(a, b) && Ordering.TextLess(b, c)
    ensures |names| >= 3
  {
    Ordering.TextLessTransitive(a, b, c);
    Ordering.TextLessIrreflexive(a);
    Ordering.TextLessIrreflexive(b);
    SubsetSize({a, b, c}, names.Keys);
  }

  /** With two nodes nothing is misjudged. */
  lemma TwoNodesJudgeRightly(names: map<string, int>, start: int, arrived: map<int, Write>, s: State, w: Write)
    requires Tracked(names, start, arrived, s) && Comparable(names, arrived, w) && |names| <= 2
    ensures !Misjudged(names, arrived, s, w)
  {
    MisjudgedMeans(names, start, arrived, s, w);
    if Misjudged(names, arrived, s, w) {
      var v :| Logged(v, arrived) && v != w && v.time == w.time && Ordering.TextLess(Name(names, w), Name(names, v));
      ThreeNames(names, NameOf(names, s.stamp.nodeId).value, Name(names, w), Name(names, v));
    }
  }

  // ----- patches of two nodes

  ghost predicate NamedPatches(names: map<string, int>, log: map<int, Write>) {
    forall p :: p in log ==> log[p].kind.Patch? && Named(names, log[p])
  }

  /** Patches of named nodes, no two with the same stamp. */
  ghost predicate NewPatches(names: map<string, int>, start: int, arrived: map<int, Write>, arrivals: seq<Arrival>) {
    && (forall i :: 0 <= i < |arrivals| ==>
          var w := arrivals[i].write;
          start < w.time && w.kind.Patch? && Named(names, w) && Place(names, w) !in arrived)
    && (forall i, j :: 0 <= i < j < |arrivals| ==> Place(names, arrivals[i].write) != Place(names, arrivals[j].write))
  }

  lemma NewIsComparable(names: map<string, int>, arrived: map<int, Write>, w: Write)
    requires Placed(names, arrived) && NamedPatches(names, arrived) && Named(names, w) && Place(names, w) !in arrived
    ensures Comparable(names, arrived, w)
  {
    forall v | Logged(v, arrived) && v.time == w.time && v != w
      ensures v.nodeId != w.nodeId && Named(names, v)
    {
      var p :| p in arrived && arrived[p] == v;
      PlaceOrder(names, v, w);
    }
  }

  lemma PatchIsHarmless(names: map<string, int>, base: Object, start: int, arrived: map<int, Write>, s: State,
                        w: Write, gathered: seq<Write>)
    requires |names| <= 2 && Tracked(names, start, arrived, s) && NamedPatches(names, arrived)
    requires w.kind.Patch? && Named(names, w) && Place(names, w) !in arrived
    ensures Harmless(names, base, arrived, s, w, gathered)
  {
    var later := Later(arrived, Place(names, w));
    NewIsComparable(names, arrived, w);
    TwoNodesJudgeRightly(names, start, arrived, s, w);
    TimelineMembers(later);
    assert AllPatches(Timeline(later));
    AheadExactly(s.record, w, []);
  }

  lemma PatchStep(names: map<string, int>, base: Object, start: int, arrived: map<int, Write>, s: State, w: Write, gathered: seq<Write>)
    requires |names| <= 2 && Sequenced(names, base, start, arrived, s) && NamedPatches(names, arrived)
    requires start < w.time && w.kind.Patch? && Named(names, w) && Place(names, w) !in arrived
    requires Gathered(gathered, s.audit, Place(names, w))
    ensures May(names, start, arrived, w) && Harmless(names, base, arrived, s, w, gathered)
    ensures Sequenced(names, base, start, arrived[Place(names, w) := w], Committed(names, s, w, gathered))
  {
    PatchIsHarmless(names, base, start, arrived, s, w, gathered);
    StepExactly(names, base, start, arrived, s, w, gathered);
  }

  lemma OneFewer(names: map<string, int>, start: int, arrived: map<int, Write>, arrivals: seq<Arrival>)
    requires arrivals != [] && NamedPatches(names, arrived) && NewPatches(names, start, arrived, arrivals)
    ensures NamedPatches(names, arrived[Place(names, arrivals[0].write) := arrivals[0].write])
    ensures NewPatches(names, start, arrived[Place(names, arrivals[0].write) := arrivals[0].write], arrivals[1..])
  {
    assert forall i :: 0 <= i < |arrivals[1..]| ==> arrivals[1..][i] == arrivals[i + 1];
  }

  lemma {:induction false} TwoNodesAdmissible(names: map<string, int>, base: Object, start: int, arrived: map<int, Write>, s: State,
                                              arrivals: seq<Arrival>)
    requires |names| <= 2 && Sequenced(names, base, start, arrived, s) && NamedPatches(names, arrived)
    requires NewPatches(names, start, arrived, arrivals) && WellGathered(names, s, arrivals)
    ensures Admissible(names, base, start, arrived, s, arrivals)
    decreases |arrivals|
  {
    if arrivals == [] {
    } else {
      var w, gathered := arrivals[0].write, arrivals[0].gathered;
      PatchStep(names, base, start, arrived, s, w, gathered);
      OneFewer(names, start, arrived, arrivals);
      TwoNodesAdmissible(names, base, start, arrived[Place(names, w) := w], Committed(names, s, w, gathered), arrivals[1..]);
    }
  }

  /** Between two nodes patches with distinct stamps converge in every order of arrival. */
  lemma TwoNodesConverge(names: map<string, int>, base: Object, start: int, arrivals: seq<Arrival>)
    requires |names| <= 2 && NewPatches(names, start, map[], arrivals) && WellGathered(names, Fresh(base, start), arrivals)
    ensures Run(names, Fresh(base, start), arrivals).record == Replay(base, Arrived(names, map[], arrivals))
  {
    TwoNodesAdmissible(names, base, start, map[], Fresh(base, start), arrivals);
    RecordIsReplay(names, base, start, arrivals);
  }

  // Three nodes: "c" and "b" set x at time 10, and "a" sets y late, at time 5.
  const NODES := map["a" := 1, "b" := 2, "c" := 3]

  const FROM_A := Write(5, 1, Patch, map["y" := Plain(Num(1))])

  const FROM_B := Write(10, 2, Patch, map["x" := Plain(Num(2))])

  const FROM_C := Write(10, 3, Patch, map["x" := Plain(Num(3))])

  const EMPTY_RECORD: Object := map[]

  lemma NodeNames()
    ensures NameOf(NODES, Some(1)) == Some("a") && NameOf(NODES, Some(2)) == Some("b") && NameOf(NODES, Some(3)) == Some("c")
    ensures Ordering.TextLess("a", "b") && Ordering.TextLess("b", "c")
    ensures Named(NODES, FROM_A) && Named(NODES, FROM_B) && Named(NODES, FROM_C)
  {
    NameIs(NODES, "a");
    NameIs(NODES, "b");
    NameIs(NODES, "c");
    assert NODES["a"] == 1 && NODES["b"] == 2 && NODES["c"] == 3;
  }

  ghost function AfterC(): State {
    State(map["x" := Plain(Num(3))], Stamp(10, Some(3)), map[Place(NODES, FROM_C) := FROM_C])
  }

  lemma FromC()
    ensures Committed(NODES, Fresh(EMPTY_RECORD, 1), FROM_C, []) == AfterC()
  {
    assert Apply(EMPTY_RECORD, FROM_C.update) == map["x" := Plain(Num(3))];
  }

  lemma RebuiltFromA()
    ensures FROM_A.update != map[] && RebuiltThrough(FROM_A.update, [FROM_C.update], false) == FROM_A.update
  {
    assert "y" in FROM_A.update;
    assert Rebuilt(FROM_A.update, FROM_C.update, false) == FROM_A.update;
    assert [FROM_C.update][1..] == [];
  }

  lemma ThenFromA()
    ensures Gathered([FROM_C], AfterC().audit, Place(NODES, FROM_A))
    ensures Committed(NODES, AfterC(), FROM_A, [FROM_C])
         == State(map["x" := Plain(Num(3)), "y" := Plain(Num(1))], Stamp(10, Some(1)), AfterC().audit[Place(NODES, FROM_A) := FROM_A])
  {
    PlaceByTime(NODES, FROM_A, FROM_C);
    RebuiltFromA();
    LateOverOne(NODES, AfterC(), FROM_A, FROM_C);
    assert Apply(AfterC().record, FROM_A.update) == map["x" := Plain(Num(3)), "y" := Plain(Num(1))];
  }

  lemma CIsLater(audit: map<int, Write>)
    requires audit == AfterC().audit[Place(NODES, FROM_A) := FROM_A]
    ensures Gathered([FROM_C], audit, Place(NODES, FROM_B)) && Place(NODES, FROM_B) < Place(NODES, FROM_C)
  {
    NodeNames();
    PlaceOrder(NODES, FROM_B, FROM_C);
    PlaceByTime(NODES, FROM_A, FROM_B);
    assert Later(audit, Place(NODES, FROM_B)) == map[Place(NODES, FROM_C) := FROM_C];
    TimelineOfOne(Place(NODES, FROM_C), FROM_C);
  }

  lemma ThenFromB(s: State)
    requires s.record == map["x" := Plain(Num(3)), "y" := Plain(Num(1))] && s.stamp == Stamp(10, Some(1))
    ensures Committed(NODES, s, FROM_B, [FROM_C]).record == map["x" := Plain(Num(2)), "y" := Plain(Num(1))]
  {
    NodeNames();
    PreferredApplies(NODES, s, FROM_B, [FROM_C]);
    assert Apply(s.record, FROM_B.update) == map["x" := Plain(Num(2)), "y" := Plain(Num(1))];
  }

  /** The late patch of "a" makes "a" the last writer; the patch of "b" then overwrites what "c" has set at that time. */
  lemma TieOverwritesGreater()
    ensures var s := Committed(NODES, Committed(NODES, Fresh(EMPTY_RECORD, 1), FROM_C, []), FROM_A, [FROM_C]);
            && Gathered([FROM_C], AfterC().audit, Place(NODES, FROM_A)) && Gathered([FROM_C], s.audit, Place(NODES, FROM_B))
            && Place(NODES, FROM_B) < Place(NODES, FROM_C)
            && s.record == map["x" := Plain(Num(3)), "y" := Plain(Num(1))]
            && Committed(NODES, s, FROM_B, [FROM_C]).record == map["x" := Plain(Num(2)), "y" := Plain(Num(1))]
  {
    FromC();
    ThenFromA();
    var s := Committed(NODES, AfterC(), FROM_A, [FROM_C]);
    CIsLater(s.audit);
    ThenFromB(s);
  }
}
