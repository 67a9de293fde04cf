/**
 Every arrival order of the same writes ends in the same record: the writes applied by timestamp and node name. This
 covers puts, patches and deletes, late, tied or redelivered; what one arrival needs for it is stated exactly.
 */
module Convergence {
  import opened Wrappers
  import Ordering
  import opened Crdt
  import opened Versions
  import opened Timelines
  import opened Places
  import opened GatheredOrder
  import opened Resequencing

  /** A write, and the order in which its commit gathers the patches after it. */
  datatype Arrival = Arrival(write: Write, gathered: seq<Write>)

  function Fresh(base: Object, version: int): State {
    State(base, Stamp(version, None), map[])
  }

  // ----- what every reachable state satisfies

  /** Late deletes, and writes that were dropped behind a newer put or delete, are missing from the audit log. */
  ghost predicate AuditOf(audit: map<int, Write>, arrived: map<int, Write>) {
    && (forall p :: p in audit ==> p in arrived && audit[p] == arrived[p])
    && (forall p :: p in arrived && p !in audit ==> arrived[p].kind.Delete? || Superseded(audit, p))
  }

  ghost predicate VersionOf(version: int, start: int, arrived: map<int, Write>) {
    && (forall p :: p in arrived ==> start < arrived[p].time <= version)
    && (if arrived == map[] then version == start else exists p :: p in arrived && arrived[p].time == version)
  }

  ghost predicate Tracked(names: map<string, int>, start: int, arrived: map<int, Write>, s: State) {
    Placed(names, arrived) && AuditOf(s.audit, arrived) && VersionOf(s.stamp.version, start, arrived)
  }

  /** The record is the replay of all that has arrived. */
  ghost predicate Sequenced(names: map<string, int>, base: Object, start: int, arrived: map<int, Write>, s: State) {
    Tracked(names, start, arrived, s) && s.record == Replay(base, arrived)
  }

  /** A write that may arrive: newer than the base record, and the same if its stamp has arrived before. */
  ghost predicate May(names: map<string, int>, start: int, arrived: map<int, Write>, w: Write) {
    start < w.time && Proper(w) && (Place(names, w) in arrived ==> arrived[Place(names, w)] == w)
  }

  lemma SupersededGrows(audit: map<int, Write>, place: int, w: Write, p: int)
    requires Superseded(audit, p) && place !in audit
    ensures Superseded(audit[place := w], p)
  {
    var q :| q in Later(audit, p) && !audit[q].kind.Patch?;
    assert q in Later(audit[place := w], p);
  }

  lemma AuditGrows(audit: map<int, Write>, arrived: map<int, Write>, place: int, w: Write)
    requires AuditOf(audit, arrived) && (place in arrived ==> arrived[place] == w)
    ensures AuditOf(audit[place := w], arrived[place := w])
  {
    if place in audit {
      assert audit[place := w] == audit && arrived[place := w] == arrived;
    } else {
      forall p | p in arrived && p != place && p !in audit && !arrived[p].kind.Delete?
        ensures Superseded(audit[place := w], p)
      {
        SupersededGrows(audit, place, w, p);
      }
    }
  }

  lemma VersionGrows(version: int, start: int, arrived: map<int, Write>, place: int, w: Write)
    requires VersionOf(version, start, arrived) && start < w.time && (place in arrived ==> arrived[place] == w)
    ensures VersionOf(if version < w.time then w.time else version, start, arrived[place := w])
  {
    var grown := arrived[place := w];
    assert place in grown && grown[place] == w;
    if w.time < version {
      assert arrived != map[];
      var p :| p in arrived && arrived[p].time == version;
      assert grown[p].time == version;
    }
  }

  /** The log and the version are kept by every commit. */
  lemma CommitTracks(names: map<string, int>, start: int, arrived: map<int, Write>, s: State, w: Write, gathered: seq<Write>)
    requires Tracked(names, start, arrived, s) && May(names, start, arrived, w)
    ensures Tracked(names, start, arrived[Place(names, w) := w], Committed(names, s, w, gathered))
  {
    var place, s' := Place(names, w), Committed(names, s, w, gathered);
    var grown := arrived[place := w];
    assert s'.stamp.version == if s.stamp.version < w.time then w.time else s.stamp.version;
    VersionGrows(s.stamp.version, start, arrived, place, w);
    if s'.audit == s.audit {
      assert AuditOf(s.audit, grown);
    } else {
      assert s'.audit == s.audit[place := w];
      AuditGrows(s.audit, arrived, place, w);
    }
  }

  lemma SupersededEarlier(audit: map<int, Write>, place: int, p: int)
    requires Superseded(audit, p) && place <= p
    ensures Superseded(audit, place)
  {
    var q :| q in Later(audit, p) && !audit[q].kind.Patch?;
    assert q in Later(audit, place);
  }

  lemma LaterOf(audit: map<int, Write>, arrived: map<int, Write>, place: int)
    requires AuditOf(audit, arrived)
    ensures Superseded(audit, place) ==> !AllPatches(Timeline(Later(arrived, place)))
    ensures AllPatches(Timeline(Later(arrived, place))) ==> Later(audit, place) == Later(arrived, place)
  {
    var later := Later(arrived, place);
    TimelineMembers(later);
    if Superseded(audit, place) {
      var p :| p in Later(audit, place) && !audit[p].kind.Patch?;
      assert Logged(later[p], later);
    }
    if AllPatches(Timeline(later)) {
      forall p | p in later
        ensures p in audit
      {
        assert Logged(later[p], later);
        if p !in audit {
          SupersededEarlier(audit, place, p);
        }
      }
    }
  }

  // ----- one arrival

  /** Applying a write once more leaves the record as it is. */
  predicate Unmoved(record: Object, w: Write) {
    if w.kind.Patch? then ChangesNothing(record, w.update) else record == w.update
  }

  lemma UnmovedExactly(record: Object, w: Write)
    ensures Applied(record, w) == record <==> Unmoved(record, w)
  {
    ChangesNothingExactly(record, w.update);
  }

  /** A write that is taken for the newest although there are newer patches: these would not have shown. */
  ghost predicate HarmlessAhead(record: Object, w: Write, newer: seq<Object>) {
    if w.kind.Patch? then SameUnrebuilt(record, w.update, newer)
    else forall key :: Kept(Lookup(w.update, key), newer, key)
  }

  lemma AheadExactly(before: Object, w: Write, newer: seq<Object>)
    ensures Applied(ApplyAll(before, newer), w) == ApplyAll(Applied(before, w), newer)
       <==> HarmlessAhead(ApplyAll(before, newer), w, newer)
  {
    if w.kind.Patch? {
      LatePatch(before, w.update, newer);
      SameUnrebuiltExactly(ApplyAll(before, newer), w.update, newer);
    } else {
      KeptThroughout(w.update, newer);
    }
  }

  /**
   A write that comes after newer patches: a put is gathered in an order that does the same, and what a put leaves out,
   or a delete should remove, has become forgettable.
   */
  predicate HarmlessLate(before: Object, w: Write, newer: seq<Object>, gathered: seq<Object>) {
    match w.kind
    case Patch => true
    case Put => newer != [] ==>
      SameOnKeys(w.update, gathered, newer) && forall key :: key in before && key !in w.update ==> Forgotten(before[key], newer, key)
    case Delete => forall key :: key in before ==> Forgotten(before[key], newer, key)
  }

  /** A write behind a put or delete that has arrived: it should change nothing any more. */
  ghost predicate HarmlessBehind(names: map<string, int>, s: State, w: Write, gathered: seq<Write>) {
    if Preferred(names, s, w) then Unmoved(s.record, w)
    else if w.kind.Delete? || Superseded(s.audit, Place(names, w)) then true
    else if gathered == [] then Unmoved(s.record, w)
    else ChangesNothing(s.record, RebuiltThrough(w.update, Updates(gathered), w.kind.Put?))
  }

  /** What an arrival must be like, by what has arrived before it. */
  ghost predicate Harmless(names: map<string, int>, base: Object, arrived: map<int, Write>, s: State, w: Write, gathered: seq<Write>) {
    var place := Place(names, w);
    var after := Timeline(Later(arrived, place));
    if place in arrived then Preferred(names, s, w) ==> Unmoved(s.record, w)
    else if !AllPatches(after) then HarmlessBehind(names, s, w, gathered)
    else if Preferred(names, s, w) then HarmlessAhead(s.record, w, Updates(after))
    else HarmlessLate(Replay(base, Earlier(arrived, place)), w, Updates(after), Updates(gathered))
  }

  lemma Repeated(names: map<string, int>, start: int, arrived: map<int, Write>, s: State, w: Write, gathered: seq<Write>)
    requires Tracked(names, start, arrived, s) && May(names, start, arrived, w) && Place(names, w) in arrived
    ensures Committed(names, s, w, gathered).record == s.record <==> (Preferred(names, s, w) ==> Unmoved(s.record, w))
  {
    UnmovedExactly(s.record, w);
  }

  lemma Behind(names: map<string, int>, s: State, w: Write, gathered: seq<Write>)
    requires Place(names, w) !in s.audit
    ensures Committed(names, s, w, gathered).record == s.record <==> HarmlessBehind(names, s, w, gathered)
  {
    UnmovedExactly(s.record, w);
    if Preferred(names, s, w) || w.kind.Delete? || Superseded(s.audit, Place(names, w)) {
    } else {
      ChangesNothingExactly(s.record, RebuiltThrough(w.update, Updates(gathered), w.kind.Put?));
    }
  }

  /** The replay with a new write, when a put or delete comes after it, or nothing but patches. */
  lemma NewReplay(base: Object, arrived: map<int, Write>, place: int, w: Write)
    requires place !in arrived
    ensures var before, after := Replay(base, Earlier(arrived, place)), Timeline(Later(arrived, place));
            if AllPatches(after)
            then Replay(base, arrived) == ApplyAll(before, Updates(after))
                 && Replay(base, arrived[place := w]) == ApplyAll(Applied(before, w), Updates(after))
            else Replay(base, arrived[place := w]) == Replay(base, arrived)
  {
    var before, after := Replay(base, Earlier(arrived, place)), Timeline(Later(arrived, place));
    ReplayAround(base, arrived, place, w);
    if AllPatches(after) {
      ReplayedPatches(before, after);
      ReplayedPatches(Applied(before, w), after);
    } else {
      FullHides(before, Applied(before, w), after);
    }
  }

  /** What a write stores that is not preferred, with nothing but patches after it. */
  lemma LateExactly(before: Object, s: State, w: Write, place: int, after: seq<Write>, gathered: seq<Write>)
    requires Proper(w) && s.record == ApplyAll(before, Updates(after)) && NoDuplicates(after) && Rearranged(gathered, after)
    ensures !w.kind.Delete? ==>
      (Inserted(s, w, place, gathered).record == ApplyAll(Applied(before, w), Updates(after))
       <==> HarmlessLate(before, w, Updates(after), Updates(gathered)))
    ensures w.kind.Delete? ==>
      (s.record == ApplyAll(Applied(before, w), Updates(after)) <==> HarmlessLate(before, w, Updates(after), Updates(gathered)))
  {
    HasMember(gathered);
    HasMember(after);
    ApplyEmpty(s.record);
    match w.kind
    case Patch =>
      RebuiltAnyOrder(w.update, gathered, after);
      LatePatch(before, w.update, Updates(after));
    case Put =>
      LatePutThrough(before, w.update, Updates(after), Updates(gathered));
    case Delete =>
      LateDeleteExactly(before, Updates(after));
  }

  lemma NewWithPatchesAfter(names: map<string, int>, base: Object, start: int, arrived: map<int, Write>, s: State,
                            w: Write, gathered: seq<Write>)
    requires Sequenced(names, base, start, arrived, s) && May(names, start, arrived, w)
    requires Gathered(gathered, s.audit, Place(names, w))
    requires Place(names, w) !in arrived && AllPatches(Timeline(Later(arrived, Place(names, w))))
    ensures Committed(names, s, w, gathered).record == Replay(base, arrived[Place(names, w) := w])
       <==> Harmless(names, base, arrived, s, w, gathered)
  {
    var place := Place(names, w);
    var before, after := Replay(base, Earlier(arrived, place)), Timeline(Later(arrived, place));
    NewReplay(base, arrived, place, w);
    LaterOf(s.audit, arrived, place);
    if Preferred(names, s, w) {
      AheadExactly(before, w, Updates(after));
    } else {
      PlacedAscends(names, Later(arrived, place));
      TimelineAscends(Later(arrived, place));
      LateExactly(before, s, w, place, after, gathered);
    }
  }

  /** One arrival: the record is again the replay of all that has arrived exactly when the arrival is harmless. */
  lemma StepExactly(names: map<string, int>, base: Object, start: int, arrived: map<int, Write>, s: State,
                    w: Write, gathered: seq<Write>)
    requires Sequenced(names, base, start, arrived, s) && May(names, start, arrived, w)
    requires Gathered(gathered, s.audit, Place(names, w))
    ensures Committed(names, s, w, gathered).record == Replay(base, arrived[Place(names, w) := w])
       <==> Harmless(names, base, arrived, s, w, gathered)
    ensures Harmless(names, base, arrived, s, w, gathered) ==>
      Sequenced(names, base, start, arrived[Place(names, w) := w], Committed(names, s, w, gathered))
  {
    var place := Place(names, w);
    CommitTracks(names, start, arrived, s, w, gathered);
    if place in arrived {
      assert arrived[place := w] == arrived;
      Repeated(names, start, arrived, s, w, gathered);
    } else if AllPatches(Timeline(Later(arrived, place))) {
      NewWithPatchesAfter(names, base, start, arrived, s, w, gathered);
    } else {
      NewReplay(base, arrived, place, w);
      Behind(names, s, w, gathered);
    }
  }

  // ----- one arrival, whatever the order of the walk

  /** A commit that rebuilds its write through the patches after it. */
  ghost predicate Rebuilds(names: map<string, int>, s: State, w: Write) {
    !Preferred(names, s, w) && !w.kind.Delete? && Place(names, w) !in s.audit && !Superseded(s.audit, Place(names, w))
  }

  lemma {:induction false} RebuiltPutKeys(record: Object, put: Object, a: seq<Object>, b: seq<Object>)
    requires Resolved(put)
    ensures Apply(record, RebuiltThrough(put, a, true)) == Apply(record, RebuiltThrough(put, b, true))
       <==> RebuiltThrough(put, a, true) == RebuiltThrough(put, b, true)
  {
    LatePutRebuilt(put, a);
    LatePutRebuilt(put, b);
    var x, y := RebuiltThrough(put, a, true), RebuiltThrough(put, b, true);
    if Apply(record, x) == Apply(record, y) {
      forall key | key in put
        ensures x[key] == y[key]
      {
        AppliedLookup(record, x, key);
        AppliedLookup(record, y, key);
      }
      assert x.Keys == y.Keys;
    }
  }

  lemma InsertedRecord(s: State, w: Write, place: int, gathered: seq<Write>)
    requires gathered != []
    ensures Inserted(s, w, place, gathered).record == Apply(s.record, RebuiltThrough(w.update, Updates(gathered), w.kind.Put?))
  {
    ApplyEmpty(s.record);
  }

  /** Two orders of the walk leave the same record exactly when they rebuild a put to the same one. */
  lemma OrdersAgree(names: map<string, int>, s: State, w: Write, a: seq<Write>, b: seq<Write>)
    requires Proper(w) && NoDuplicates(b) && Rearranged(a, b)
    ensures Committed(names, s, w, a).record == Committed(names, s, w, b).record
       <==> (Rebuilds(names, s, w) && w.kind.Put? ==> RebuiltThrough(w.update, Updates(a), true) == RebuiltThrough(w.update, Updates(b), true))
  {
    HasMember(a);
    HasMember(b);
    if Rebuilds(names, s, w) && a != [] {
      InsertedRecord(s, w, Place(names, w), a);
      InsertedRecord(s, w, Place(names, w), b);
      if w.kind.Put? {
        RebuiltPutKeys(s.record, w.update, Updates(a), Updates(b));
      } else {
        RebuiltAnyOrder(w.update, a, b);
      }
    }
  }

  /**
   One arrival whatever order the walk gathers the patches in: the record is always the replay exactly when it is for
   the order of the places, and a put that is rebuilt finds patches of one version only where they commute or something
   later overwrites them.
   */
  lemma StepInEveryOrder(names: map<string, int>, base: Object, start: int, arrived: map<int, Write>, s: State, w: Write)
    requires Sequenced(names, base, start, arrived, s) && May(names, start, arrived, w)
    ensures var after := Timeline(Later(s.audit, Place(names, w)));
            (Harmless(names, base, arrived, s, w, after)
             && (Rebuilds(names, s, w) && w.kind.Put? ==> forall key :: key in w.update ==> Settled(after, key)))
            <==> forall gathered :: Gathered(gathered, s.audit, Place(names, w)) ==>
                   Committed(names, s, w, gathered).record == Replay(base, arrived[Place(names, w) := w])
  {
    var place := Place(names, w);
    var after, replay := Timeline(Later(s.audit, place)), Replay(base, arrived[place := w]);
    assert Placed(names, Later(s.audit, place));
    PlacedAscends(names, Later(s.audit, place));
    TimelineAscends(Later(s.audit, place));
    StepExactly(names, base, start, arrived, s, w, after);
    if Rebuilds(names, s, w) && w.kind.Put? {
      PutInAnyOrderExactly(w.update, after);
    }
    if forall gathered :: Gathered(gathered, s.audit, place) ==> Committed(names, s, w, gathered).record == replay {
      assert Gathered(after, s.audit, place);
      forall order | Rearranged(order, after)
        ensures Rebuilds(names, s, w) && w.kind.Put? ==> RebuiltThrough(w.update, Updates(order), true) == RebuiltThrough(w.update, Updates(after), true)
      {
        assert Gathered(order, s.audit, place);
        OrdersAgree(names, s, w, order, after);
      }
    }
    if Committed(names, s, w, after).record == replay && (Rebuilds(names, s, w) && w.kind.Put? ==> forall key :: key in w.update ==> Settled(after, key)) {
      forall gathered | Gathered(gathered, s.audit, place)
        ensures Committed(names, s, w, gathered).record == replay
      {
        OrdersAgree(names, s, w, gathered, after);
      }
    }
  }

  // ----- runs

  ghost function Run(names: map<string, int>, s: State, arrivals: seq<Arrival>): State
    decreases |arrivals|
  {
    if arrivals == [] then s else Run(names, Committed(names, s, arrivals[0].write, arrivals[0].gathered), arrivals[1..])
  }

  ghost function Arrived(names: map<string, int>, arrived: map<int, Write>, arrivals: seq<Arrival>): map<int, Write>
    decreases |arrivals|
  {
    if arrivals == [] then arrived
    else Arrived(names, arrived[Place(names, arrivals[0].write) := arrivals[0].write], arrivals[1..])
  }

  /** Each arrival may come, has gathered the patches after it, and is harmless when it comes. */
  ghost predicate Admissible(names: map<string, int>, base: Object, start: int, arrived: map<int, Write>, s: State,
                             arrivals: seq<Arrival>)
    decreases |arrivals|
  {
    arrivals == [] ||
    (var w, gathered := arrivals[0].write, arrivals[0].gathered;
     && May(names, start, arrived, w) && Gathered(gathered, s.audit, Place(names, w))
     && Harmless(names, base, arrived, s, w, gathered)
     && Admissible(names, base, start, arrived[Place(names, w) := w], Committed(names, s, w, gathered), arrivals[1..]))
  }

  lemma {:induction false} RunKeepsSequenced(names: map<string, int>, base: Object, start: int, arrived: map<int, Write>, s: State,
                                             arrivals: seq<Arrival>)
    requires Sequenced(names, base, start, arrived, s)
    requires Admissible(names, base, start, arrived, s, arrivals)
    ensures Sequenced(names, base, start, Arrived(names, arrived, arrivals), Run(names, s, arrivals))
    decreases |arrivals|
  {
    if arrivals == [] {
    } else {
      var w, gathered := arrivals[0].write, arrivals[0].gathered;
      StepExactly(names, base, start, arrived, s, w, gathered);
      RunKeepsSequenced(names, base, start, arrived[Place(names, w) := w], Committed(names, s, w, gathered), arrivals[1..]);
    }
  }

  /** After any admissible run the record is the base with everything that arrived applied in the order of the places. */
  lemma RecordIsReplay(names: map<string, int>, base: Object, start: int, arrivals: seq<Arrival>)
    requires Admissible(names, base, start, map[], Fresh(base, start), arrivals)
    ensures Run(names, Fresh(base, start), arrivals).record == Replay(base, Arrived(names, map[], arrivals))
  {
    RunKeepsSequenced(names, base, start, map[], Fresh(base, start), arrivals);
  }

  ghost predicate Among(w: Write, arrivals: seq<Arrival>) {
    exists a :: a in arrivals && a.write == w
  }

  lemma LoggedGrows(names: map<string, int>, arrived: map<int, Write>, first: Write, w: Write)
    requires Place(names, first) in arrived ==> arrived[Place(names, first)] == first
    ensures Logged(w, arrived[Place(names, first) := first]) <==> Logged(w, arrived) || w == first
  {
    var place := Place(names, first);
    var grown := arrived[place := first];
    assert place in grown && grown[place] == first;
    if Logged(w, arrived) {
      var p :| p in arrived && arrived[p] == w;
      assert grown[p] == w;
    }
  }

  lemma {:induction false} ArrivedLists(names: map<string, int>, base: Object, start: int, arrived: map<int, Write>, s: State,
                                        arrivals: seq<Arrival>, w: Write)
    requires Admissible(names, base, start, arrived, s, arrivals)
    ensures Logged(w, Arrived(names, arrived, arrivals)) <==> Logged(w, arrived) || Among(w, arrivals)
    decreases |arrivals|
  {
    if arrivals == [] {
    } else {
      var first, gathered := arrivals[0].write, arrivals[0].gathered;
      var grown := arrived[Place(names, first) := first];
      ArrivedLists(names, base, start, grown, Committed(names, s, first, gathered), arrivals[1..], w);
      LoggedGrows(names, arrived, first, w);
      assert forall a :: a in arrivals <==> a == arrivals[0] || a in arrivals[1..];
    }
  }

  lemma PlacedEqual(names: map<string, int>, x: map<int, Write>, y: map<int, Write>)
    requires Placed(names, x) && Placed(names, y) && forall w :: Logged(w, x) <==> Logged(w, y)
    ensures x == y
  {
    forall p
      ensures p in x <==> p in y
      ensures p in x && p in y ==> x[p] == y[p]
    {
      if p in x { assert Logged(x[p], y); }
      if p in y { assert Logged(y[p], x); }
    }
  }

  lemma {:induction false} ArrivedPlaced(names: map<string, int>, arrived: map<int, Write>, arrivals: seq<Arrival>)
    requires Placed(names, arrived)
    ensures Placed(names, Arrived(names, arrived, arrivals))
    decreases |arrivals|
  {
    if arrivals == [] {
    } else {
      ArrivedPlaced(names, arrived[Place(names, arrivals[0].write) := arrivals[0].write], arrivals[1..]);
    }
  }

  lemma ArrivedIsAmong(names: map<string, int>, base: Object, start: int, arrivals: seq<Arrival>)
    requires Admissible(names, base, start, map[], Fresh(base, start), arrivals)
    ensures Placed(names, Arrived(names, map[], arrivals))
    ensures forall w :: Logged(w, Arrived(names, map[], arrivals)) <==> Among(w, arrivals)
  {
    ArrivedPlaced(names, map[], arrivals);
    forall w
      ensures Logged(w, Arrived(names, map[], arrivals)) <==> Among(w, arrivals)
    {
      ArrivedLists(names, base, start, map[], Fresh(base, start), arrivals, w);
    }
  }

  /** Two replicas that have seen the same writes, in any two orders, hold the same record. */
  lemma ReplicasConverge(names: map<string, int>, base: Object, start: int, a: seq<Arrival>, b: seq<Arrival>)
    requires forall w :: Among(w, a) <==> Among(w, b)
    requires Admissible(names, base, start, map[], Fresh(base, start), a)
    requires Admissible(names, base, start, map[], Fresh(base, start), b)
    ensures Run(names, Fresh(base, start), a).record == Run(names, Fresh(base, start), b).record
  {
    RecordIsReplay(names, base, start, a);
    RecordIsReplay(names, base, start, b);
    ArrivedIsAmong(names, base, start, a);
    ArrivedIsAmong(names, base, start, b);
    PlacedEqual(names, Arrived(names, map[], a), Arrived(names, map[], b));
  }

  // ----- writes that are always harmless

  /** Each walk delivers what it must, in any order. */
  ghost predicate WellGathered(names: map<string, int>, s: State, arrivals: seq<Arrival>)
    decreases |arrivals|
  {
    arrivals == [] ||
    (var w, gathered := arrivals[0].write, arrivals[0].gathered;
     Gathered(gathered, s.audit, Place(names, w)) && WellGathered(names, Committed(names, s, w, gathered), arrivals[1..]))
  }

  predicate NoTies(arrivals: seq<Arrival>) {
    forall i, j :: 0 <= i < j < |arrivals| ==> arrivals[i].write.time != arrivals[j].write.time
  }

  /** Patches touch no key outside `keys`; a put names each of them, with its operations resolved. */
  predicate Covers(keys: set<Key>, w: Write) {
    match w.kind
    case Patch => w.update.Keys <= keys
    case Put => w.update.Keys == keys && Resolved(w.update)
    case Delete => false
  }

  predicate AllCover(keys: set<Key>, log: map<int, Write>) {
    forall p :: p in log ==> Covers(keys, log[p])
  }

  lemma {:induction false} ReplayedKeys(keys: set<Key>, record: Object, writes: seq<Write>)
    requires record.Keys <= keys && forall w :: w in writes ==> Covers(keys, w)
    ensures Replayed(record, writes).Keys <= keys
    decreases |writes|
  {
    if writes == [] {
    } else {
      assert writes[0] in writes;
      ReplayedKeys(keys, Applied(record, writes[0]), writes[1..]);
    }
  }

  lemma EarlierCovered(keys: set<Key>, base: Object, arrived: map<int, Write>, place: int)
    requires base.Keys <= keys && AllCover(keys, arrived)
    ensures Replay(base, Earlier(arrived, place)).Keys <= keys
  {
    TimelineMembers(Earlier(arrived, place));
    ReplayedKeys(keys, base, Timeline(Earlier(arrived, place)));
  }

  /** A preferred write has only writes of its own time after it. */
  lemma AheadOnlyOfTies(names: map<string, int>, start: int, arrived: map<int, Write>, s: State, w: Write)
    requires Tracked(names, start, arrived, s) && Preferred(names, s, w)
    ensures s.stamp.version <= w.time
    ensures forall p :: p in Later(arrived, Place(names, w)) ==> arrived[p].time == w.time == s.stamp.version
  {
    forall p | p in Later(arrived, Place(names, w))
      ensures arrived[p].time == w.time == s.stamp.version
    {
      PlaceByTime(names, arrived[p], w);
    }
  }

  ghost predicate NewTime(arrived: map<int, Write>, w: Write) {
    forall p :: p in arrived ==> arrived[p].time != w.time
  }

  lemma AnyOrderWithoutTies(put: Object, after: seq<Write>, gathered: seq<Write>)
    requires NonDecreasing(after) && NoDuplicates(after) && Rearranged(gathered, after)
    requires forall u, v :: u in after && v in after && u.time == v.time ==> u == v
    ensures SameOnKeys(put, Updates(gathered), Updates(after))
  {
    forall key | key in put
      ensures CellThrough(Some(put[key]), Updates(gathered), key) == CellThrough(Some(put[key]), Updates(after), key)
    {
      SettledSame(Some(put[key]), after, gathered, key);
    }
  }

  ghost predicate OnePerTime(arrived: map<int, Write>) {
    forall p, q :: p in arrived && q in arrived && arrived[p].time == arrived[q].time ==> p == q
  }

  lemma OnePerTimeLater(names: map<string, int>, arrived: map<int, Write>, place: int)
    requires Placed(names, arrived) && OnePerTime(arrived)
    ensures var after := Timeline(Later(arrived, place));
            && NonDecreasing(after) && NoDuplicates(after)
            && forall u, v :: u in after && v in after && u.time == v.time ==> u == v
  {
    var later := Later(arrived, place);
    assert Placed(names, later);
    PlacedAscends(names, later);
    TimelineAscends(later);
    TimelineMembers(later);
    forall u, v | u in Timeline(later) && v in Timeline(later) && u.time == v.time
      ensures u == v
    {
      var p, q :| p in later && q in later && later[p] == u && later[q] == v;
    }
  }

  /** Without deletes, a put that has arrived is in the audit log, or another one after it. */
  lemma FullIsAudited(keys: set<Key>, audit: map<int, Write>, arrived: map<int, Write>, place: int)
    requires AuditOf(audit, arrived) && AllCover(keys, arrived) && !AllPatches(Timeline(Later(arrived, place)))
    ensures Superseded(audit, place)
  {
    var later := Later(arrived, place);
    TimelineMembers(later);
    var v :| v in Timeline(later) && !v.kind.Patch?;
    var p :| p in later && later[p] == v;
    assert Covers(keys, arrived[p]);
    if p in audit {
      assert p in Later(audit, place);
    } else {
      SupersededEarlier(audit, place, p);
    }
  }

  lemma NewPlace(names: map<string, int>, arrived: map<int, Write>, w: Write)
    requires Placed(names, arrived) && NewTime(arrived, w)
    ensures Place(names, w) !in arrived
  {
    if Place(names, w) in arrived {
      PlaceByTime(names, w, arrived[Place(names, w)]);
      PlaceByTime(names, arrived[Place(names, w)], w);
    }
  }

  lemma CoveringAhead(names: map<string, int>, start: int, arrived: map<int, Write>, s: State, w: Write)
    requires Tracked(names, start, arrived, s) && NewTime(arrived, w) && Preferred(names, s, w)
    ensures Timeline(Later(arrived, Place(names, w))) == [] && HarmlessAhead(s.record, w, [])
  {
    AheadOnlyOfTies(names, start, arrived, s, w);
    assert Later(arrived, Place(names, w)) == map[];
    AheadExactly(s.record, w, []);
  }

  lemma CoveringLate(names: map<string, int>, keys: set<Key>, base: Object, arrived: map<int, Write>, w: Write, gathered: seq<Write>)
    requires Placed(names, arrived) && OnePerTime(arrived) && base.Keys <= keys && AllCover(keys, arrived) && Covers(keys, w)
    requires Rearranged(gathered, Timeline(Later(arrived, Place(names, w))))
    ensures var place := Place(names, w);
            HarmlessLate(Replay(base, Earlier(arrived, place)), w, Updates(Timeline(Later(arrived, place))), Updates(gathered))
  {
    OnePerTimeLater(names, arrived, Place(names, w));
    EarlierCovered(keys, base, arrived, Place(names, w));
    AnyOrderWithoutTies(w.update, Timeline(Later(arrived, Place(names, w))), gathered);
  }

  lemma CoveringIsHarmless(names: map<string, int>, keys: set<Key>, base: Object, start: int, arrived: map<int, Write>, s: State,
                           w: Write, gathered: seq<Write>)
    requires Tracked(names, start, arrived, s) && base.Keys <= keys && AllCover(keys, arrived) && Covers(keys, w)
    requires NewTime(arrived, w) && OnePerTime(arrived) && Gathered(gathered, s.audit, Place(names, w))
    ensures Harmless(names, base, arrived, s, w, gathered)
  {
    var place := Place(names, w);
    NewPlace(names, arrived, w);
    if Preferred(names, s, w) {
      CoveringAhead(names, start, arrived, s, w);
    } else if AllPatches(Timeline(Later(arrived, place))) {
      LaterOf(s.audit, arrived, place);
      CoveringLate(names, keys, base, arrived, w, gathered);
    } else {
      FullIsAudited(keys, s.audit, arrived, place);
    }
  }

  lemma GrownCovered(names: map<string, int>, keys: set<Key>, arrived: map<int, Write>, w: Write, rest: seq<Arrival>)
    requires AllCover(keys, arrived) && OnePerTime(arrived) && Covers(keys, w) && NewTime(arrived, w)
    requires forall i :: 0 <= i < |rest| ==> NewTime(arrived, rest[i].write) && rest[i].write.time != w.time
    ensures AllCover(keys, arrived[Place(names, w) := w]) && OnePerTime(arrived[Place(names, w) := w])
    ensures forall i :: 0 <= i < |rest| ==> NewTime(arrived[Place(names, w) := w], rest[i].write)
  {
  }

  ghost predicate AllNew(keys: set<Key>, start: int, arrived: map<int, Write>, arrivals: seq<Arrival>) {
    forall i :: 0 <= i < |arrivals| ==>
      start < arrivals[i].write.time && NewTime(arrived, arrivals[i].write) && Covers(keys, arrivals[i].write)
  }

  lemma WithoutFirst(keys: set<Key>, start: int, arrived: map<int, Write>, arrivals: seq<Arrival>)
    requires arrivals != [] && NoTies(arrivals) && AllNew(keys, start, arrived, arrivals)
    ensures NoTies(arrivals[1..]) && AllNew(keys, start, arrived, arrivals[1..])
    ensures forall i :: 0 <= i < |arrivals[1..]| ==> arrivals[1..][i].write.time != arrivals[0].write.time
  {
    assert forall i :: 0 <= i < |arrivals[1..]| ==> arrivals[1..][i] == arrivals[i + 1];
  }

  lemma {:induction false} OnceEachIsAdmissible(names: map<string, int>, keys: set<Key>, base: Object, start: int,
                                                arrived: map<int, Write>, s: State, arrivals: seq<Arrival>)
    requires Sequenced(names, base, start, arrived, s) && base.Keys <= keys && AllCover(keys, arrived) && OnePerTime(arrived)
    requires NoTies(arrivals) && WellGathered(names, s, arrivals)
    requires AllNew(keys, start, arrived, arrivals)
    ensures Admissible(names, base, start, arrived, s, arrivals)
    decreases |arrivals|
  {
    if arrivals == [] {
    } else {
      var w, gathered, rest := arrivals[0].write, arrivals[0].gathered, arrivals[1..];
      NewPlace(names, arrived, w);
      CoveringIsHarmless(names, keys, base, start, arrived, s, w, gathered);
      StepExactly(names, base, start, arrived, s, w, gathered);
      WithoutFirst(keys, start, arrived, arrivals);
      GrownCovered(names, keys, arrived, w, rest);
      OnceEachIsAdmissible(names, keys, base, start, arrived[Place(names, w) := w], Committed(names, s, w, gathered), rest);
    }
  }

  /** Patches and puts in any order of arrival, when each has its own time and each put names every key there is. */
  lemma CoveringWritesConverge(names: map<string, int>, keys: set<Key>, base: Object, start: int, arrivals: seq<Arrival>)
    requires base.Keys <= keys && NoTies(arrivals) && WellGathered(names, Fresh(base, start), arrivals)
    requires forall i :: 0 <= i < |arrivals| ==> start < arrivals[i].write.time && Covers(keys, arrivals[i].write)
    ensures Run(names, Fresh(base, start), arrivals).record == Replay(base, Arrived(names, map[], arrivals))
  {
    OnceEachIsAdmissible(names, keys, base, start, map[], Fresh(base, start), arrivals);
    RecordIsReplay(names, base, start, arrivals);
  }

  function KeysOf(base: Object, arrivals: seq<Arrival>): (keys: set<Key>)
    ensures base.Keys <= keys && forall i :: 0 <= i < |arrivals| ==> arrivals[i].write.update.Keys <= keys
  {
    if arrivals == [] then base.Keys else KeysOf(base, arrivals[..|arrivals| - 1]) + arrivals[|arrivals| - 1].write.update.Keys
  }

  /**
   The law that resequencing is for: any finite set of patches, each newer than the base record and
   with its own timestamp, leaves the record of timestamp order whatever the order of arrival.
   */
  lemma PatchesConverge(names: map<string, int>, base: Object, start: int, arrivals: seq<Arrival>)
    requires NoTies(arrivals) && WellGathered(names, Fresh(base, start), arrivals)
    requires forall i :: 0 <= i < |arrivals| ==> start < arrivals[i].write.time && arrivals[i].write.kind.Patch?
    ensures Run(names, Fresh(base, start), arrivals).record == Replay(base, Arrived(names, map[], arrivals))
  {
    CoveringWritesConverge(names, KeysOf(base, arrivals), base, start, arrivals);
  }

  // ----- what increments add up to

  function Amount(w: Write, key: Key): int {
    if key in w.update && w.update[key].Op? then w.update[key].amount else 0
  }

  function AmountSum(arrivals: seq<Arrival>, key: Key): int {
    if arrivals == [] then 0 else Amount(arrivals[0].write, key) + AmountSum(arrivals[1..], key)
  }

  lemma {:induction false} IncrementsJoin(a: seq<Write>, b: seq<Write>, key: Key)
    ensures Increments(Updates(a + b), key) == Increments(Updates(a), key) + Increments(Updates(b), key)
    decreases |a|
  {
    if a == [] {
      assert a + b == b;
    } else {
      assert (a + b)[1..] == a[1..] + b;
      assert Updates(a + b)[1..] == Updates(a[1..] + b) && Updates(a)[1..] == Updates(a[1..]);
      IncrementsJoin(a[1..], b, key);
    }
  }

  lemma IncrementsOfOne(w: Write, key: Key)
    ensures Increments(Updates([w]), key) == Amount(w, key)
  {
    assert Updates([w]) == [w.update] && [w.update][1..] == [];
    assert Increments([w.update][1..], key) == 0;
  }

  lemma IncrementsInserted(log: map<int, Write>, place: int, w: Write, key: Key)
    requires place !in log
    ensures Increments(Updates(Timeline(log[place := w])), key) == Increments(Updates(Timeline(log)), key) + Amount(w, key)
  {
    var before, after := Timeline(Earlier(log, place)), Timeline(Later(log, place));
    TimelineSplit(log, place);
    TimelineInsert(log, place, w);
    assert before + [] == before;
    IncrementsJoin(before, after, key);
    IncrementsJoin(before + [w], after, key);
    IncrementsJoin(before, [w], key);
    IncrementsOfOne(w, key);
  }

  lemma {:induction false} ArrivedSum(names: map<string, int>, arrived: map<int, Write>, arrivals: seq<Arrival>, key: Key)
    requires Placed(names, arrived) && NoTies(arrivals) && forall i :: 0 <= i < |arrivals| ==> NewTime(arrived, arrivals[i].write)
    ensures Increments(Updates(Timeline(Arrived(names, arrived, arrivals))), key)
         == Increments(Updates(Timeline(arrived)), key) + AmountSum(arrivals, key)
    decreases |arrivals|
  {
    if arrivals == [] {
    } else {
      var w, rest := arrivals[0].write, arrivals[1..];
      NewPlace(names, arrived, w);
      IncrementsInserted(arrived, Place(names, w), w, key);
      assert forall i :: 0 <= i < |rest| ==> rest[i] == arrivals[i + 1];
      ArrivedSum(names, arrived[Place(names, w) := w], rest, key);
    }
  }

  lemma {:induction false} ArrivedWrites(names: map<string, int>, arrived: map<int, Write>, arrivals: seq<Arrival>, w: Write)
    requires Logged(w, Arrived(names, arrived, arrivals))
    ensures Logged(w, arrived) || Among(w, arrivals)
    decreases |arrivals|
  {
    if arrivals == [] {
    } else {
      var first := arrivals[0].write;
      ArrivedWrites(names, arrived[Place(names, first) := first], arrivals[1..], w);
      assert forall a :: a in arrivals[1..] ==> a in arrivals;
      assert arrivals[0] in arrivals;
    }
  }

  /** No patch does anything but increment the key. */
  predicate OnlyIncremented(arrivals: seq<Arrival>, key: Key) {
    forall i :: 0 <= i < |arrivals| ==>
      arrivals[i].write.kind.Patch? && (key in arrivals[i].write.update ==> arrivals[i].write.update[key].Op?)
  }

  lemma TimelineIncrements(names: map<string, int>, arrivals: seq<Arrival>, key: Key)
    requires OnlyIncremented(arrivals, key)
    ensures var timeline := Timeline(Arrived(names, map[], arrivals));
            AllPatches(timeline) && !Overwritten(Updates(timeline), key)
  {
    var timeline := Timeline(Arrived(names, map[], arrivals));
    TimelineMembers(Arrived(names, map[], arrivals));
    forall w | w in timeline
      ensures w.kind.Patch? && !Overwrites(w, key)
    {
      ArrivedWrites(names, map[], arrivals, w);
      var a :| a in arrivals && a.write == w;
    }
    UpdatesTell(timeline, key);
  }

  /** A number or bigint has risen by so much, and is still a number or a bigint. */
  predicate RaisedBy(before: Option<Cell>, after: Option<Cell>, sum: int) {
    && Reading(before).Some? && Reading(after) == Some(Reading(before).value + sum)
    && CellIsNumber(after) && (IsBig(after) <==> IsBig(before))
  }

  lemma RaisedBySum(cell: Option<Cell>, updates: seq<Object>, key: Key)
    requires !Overwritten(updates, key) && CellIsNumber(cell)
    ensures RaisedBy(cell, CellThrough(cell, updates, key), Increments(updates, key))
  {
    IncrementsAdd(cell, updates, key);
    if Incremented(updates, key) {
      IncrementRaises(cell, Increments(updates, key));
    }
  }

  lemma ReplayedRaises(base: Object, timeline: seq<Write>, key: Key, sum: int)
    requires AllPatches(timeline) && !Overwritten(Updates(timeline), key) && CellIsNumber(Lookup(base, key))
    requires sum == Increments(Updates(timeline), key)
    ensures RaisedBy(Lookup(base, key), Lookup(Replayed(base, timeline), key), sum)
  {
    ReplayedPatches(base, timeline);
    CellHistory(base, Updates(timeline), key);
    RaisedBySum(Lookup(base, key), Updates(timeline), key);
  }

  lemma TimelineSum(names: map<string, int>, arrivals: seq<Arrival>, key: Key)
    requires NoTies(arrivals)
    ensures Increments(Updates(Timeline(Arrived(names, map[], arrivals))), key) == AmountSum(arrivals, key)
  {
    ArrivedSum(names, map[], arrivals, key);
    assert Timeline(map[]) == [] && Updates([]) == [];
  }

  /**
   What `add` is for: a number or bigint that patches of distinct timestamps only increment ends, in whatever order
   they arrive, at what it was plus the sum of all amounts, each counted once, and a bigint ends as a bigint.
   */
  lemma IncrementsAddUp(names: map<string, int>, base: Object, start: int, arrivals: seq<Arrival>, key: Key)
    requires NoTies(arrivals) && WellGathered(names, Fresh(base, start), arrivals) && OnlyIncremented(arrivals, key)
    requires forall i :: 0 <= i < |arrivals| ==> start < arrivals[i].write.time
    requires CellIsNumber(Lookup(base, key))
    ensures RaisedBy(Lookup(base, key), Lookup(Run(names, Fresh(base, start), arrivals).record, key), AmountSum(arrivals, key))
  {
    PatchesConverge(names, base, start, arrivals);
    TimelineIncrements(names, arrivals, key);
    TimelineSum(names, arrivals, key);
    ReplayedRaises(base, Timeline(Arrived(names, map[], arrivals)), key, AmountSum(arrivals, key));
  }

  // ----- redelivery

  /**
   A write that comes a second time leaves the record alone exactly when the check at the top of the commit does not
   prefer it, or applying it again makes no difference. It is preferred when it is of the newest time and its node
   name is greater than the name of the last writer, which a late write from another node may have become.
   */
  lemma RedeliveryIgnoredExactly(names: map<string, int>, s: State, w: Write, gathered: seq<Write>)
    requires Place(names, w) in s.audit && s.audit[Place(names, w)] == w && w.time <= s.stamp.version
    ensures Preferred(names, s, w) <==>
            && w.time == s.stamp.version && s.stamp.nodeId != Some(w.nodeId)
            && TieBreak(NameOf(names, Some(w.nodeId)), NameOf(names, s.stamp.nodeId)) > 0
    ensures Committed(names, s, w, gathered).record == s.record <==> (Preferred(names, s, w) ==> Unmoved(s.record, w))
    ensures Committed(names, s, w, gathered) == s <==> !Preferred(names, s, w)
  {
    UnmovedExactly(s.record, w);
  }

  lemma TimelineOfOne(place: int, w: Write)
    ensures Timeline(map[place := w]) == [w] && Updates([w]) == [w.update]
  {
    TimelineLast(map[place := w], place);
    assert map[place := w] - {place} == map[];
  }

  /** The walk of a late patch over a log of one newer write. */
  lemma OneIsGathered(names: map<string, int>, audit: map<int, Write>, w: Write, newer: Write)
    requires audit == map[Place(names, newer) := newer] && Place(names, w) < Place(names, newer)
    ensures Timeline(Later(audit, Place(names, w))) == [newer] && Gathered([newer], audit, Place(names, w))
    ensures newer.kind.Patch? ==> !Superseded(audit, Place(names, w))
  {
    assert Later(audit, Place(names, w)) == map[Place(names, newer) := newer];
    TimelineOfOne(Place(names, newer), newer);
  }

  /** A late patch that the one newer write leaves as it is. */
  lemma LateOverOne(names: map<string, int>, s: State, w: Write, newer: Write)
    requires s.audit == map[Place(names, newer) := newer] && Place(names, w) < Place(names, newer)
    requires w.kind.Patch? && newer.kind.Patch? && !Preferred(names, s, w)
    requires w.update != map[] && RebuiltThrough(w.update, [newer.update], false) == w.update
    ensures Gathered([newer], s.audit, Place(names, w))
    ensures Committed(names, s, w, [newer])
         == State(Apply(s.record, w.update), s.stamp.(nodeId := Some(w.nodeId)), s.audit[Place(names, w) := w])
  {
    OneIsGathered(names, s.audit, w, newer);
    TimelineOfOne(Place(names, newer), newer);
  }

  // Node "b" adds 1 at time 10, and node "a" adds 2 late, at time 5.
  const NAMES := map["a" := 1, "b" := 2]

  const ZERO: Object := map["n" := Plain(Num(0))]

  const NEWEST := Write(10, 2, Patch, map["n" := Op(1)])

  const LATE := Write(5, 1, Patch, map["n" := Op(2)])

  ghost function AfterNewest(): State {
    State(map["n" := Plain(Num(1))], Stamp(10, Some(2)), map[Place(NAMES, NEWEST) := NEWEST])
  }

  lemma Newest(gathered: seq<Write>)
    ensures Committed(NAMES, Fresh(ZERO, 1), NEWEST, gathered) == AfterNewest()
  {
    assert Apply(ZERO, NEWEST.update) == map["n" := Plain(Num(1))];
  }

  lemma LateRebuilt()
    ensures RebuiltThrough(LATE.update, [NEWEST.update], false) == LATE.update
  {
    assert Rebuilt(LATE.update, NEWEST.update, false) == LATE.update;
    assert [NEWEST.update][1..] == [];
  }

  lemma ThenLate()
    ensures Gathered([NEWEST], AfterNewest().audit, Place(NAMES, LATE))
    ensures Committed(NAMES, AfterNewest(), LATE, [NEWEST])
         == State(map["n" := Plain(Num(3))], Stamp(10, Some(1)), AfterNewest().audit[Place(NAMES, LATE) := LATE])
  {
    PlaceByTime(NAMES, LATE, NEWEST);
    LateRebuilt();
    assert "n" in LATE.update && LATE.update != map[];
    LateOverOne(NAMES, AfterNewest(), LATE, NEWEST);
    assert Apply(AfterNewest().record, LATE.update) == map["n" := Plain(Num(3))];
  }

  lemma NothingAfterNewest(audit: map<int, Write>)
    requires audit == AfterNewest().audit[Place(NAMES, LATE) := LATE]
    ensures Gathered([], audit, Place(NAMES, NEWEST))
  {
    PlaceByTime(NAMES, LATE, NEWEST);
    assert Later(audit, Place(NAMES, NEWEST)) == map[];
  }

  lemma PreferredApplies(names: map<string, int>, s: State, w: Write, gathered: seq<Write>)
    requires Preferred(names, s, w)
    ensures Committed(names, s, w, gathered).record == Applied(s.record, w)
  {
  }

  lemma GreaterName(s: State)
    requires s.stamp == Stamp(10, Some(1))
    ensures Preferred(NAMES, s, NEWEST)
  {
    NameIs(NAMES, "a");
    NameIs(NAMES, "b");
    assert Ordering.TextLess("a", "b");
  }

  lemma NewestAgain(s: State)
    requires s.record == map["n" := Plain(Num(3))] && s.stamp == Stamp(10, Some(1))
    ensures Committed(NAMES, s, NEWEST, []).record == map["n" := Plain(Num(4))]
  {
    GreaterName(s);
    PreferredApplies(NAMES, s, NEWEST, []);
    assert Apply(map["n" := Plain(Num(3))], NEWEST.update) == map["n" := Plain(Num(4))];
  }

  /** When "b" is redelivered after that, its 1 counts a second time. */
  lemma RedeliveryCountsTwice()
    ensures var s := Committed(NAMES, Committed(NAMES, Fresh(ZERO, 1), NEWEST, []), LATE, [NEWEST]);
            && Gathered([NEWEST], AfterNewest().audit, Place(NAMES, LATE)) && Gathered([], s.audit, Place(NAMES, NEWEST))
            && s.record == map["n" := Plain(Num(3))]
            && Committed(NAMES, s, NEWEST, []).record == map["n" := Plain(Num(4))]
  {
    Newest([]);
    ThenLate();
    var s := Committed(NAMES, AfterNewest(), LATE, [NEWEST]);
    NothingAfterNewest(s.audit);
    NewestAgain(s);
  }

  // ----- a dropped delete

  // Node "a" deletes the record at time 7, and has set another key at time 5; both come after the patch of "b".
  const DELETION := Write(7, 1, Delete, map[])

  const BEFORE_DELETION := Write(5, 1, Patch, map["m" := Plain(Num(1))])

  lemma SetRebuilt()
    ensures BEFORE_DELETION.update != map[]
    ensures RebuiltThrough(BEFORE_DELETION.update, [NEWEST.update], false) == BEFORE_DELETION.update
  {
    assert "m" in BEFORE_DELETION.update;
    assert Rebuilt(BEFORE_DELETION.update, NEWEST.update, false) == BEFORE_DELETION.update;
    assert [NEWEST.update][1..] == [];
  }

  lemma AppliedOnce(w: Write)
    ensures Updates([w]) == [w.update] && ApplyAll(map[], [w.update]) == Apply(map[], w.update)
  {
    assert [w][1..] == [] && [w.update][1..] == [];
    assert ApplyAll(map[], [w.update]) == ApplyAll(Apply(map[], w.update), []);
  }

  /** A delete before the one newer patch: the patch is applied to nothing. */
  lemma ReplayOverNothing(names: map<string, int>, base: Object, log: map<int, Write>, w: Write, newer: Write)
    requires log == map[Place(names, newer) := newer] && Place(names, w) < Place(names, newer)
    requires newer.kind.Patch? && w.kind.Delete? && Proper(w)
    ensures Replay(base, log[Place(names, w) := w]) == Apply(map[], newer.update)
  {
    OneIsGathered(names, log, w, newer);
    NewReplay(base, log, Place(names, w), w);
    AppliedOnce(newer);
  }

  lemma ReplayAfterDeletion(log: map<int, Write>)
    requires log == map[Place(NAMES, NEWEST) := NEWEST]
    ensures "m" !in Replay(ZERO, log[Place(NAMES, DELETION) := DELETION])
  {
    PlaceByTime(NAMES, DELETION, NEWEST);
    ReplayOverNothing(NAMES, ZERO, log, DELETION, NEWEST);
  }

  lemma DeletionHides(log: map<int, Write>)
    requires log == map[Place(NAMES, NEWEST) := NEWEST][Place(NAMES, DELETION) := DELETION]
    ensures Replay(ZERO, log[Place(NAMES, BEFORE_DELETION) := BEFORE_DELETION]) == Replay(ZERO, log)
  {
    PlaceByTime(NAMES, BEFORE_DELETION, NEWEST);
    PlaceByTime(NAMES, BEFORE_DELETION, DELETION);
    PlaceByTime(NAMES, DELETION, NEWEST);
    var later := Later(log, Place(NAMES, BEFORE_DELETION));
    TimelineMembers(later);
    assert later[Place(NAMES, DELETION)] == DELETION && Logged(DELETION, later);
    NewReplay(ZERO, log, Place(NAMES, BEFORE_DELETION), BEFORE_DELETION);
  }

  lemma ThenBeforeDeletion()
    ensures Gathered([NEWEST], AfterNewest().audit, Place(NAMES, BEFORE_DELETION))
    ensures "m" in Committed(NAMES, AfterNewest(), BEFORE_DELETION, [NEWEST]).record
  {
    PlaceByTime(NAMES, BEFORE_DELETION, NEWEST);
    SetRebuilt();
    LateOverOne(NAMES, AfterNewest(), BEFORE_DELETION, NEWEST);
  }

  /** The late delete leaves no trace, so that the older patch is stored after it. */
  lemma DroppedDeleteForgotten()
    ensures forall gathered :: Committed(NAMES, AfterNewest(), DELETION, gathered) == AfterNewest()
    ensures Gathered([NEWEST], AfterNewest().audit, Place(NAMES, BEFORE_DELETION))
    ensures "m" in Committed(NAMES, AfterNewest(), BEFORE_DELETION, [NEWEST]).record
    ensures "m" !in Replay(ZERO, AfterNewest().audit[Place(NAMES, DELETION) := DELETION][Place(NAMES, BEFORE_DELETION) := BEFORE_DELETION])
  {
    ThenBeforeDeletion();
    ReplayAfterDeletion(AfterNewest().audit);
    DeletionHides(AfterNewest().audit[Place(NAMES, DELETION) := DELETION]);
  }
}
