/**
 The walk of the audit trail gathers the patches after a late write, and sorts them by version (`succeedingUpdates` in
 resources/Table.ts). Patches of one version stay in the order of the walk. For a late patch that makes no difference;
 for a late put it is stated exactly when it does.
 */
module GatheredOrder {
  import opened Wrappers
  import opened Crdt
  import opened Timelines

  /** The same writes in an order that respects the versions. */
  ghost predicate Rearranged(order: seq<Write>, writes: seq<Write>) {
    NonDecreasing(order) && NoDuplicates(order) && forall w :: w in order <==> w in writes
  }

  // ----- a late patch

  lemma RebuiltCommutes(update: Object, a: Object, b: Object)
    ensures Rebuilt(Rebuilt(update, a, false), b, false) == Rebuilt(Rebuilt(update, b, false), a, false)
  {
    var x, y := Rebuilt(Rebuilt(update, a, false), b, false), Rebuilt(Rebuilt(update, b, false), a, false);
    forall key
      ensures key in x <==> key in y
      ensures key in x && key in y ==> x[key] == y[key]
    {
    }
  }

  lemma RebuildFirst(update: Object, writes: seq<Write>)
    requires writes != []
    ensures RebuiltThrough(update, Updates(writes), false)
         == RebuiltThrough(Rebuilt(update, writes[0].update, false), Updates(writes[1..]), false)
  {
    assert Updates(writes)[1..] == Updates(writes[1..]);
  }

  lemma {:induction false} RebuiltWithoutOne(update: Object, writes: seq<Write>, i: nat)
    requires i < |writes|
    ensures RebuiltThrough(update, Updates(writes), false)
         == RebuiltThrough(Rebuilt(update, writes[i].update, false), Updates(Without(writes, i)), false)
    decreases |writes|
  {
    RebuildFirst(update, writes);
    if i == 0 {
      assert Without(writes, 0) == writes[1..];
    } else {
      var rest := writes[1..];
      RebuiltWithoutOne(Rebuilt(update, writes[0].update, false), rest, i - 1);
      RebuiltCommutes(update, writes[0].update, writes[i].update);
      assert Without(writes, i)[1..] == Without(rest, i - 1);
      RebuildFirst(Rebuilt(update, writes[i].update, false), Without(writes, i));
    }
  }

  /** A late patch is rebuilt to the same update in every order. */
  lemma {:induction false} RebuiltAnyOrder(update: Object, a: seq<Write>, b: seq<Write>)
    requires NoDuplicates(a) && NoDuplicates(b) && forall w :: w in a <==> w in b
    ensures RebuiltThrough(update, Updates(a), false) == RebuiltThrough(update, Updates(b), false)
    decreases |a|
  {
    if a == [] {
      HasMember(b);
    } else {
      assert a[0] in b;
      var i :| 0 <= i < |b| && b[i] == a[0];
      WithoutMembers(a, 0);
      WithoutMembers(b, i);
      RebuiltWithoutOne(update, a, 0);
      RebuiltWithoutOne(update, b, i);
      RebuiltAnyOrder(Rebuilt(update, a[0].update, false), Without(a, 0), Without(b, i));
    }
  }

  // ----- two patches on one key of a put

  /**
   The order of two changes does not show: in general, or when increments follow, before which values need only count
   as the same number.
   */
  predicate CellsCommute(a: Cell, b: Cell, incremented: bool) {
    match (a, b)
    case (Op(_), Op(_)) => true
    case (Plain(_), Plain(_)) => a == b || (incremented && Added(Some(a), 0) == Added(Some(b), 0))
    case (Plain(_), Op(n)) => n == 0 && (incremented || IsNumber(a))
    case (Op(n), Plain(_)) => n == 0 && (incremented || IsNumber(b))
  }

  lemma CommuteExactly(cell: Option<Cell>, a: Cell, b: Cell)
    ensures var x, y := AppliedCell(Some(AppliedCell(cell, a)), b), AppliedCell(Some(AppliedCell(cell, b)), a);
            && (x == y <==> CellsCommute(a, b, false))
            && (Added(Some(x), 0) == Added(Some(y), 0) <==> CellsCommute(a, b, true))
  {
  }

  /** Two patches, and what follows: their order does not show in a cell. */
  predicate Swappable(a: Object, b: Object, rest: seq<Object>, key: Key) {
    key in a && key in b ==> Overwritten(rest, key) || CellsCommute(a[key], b[key], Incremented(rest, key))
  }

  function CellAfter(cell: Option<Cell>, update: Object, key: Key): Option<Cell> {
    if key in update then Some(AppliedCell(cell, update[key])) else cell
  }

  lemma TwoSteps(cell: Option<Cell>, a: Object, b: Object, rest: seq<Object>, key: Key)
    ensures CellThrough(cell, [a, b] + rest, key) == CellThrough(CellAfter(CellAfter(cell, a, key), b, key), rest, key)
  {
    assert ([a, b] + rest)[1..] == [b] + rest;
    assert ([b] + rest)[1..] == rest;
  }

  lemma SwapExactly(cell: Option<Cell>, a: Object, b: Object, rest: seq<Object>, key: Key)
    ensures CellThrough(cell, [a, b] + rest, key) == CellThrough(cell, [b, a] + rest, key) <==> Swappable(a, b, rest, key)
  {
    TwoSteps(cell, a, b, rest, key);
    TwoSteps(cell, b, a, rest, key);
    if key in a && key in b {
      CommuteExactly(cell, a[key], b[key]);
      SameThroughExactly(Some(AppliedCell(Some(AppliedCell(cell, a[key])), b[key])),
                         Some(AppliedCell(Some(AppliedCell(cell, b[key])), a[key])), rest, key);
    }
  }

  lemma RebuiltPutExactly(put: Object, a: seq<Object>, b: seq<Object>)
    requires Resolved(put)
    ensures RebuiltThrough(put, a, true) == RebuiltThrough(put, b, true) <==> SameOnKeys(put, a, b)
  {
    LatePutRebuilt(put, a);
    LatePutRebuilt(put, b);
    var x, y := RebuiltThrough(put, a, true), RebuiltThrough(put, b, true);
    forall key | key in put
      ensures Some(x[key]) == CellThrough(Some(put[key]), a, key) && Some(y[key]) == CellThrough(Some(put[key]), b, key)
    {
      CellHistory(put, a, key);
      CellHistory(put, b, key);
    }
  }

  /** Rebuilding a put through two patches in either order is the same exactly when they commute on its keys. */
  lemma PutPairExactly(put: Object, a: Object, b: Object)
    requires Resolved(put)
    ensures RebuiltThrough(put, [a, b], true) == RebuiltThrough(put, [b, a], true)
       <==> forall key :: key in put && key in a && key in b ==> CellsCommute(a[key], b[key], false)
  {
    forall key | key in put
      ensures CellThrough(Some(put[key]), [a, b], key) == CellThrough(Some(put[key]), [b, a], key)
         <==> (key in a && key in b ==> CellsCommute(a[key], b[key], false))
    {
      SwapExactly(Some(put[key]), a, b, [], key);
      assert [a, b] + [] == [a, b] && [b, a] + [] == [b, a];
    }
    RebuiltPutExactly(put, [a, b], [b, a]);
  }

  // ----- any number of patches of any versions

  predicate Overwrites(w: Write, key: Key) {
    key in w.update && w.update[key].Plain?
  }

  predicate Adds(w: Write, key: Key) {
    key in w.update && w.update[key].Op?
  }

  ghost predicate OverwrittenAfter(writes: seq<Write>, time: int, key: Key) {
    exists w :: w in writes && time < w.time && Overwrites(w, key)
  }

  ghost predicate IncrementedAfter(writes: seq<Write>, time: int, key: Key) {
    exists w :: w in writes && time < w.time && Adds(w, key)
  }

  /** Two patches of one version commute on a key, or a later version overwrites it. */
  ghost predicate PairSettled(writes: seq<Write>, u: Write, v: Write, key: Key) {
    u != v && u.time == v.time && key in u.update && key in v.update ==>
      OverwrittenAfter(writes, u.time, key) || CellsCommute(u.update[key], v.update[key], IncrementedAfter(writes, u.time, key))
  }

  ghost predicate Settled(writes: seq<Write>, key: Key) {
    forall u, v :: u in writes && v in writes ==> PairSettled(writes, u, v, key)
  }

  function Through(cell: Option<Cell>, writes: seq<Write>, key: Key): Option<Cell> {
    CellThrough(cell, Updates(writes), key)
  }

  lemma ThroughFirst(cell: Option<Cell>, writes: seq<Write>, key: Key)
    requires writes != []
    ensures Through(cell, writes, key) == Through(CellAfter(cell, writes[0].update, key), writes[1..], key)
  {
    assert Updates(writes)[1..] == Updates(writes[1..]);
  }

  lemma {:induction false} ThroughConcat(cell: Option<Cell>, a: seq<Write>, b: seq<Write>, key: Key)
    ensures Through(cell, a + b, key) == Through(Through(cell, a, key), b, key)
    decreases |a|
  {
    if a == [] {
      assert a + b == b;
    } else {
      assert (a + b)[1..] == a[1..] + b;
      ThroughFirst(cell, a + b, key);
      ThroughFirst(cell, a, key);
      ThroughConcat(CellAfter(cell, a[0].update, key), a[1..], b, key);
    }
  }

  lemma {:induction false} UpdatesTell(writes: seq<Write>, key: Key)
    ensures Overwritten(Updates(writes), key) <==> exists w :: w in writes && Overwrites(w, key)
    ensures Incremented(Updates(writes), key) <==> exists w :: w in writes && Adds(w, key)
    decreases |writes|
  {
    if writes == [] {
    } else {
      var updates := Updates(writes);
      assert updates[1..] == Updates(writes[1..]);
      UpdatesTell(writes[1..], key);
      OverwrittenStep(updates, key);
      assert forall w :: w in writes <==> w == writes[0] || w in writes[1..];
      assert Overwrites(writes[0], key) <==> key in updates[0] && updates[0][key].Plain?;
      assert Adds(writes[0], key) <==> key in updates[0] && updates[0][key].Op?;
      assert writes[0] in writes;
    }
  }

  lemma UpdatesOfTwo(u: Write, v: Write, rest: seq<Write>)
    ensures Updates([u, v] + rest) == [u.update, v.update] + Updates(rest)
  {
    assert ([u, v] + rest)[1..] == [v] + rest;
    assert ([v] + rest)[1..] == rest;
  }

  lemma SwapWrites(cell: Option<Cell>, u: Write, v: Write, rest: seq<Write>, key: Key)
    ensures Through(cell, [u, v] + rest, key) == Through(cell, [v, u] + rest, key)
       <==> Swappable(u.update, v.update, Updates(rest), key)
  {
    UpdatesOfTwo(u, v, rest);
    UpdatesOfTwo(v, u, rest);
    SwapExactly(cell, u.update, v.update, Updates(rest), key);
  }

  // ----- settled patches: every order does the same

  /** What is settled stays so without a write of the least version. */
  lemma SettledRest(writes: seq<Write>, i: nat, key: Key)
    requires i < |writes| && NoDuplicates(writes) && Settled(writes, key)
    requires forall w :: w in writes ==> writes[i].time <= w.time
    ensures Settled(Without(writes, i), key)
  {
    var others := Without(writes, i);
    WithoutMembers(writes, i);
    forall u, v | u in others && v in others
      ensures PairSettled(others, u, v, key)
    {
      assert PairSettled(writes, u, v, key);
      assert forall w :: w in writes && u.time < w.time ==> w in others;
      assert OverwrittenAfter(writes, u.time, key) ==> OverwrittenAfter(others, u.time, key);
      assert IncrementedAfter(writes, u.time, key) <==> IncrementedAfter(others, u.time, key);
    }
  }

  lemma SettledSwappable(writes: seq<Write>, u: Write, v: Write, rest: seq<Write>, key: Key)
    requires Settled(writes, key) && u in writes && v in writes && u != v && u.time == v.time
    requires forall w :: w in writes && u.time < w.time ==> w in rest
    ensures Swappable(u.update, v.update, Updates(rest), key)
  {
    assert PairSettled(writes, u, v, key);
    UpdatesTell(rest, key);
  }

  lemma ThroughTwo(cell: Option<Cell>, u: Write, v: Write, rest: seq<Write>, key: Key)
    ensures Through(cell, [u, v] + rest, key)
         == Through(CellAfter(CellAfter(cell, u.update, key), v.update, key), rest, key)
  {
    UpdatesOfTwo(u, v, rest);
    TwoSteps(cell, u.update, v.update, Updates(rest), key);
  }

  lemma SwapFirst(cell: Option<Cell>, u: Write, v: Write, rest: seq<Write>, key: Key)
    requires Swappable(u.update, v.update, Updates(rest), key)
    ensures Through(CellAfter(CellAfter(cell, u.update, key), v.update, key), rest, key)
         == Through(CellAfter(CellAfter(cell, v.update, key), u.update, key), rest, key)
  {
    SwapWrites(cell, u, v, rest, key);
    ThroughTwo(cell, u, v, rest, key);
    ThroughTwo(cell, v, u, rest, key);
  }

  lemma FirstSwappable(writes: seq<Write>, i: nat, key: Key)
    requires 0 < i < |writes| && NonDecreasing(writes) && NoDuplicates(writes) && Settled(writes, key)
    requires writes[i].time == writes[0].time
    ensures Swappable(writes[0].update, writes[i].update, Updates(Without(writes[1..], i - 1)), key)
  {
    var others := Without(writes[1..], i - 1);
    forall w | w in writes && writes[0].time < w.time
      ensures w in others
    {
      var k :| 0 <= k < |writes| && writes[k] == w;
      assert k != 0 && k != i;
      assert others[if k < i then k - 1 else k - 2] == w;
    }
    SettledSwappable(writes, writes[0], writes[i], others, key);
  }

  lemma AfterFirst(writes: seq<Write>, i: nat, key: Key)
    requires 0 < i < |writes| && NonDecreasing(writes) && NoDuplicates(writes) && Settled(writes, key)
    requires writes[i].time == writes[0].time
    ensures NonDecreasing(writes[1..]) && NoDuplicates(writes[1..]) && Settled(writes[1..], key)
    ensures writes[1..][i - 1] == writes[i] && writes[1..][0].time == writes[i].time
  {
    assert Without(writes, 0) == writes[1..];
    SettledRest(writes, 0, key);
    WithoutMembers(writes, 0);
    WithoutOrder(writes, 0);
    assert writes[0].time <= writes[1].time <= writes[i].time;
  }

  lemma {:induction false} MoveToFront(cell: Option<Cell>, writes: seq<Write>, i: nat, key: Key)
    requires i < |writes| && NonDecreasing(writes) && NoDuplicates(writes) && Settled(writes, key)
    requires writes[i].time == writes[0].time
    ensures Through(cell, writes, key) == Through(CellAfter(cell, writes[i].update, key), Without(writes, i), key)
    decreases |writes|
  {
    ThroughFirst(cell, writes, key);
    if i == 0 {
      assert Without(writes, 0) == writes[1..];
    } else {
      var first, rest := writes[0], writes[1..];
      AfterFirst(writes, i, key);
      MoveToFront(CellAfter(cell, first.update, key), rest, i - 1, key);
      var others := Without(rest, i - 1);
      assert Without(writes, i)[1..] == others;
      FirstSwappable(writes, i, key);
      SwapFirst(cell, first, writes[i], others, key);
      ThroughFirst(CellAfter(cell, writes[i].update, key), Without(writes, i), key);
    }
  }

  lemma FirstIsLeast(a: seq<Write>, b: seq<Write>, i: nat)
    requires NonDecreasing(a) && NonDecreasing(b) && (forall w :: w in a <==> w in b)
    requires a != [] && i < |b| && b[i] == a[0]
    ensures b[i].time == b[0].time && forall w :: w in a ==> a[0].time <= w.time
  {
    assert b[0] in a;
  }

  lemma WithoutBoth(a: seq<Write>, b: seq<Write>, i: nat, key: Key)
    requires NonDecreasing(a) && NoDuplicates(a) && Rearranged(b, a) && Settled(a, key)
    requires a != [] && i < |b| && b[i] == a[0]
    ensures NonDecreasing(Without(a, 0)) && NoDuplicates(Without(a, 0)) && Settled(Without(a, 0), key)
    ensures Rearranged(Without(b, i), Without(a, 0))
  {
    FirstIsLeast(a, b, i);
    WithoutMembers(a, 0);
    WithoutMembers(b, i);
    WithoutOrder(a, 0);
    WithoutOrder(b, i);
    SettledRest(a, 0, key);
  }

  lemma SettledRearranged(a: seq<Write>, b: seq<Write>, key: Key)
    requires Settled(a, key) && forall w :: w in a <==> w in b
    ensures Settled(b, key)
  {
    forall u, v | u in b && v in b
      ensures PairSettled(b, u, v, key)
    {
      assert PairSettled(a, u, v, key);
    }
  }

  lemma {:induction false} SettledSame(cell: Option<Cell>, a: seq<Write>, b: seq<Write>, key: Key)
    requires NonDecreasing(a) && NoDuplicates(a) && Rearranged(b, a) && Settled(a, key)
    ensures Through(cell, a, key) == Through(cell, b, key)
    decreases |a|
  {
    if a == [] {
      HasMember(b);
    } else {
      assert a[0] in b;
      var i :| 0 <= i < |b| && b[i] == a[0];
      FirstIsLeast(a, b, i);
      SettledRearranged(a, b, key);
      MoveToFront(cell, a, 0, key);
      MoveToFront(cell, b, i, key);
      WithoutBoth(a, b, i, key);
      SettledSame(CellAfter(cell, a[0].update, key), Without(a, 0), Without(b, i), key);
    }
  }

  // ----- unsettled patches: two orders that differ

  /** How many writes are not after a version. */
  function UpTo(writes: seq<Write>, time: int): (n: nat)
    requires NonDecreasing(writes)
    ensures n <= |writes| && (forall k :: 0 <= k < n ==> writes[k].time <= time) && (forall k :: n <= k < |writes| ==> time < writes[k].time)
  {
    if writes == [] then 0
    else if writes[|writes| - 1].time <= time then |writes|
    else UpTo(writes[..|writes| - 1], time)
  }

  lemma WithoutOne(writes: seq<Write>, u: Write) returns (others: seq<Write>)
    requires NonDecreasing(writes) && NoDuplicates(writes) && u in writes
    ensures NonDecreasing(others) && NoDuplicates(others)
    ensures forall w :: w in others <==> w in writes && w != u
  {
    var i :| 0 <= i < |writes| && writes[i] == u;
    others := Without(writes, i);
    WithoutMembers(writes, i);
    WithoutOrder(writes, i);
  }

  lemma WithoutTwo(writes: seq<Write>, u: Write, v: Write) returns (others: seq<Write>)
    requires NonDecreasing(writes) && NoDuplicates(writes) && u in writes && v in writes && u != v
    ensures NonDecreasing(others) && NoDuplicates(others)
    ensures forall w :: w in others <==> w in writes && w != u && w != v
  {
    var fewer := WithoutOne(writes, v);
    others := WithoutOne(fewer, u);
  }

  lemma OrderOfThree(others: seq<Write>, u: Write, v: Write, tail: seq<Write>)
    requires NonDecreasing(others) && NoDuplicates(others) && NonDecreasing(tail) && NoDuplicates(tail)
    requires u != v && u.time == v.time && u !in others && v !in others
    requires forall w :: w in others ==> w.time <= u.time
    requires forall w :: w in tail ==> u.time < w.time
    ensures NonDecreasing(others + ([u, v] + tail)) && NoDuplicates(others + ([u, v] + tail))
  {
    var all := others + ([u, v] + tail);
    var n := |others|;
    forall i, j | 0 <= i < j < |all|
      ensures all[i].time <= all[j].time && all[i] != all[j]
    {
      assert i < n ==> all[i] in others;
      assert n + 2 <= i ==> all[i] in tail;
      assert j < n ==> all[j] in others;
      assert n + 2 <= j ==> all[j] in tail;
    }
  }

  /** The writes up to the version of two of them, with these two at the end. */
  lemma MovedLast(writes: seq<Write>, u: Write, v: Write) returns (others: seq<Write>, tail: seq<Write>)
    requires NonDecreasing(writes) && NoDuplicates(writes) && u in writes && v in writes && u != v && u.time == v.time
    ensures Rearranged(others + ([u, v] + tail), writes)
    ensures forall w :: w in tail <==> w in writes && u.time < w.time
  {
    var n := UpTo(writes, u.time);
    others := WithoutTwo(writes[..n], u, v);
    tail := writes[n..];
    assert writes == writes[..n] + tail;
    OrderOfThree(others, u, v, tail);
  }

  lemma SwappedRearranged(others: seq<Write>, u: Write, v: Write, tail: seq<Write>, writes: seq<Write>)
    requires Rearranged(others + ([u, v] + tail), writes) && u.time == v.time
    ensures Rearranged(others + ([v, u] + tail), writes)
  {
    var a, b, n := others + ([u, v] + tail), others + ([v, u] + tail), |others|;
    assert forall k :: 0 <= k < |a| ==> b[k] == a[if k == n then n + 1 else if k == n + 1 then n else k];
    assert forall k :: 0 <= k < |a| ==> a[k] == b[if k == n then n + 1 else if k == n + 1 then n else k];
  }

  lemma UnsettledDiffer(cell: Option<Cell>, writes: seq<Write>, u: Write, v: Write, key: Key)
    returns (a: seq<Write>, b: seq<Write>)
    requires NonDecreasing(writes) && NoDuplicates(writes) && u in writes && v in writes && !PairSettled(writes, u, v, key)
    ensures Rearranged(a, writes) && Rearranged(b, writes) && Through(cell, a, key) != Through(cell, b, key)
  {
    var others, tail := MovedLast(writes, u, v);
    a, b := others + ([u, v] + tail), others + ([v, u] + tail);
    SwappedRearranged(others, u, v, tail, writes);
    UpdatesTell(tail, key);
    SwapWrites(Through(cell, others, key), u, v, tail, key);
    ThroughConcat(cell, others, [u, v] + tail, key);
    ThroughConcat(cell, others, [v, u] + tail, key);
  }

  // ----- a late put

  /**
   A late put is rebuilt to the same record in every order that respects the versions exactly when, on each of its
   keys, any two patches of one version commute or a later version overwrites them.
   */
  lemma PutInAnyOrderExactly(put: Object, writes: seq<Write>)
    requires Resolved(put) && NonDecreasing(writes) && NoDuplicates(writes)
    ensures (forall order :: Rearranged(order, writes) ==> RebuiltThrough(put, Updates(order), true) == RebuiltThrough(put, Updates(writes), true))
       <==> forall key :: key in put ==> Settled(writes, key)
  {
    if key :| key in put && !Settled(writes, key) {
      var u, v :| u in writes && v in writes && !PairSettled(writes, u, v, key);
      var a, b := UnsettledDiffer(Some(put[key]), writes, u, v, key);
      RebuiltPutExactly(put, Updates(a), Updates(b));
    } else {
      forall order | Rearranged(order, writes)
        ensures RebuiltThrough(put, Updates(order), true) == RebuiltThrough(put, Updates(writes), true)
      {
        forall key | key in put
          ensures CellThrough(Some(put[key]), Updates(order), key) == CellThrough(Some(put[key]), Updates(writes), key)
        {
          SettledSame(Some(put[key]), writes, order, key);
        }
        RebuiltPutExactly(put, Updates(order), Updates(writes));
      }
    }
  }

  lemma RebuiltTwice(update: Object, a: Object, b: Object, fullUpdate: bool)
    ensures RebuiltThrough(update, [a, b], fullUpdate) == Rebuilt(Rebuilt(update, a, fullUpdate), b, fullUpdate)
  {
    var once := Rebuilt(update, a, fullUpdate);
    assert [a, b][1..] == [b] && [b][1..] == [];
    assert RebuiltThrough(once, [b], fullUpdate) == RebuiltThrough(Rebuilt(once, b, fullUpdate), [], fullUpdate);
  }

  /** Of two patches of one version, a late put keeps what the walk of the audit trail met last. */
  lemma PutMindsOrder()
    ensures var put: Object, sets: Object, adds: Object := map["x" := Plain(Num(0))], map["x" := Plain(Num(5))], map["x" := Op(1)];
            && RebuiltThrough(put, [sets, adds], true) == map["x" := Plain(Num(6))]
            && RebuiltThrough(put, [adds, sets], true) == map["x" := Plain(Num(5))]
  {
    var put: Object, sets: Object, adds: Object := map["x" := Plain(Num(0))], map["x" := Plain(Num(5))], map["x" := Op(1)];
    assert Rebuilt(put, sets, true) == map["x" := Plain(Num(5))];
    assert Rebuilt(map["x" := Plain(Num(5))], adds, true) == map["x" := Plain(Num(6))];
    assert Rebuilt(put, adds, true) == map["x" := Plain(Num(1))];
    assert Rebuilt(map["x" := Plain(Num(1))], sets, true) == map["x" := Plain(Num(5))];
    RebuiltTwice(put, sets, adds, true);
    RebuiltTwice(put, adds, sets, true);
  }
}
