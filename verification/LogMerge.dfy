/**
 The merged iterator over all transaction logs, which can be resumed after it was done
 (`getRange` in resources/RocksTransactionLogStore.ts). Each log is taken from the start of the
 requested range; logs only grow, and a log's own iterator can go on after it was done.
 */
module LogMerge {
  import opened Wrappers

  datatype Entry = Entry(timestamp: int, data: string)

  type Logs = seq<seq<Entry>>

  /**
   The iterators' positions, for the logs known so far, and the next entry of each, fetched ahead;
   `None` is a done result. An empty list of next entries asks for all of them to be fetched again.
   */
  datatype Merge = Merge(positions: seq<nat>, nextEntries: seq<Option<Entry>>)

  const FRESH := Merge([], [])

  // ----- the specification of one call

  function Fetched(log: seq<Entry>, position: nat): Option<Entry> {
    if position < |log| then Some(log[position]) else None
  }

  function Moved(log: seq<Entry>, position: nat): nat {
    if position < |log| then position + 1 else position
  }

  /** Positions for all logs; the new ones start at their beginning. */
  function Positions(logs: Logs, m: Merge): (p: seq<nat>)
    requires |m.positions| <= |logs|
    ensures |p| == |logs|
  {
    m.positions + seq(|logs| - |m.positions|, i => 0)
  }

  function Refilled(logs: Logs, m: Merge): Merge
    requires |m.positions| <= |logs|
  {
    var p := Positions(logs, m);
    Merge(seq(|logs|, i requires 0 <= i < |logs| => Moved(logs[i], p[i])), seq(|logs|, i requires 0 <= i < |logs| => Fetched(logs[i], p[i])))
  }

  /** The index of the earliest of the first `n` next entries, the first one on a tie; -1 if all are done. */
  function Earliest(next: seq<Option<Entry>>, n: nat): (k: int)
    requires n <= |next|
    ensures -1 <= k < n
    ensures k >= 0 ==> next[k].Some? && forall j :: 0 <= j < n && next[j].Some? ==> next[k].value.timestamp <= next[j].value.timestamp
    ensures k >= 0 ==> forall j :: 0 <= j < k && next[j].Some? ==> next[k].value.timestamp < next[j].value.timestamp
    ensures k == -1 ==> forall j :: 0 <= j < n ==> next[j].None?
  {
    if n == 0 then -1
    else
      var k := Earliest(next, n - 1);
      if next[n - 1].None? then k
      else if k == -1 || next[k].value.timestamp > next[n - 1].value.timestamp then n - 1
      else k
  }

  function Advanced(logs: Logs, m: Merge, k: nat): Merge
    requires k < |m.nextEntries| == |m.positions| <= |logs|
  {
    Merge(m.positions[k := Moved(logs[k], m.positions[k])], m.nextEntries[k := Fetched(logs[k], m.positions[k])])
  }

  function Ready(logs: Logs, m: Merge): Merge
    requires |m.positions| <= |logs|
  {
    if m.nextEntries == [] then Refilled(logs, m) else m
  }

  /** The state fits the logs: each next entry is the one just before its log's position. */
  predicate Fits(logs: Logs, m: Merge) {
    && |m.positions| <= |logs| && (m.nextEntries == [] || |m.nextEntries| == |m.positions|)
    && (forall i :: 0 <= i < |m.positions| ==> m.positions[i] <= |logs[i]|)
    && (forall i :: 0 <= i < |m.nextEntries| && m.nextEntries[i].Some? ==>
          m.positions[i] > 0 && m.nextEntries[i].value == logs[i][m.positions[i] - 1])
  }

  datatype Result = Done | Deliver(log: nat, entry: Entry)

  function Called(logs: Logs, m: Merge): (Result, Merge)
    requires Fits(logs, m)
  {
    var ready := Ready(logs, m);
    var k := Earliest(ready.nextEntries, |ready.nextEntries|);
    if k < 0 then (Done, ready.(nextEntries := []))
    else (Deliver(k, ready.nextEntries[k].value), Advanced(logs, ready, k))
  }

  // ----- the iterator as an object

  class TransactionLogStore {
    var logs: Logs

    constructor ()
      ensures logs == []
    {
      logs := [];
    }

    method AddLog()
      modifies this
      ensures logs == old(logs) + [[]]
    {
      logs := logs + [[]];
    }

    method Append(i: nat, entry: Entry)
      requires i < |logs|
      modifies this
      ensures logs == old(logs)[i := old(logs)[i] + [entry]]
    {
      logs := logs[i := logs[i] + [entry]];
    }
  }

  class AggregateIterator {
    const store: TransactionLogStore
    var positions: seq<nat>
    var nextEntries: seq<Option<Entry>>

    constructor (store: TransactionLogStore)
      ensures this.store == store
      ensures View() == Refilled(store.logs, FRESH)
    {
      this.store := store;
      positions, nextEntries := [], [];
      new;
      UpdateIterators();
    }

    function View(): Merge
      reads this
    {
      Merge(positions, nextEntries)
    }

    /** Iterators for logs that are new, then the next entry of every iterator. */
    method UpdateIterators()
      requires |positions| <= |store.logs|
      modifies this
      ensures View() == Refilled(store.logs, old(View()))
    {
      ghost var target := Refilled(store.logs, View());
      var p := positions;
      while |p| < |store.logs|
        invariant |positions| <= |p| <= |store.logs|
        invariant p == Positions(store.logs, View())[..|p|]
      {
        p := p + [0];
      }
      var moved: seq<nat>, fetched: seq<Option<Entry>> := [], [];
      for i := 0 to |p|
        invariant moved == target.positions[..i] && fetched == target.nextEntries[..i]
      {
        moved := moved + [Moved(store.logs[i], p[i])];
        fetched := fetched + [Fetched(store.logs[i], p[i])];
      }
      positions, nextEntries := moved, fetched;
    }

    method Next() returns (result: Result)
      requires Fits(store.logs, View())
      modifies this
      ensures (result, View()) == Called(store.logs, old(View()))
    {
      if |nextEntries| == 0 {
        UpdateIterators();
      }
      var earliestIndex := -1;
      for i := 0 to |nextEntries|
        invariant earliestIndex == Earliest(nextEntries, i)
      {
        var next := nextEntries[i];
        if next.None? {
          continue;
        }
        if earliestIndex == -1 || nextEntries[earliestIndex].value.timestamp > next.value.timestamp {
          earliestIndex := i;
        }
      }
      if earliestIndex >= 0 {
        var earliest := nextEntries[earliestIndex].value;
        Replace(earliestIndex);
        return Deliver(earliestIndex, earliest);
      }
      nextEntries := []; // so that the next call fetches again
      return Done;
    }

    /** Replace a delivered entry by the next one of its log. */
    method Replace(k: nat)
      requires k < |nextEntries| == |positions| <= |store.logs|
      modifies this
      ensures View() == Advanced(store.logs, old(View()), k)
    {
      var log, position := store.logs[k], positions[k];
      nextEntries := nextEntries[k := Fetched(log, position)];
      positions := positions[k := Moved(log, position)];
    }
  }

  // ----- what has been delivered

  /** How many entries of a log have been delivered: all before its position but the one fetched ahead. */
  function Taken(m: Merge, i: nat): int {
    if i >= |m.positions| then 0
    else (m.positions[i] as int) - (if i < |m.nextEntries| && m.nextEntries[i].Some? then 1 else 0)
  }

  lemma ReadyKeepsTaken(logs: Logs, m: Merge)
    requires Fits(logs, m)
    ensures Fits(logs, Ready(logs, m)) && forall i :: 0 <= i < |logs| ==> Taken(Ready(logs, m), i) == Taken(m, i)
  {
  }

  lemma StoppingKeepsTaken(m: Merge, i: nat)
    requires i < |m.nextEntries| ==> m.nextEntries[i].None?
    ensures Taken(m.(nextEntries := []), i) == Taken(m, i)
  {
  }

  lemma AdvancingTakesOne(logs: Logs, m: Merge, k: nat)
    requires Fits(logs, m) && k < |m.nextEntries| == |m.positions| && m.nextEntries[k].Some?
    ensures Fits(logs, Advanced(logs, m, k))
    ensures 0 <= Taken(m, k) < |logs[k]| && m.nextEntries[k].value == logs[k][Taken(m, k)]
    ensures Taken(Advanced(logs, m, k), k) == Taken(m, k) + 1
    ensures forall i :: 0 <= i < |logs| && i != k ==> Taken(Advanced(logs, m, k), i) == Taken(m, i)
  {
  }

  /** A call delivers the next undelivered entry of one log, or nothing. */
  lemma CallDelivers(logs: Logs, m: Merge)
    requires Fits(logs, m)
    ensures var (result, m') := Called(logs, m);
            && Fits(logs, m')
            && (result.Done? ==> m'.nextEntries == [] && forall i :: 0 <= i < |logs| ==> Taken(m', i) == Taken(m, i))
            && (result.Deliver? ==>
                 && result.log < |logs| && 0 <= Taken(m, result.log) < |logs[result.log]|
                 && result.entry == logs[result.log][Taken(m, result.log)]
                 && Taken(m', result.log) == Taken(m, result.log) + 1
                 && forall i :: 0 <= i < |logs| && i != result.log ==> Taken(m', i) == Taken(m, i))
  {
    ReadyKeepsTaken(logs, m);
    var ready := Ready(logs, m);
    var k := Earliest(ready.nextEntries, |ready.nextEntries|);
    if k >= 0 {
      AdvancingTakesOne(logs, ready, k);
    } else {
      forall i | 0 <= i < |logs|
        ensures Taken(ready.(nextEntries := []), i) == Taken(ready, i)
      {
        StoppingKeepsTaken(ready, i);
      }
    }
  }

  /** A call that has to fetch again finds nothing exactly when everything in every log has been delivered. */
  lemma DoneExactly(logs: Logs, m: Merge)
    requires Fits(logs, m) && m.nextEntries == []
    ensures Called(logs, m).0.Done? <==> forall i :: 0 <= i < |logs| ==> Taken(m, i) == |logs[i]|
  {
    var ready := Ready(logs, m);
    var k := Earliest(ready.nextEntries, |ready.nextEntries|);
    forall i | 0 <= i < |logs|
      ensures ready.nextEntries[i].None? <==> Taken(m, i) == |logs[i]|
    {
    }
    if forall i :: 0 <= i < |logs| ==> Taken(m, i) == |logs[i]| {
      assert forall i :: 0 <= i < |logs| ==> ready.nextEntries[i].None?;
    }
  }

  // ----- whole runs: calls, appends and new logs in any order

  datatype Event = Call | Append(log: nat, entry: Entry) | AddLog

  /** `out` lists what has been delivered, with the log it came from. */
  datatype World = World(logs: Logs, merge: Merge, out: seq<(nat, Entry)>)

  predicate Possible(w: World, event: Event) {
    event.Append? ==> event.log < |w.logs|
  }

  function Happened(w: World, event: Event): World
    requires Fits(w.logs, w.merge) && Possible(w, event)
  {
    match event
    case Append(i, entry) => w.(logs := w.logs[i := w.logs[i] + [entry]])
    case AddLog => w.(logs := w.logs + [[]])
    case Call =>
      var (result, merge) := Called(w.logs, w.merge);
      World(w.logs, merge, if result.Done? then w.out else w.out + [(result.log, result.entry)])
  }

  /** What came out of one log. */
  function From(out: seq<(nat, Entry)>, i: nat): seq<Entry> {
    if out == [] then []
    else From(out[..|out| - 1], i) + if out[|out| - 1].0 == i then [out[|out| - 1].1] else []
  }

  /** Of each log exactly the delivered part has come out, in the log's own order. */
  ghost predicate ExactlyOnce(w: World) {
    && Fits(w.logs, w.merge)
    && (forall i :: 0 <= i < |w.logs| ==> 0 <= Taken(w.merge, i) <= |w.logs[i]| && From(w.out, i) == w.logs[i][..Taken(w.merge, i)])
    && (forall k :: 0 <= k < |w.out| ==> w.out[k].0 < |w.logs|)
  }

  lemma {:induction false} NothingFrom(out: seq<(nat, Entry)>, i: nat)
    requires forall k :: 0 <= k < |out| ==> out[k].0 != i
    ensures From(out, i) == []
    decreases |out|
  {
    if out == [] {
    } else {
      NothingFrom(out[..|out| - 1], i);
    }
  }

  lemma FromGrows(out: seq<(nat, Entry)>, log: nat, entry: Entry, i: nat)
    ensures From(out + [(log, entry)], i) == From(out, i) + if log == i then [entry] else []
  {
    assert (out + [(log, entry)])[..|out|] == out;
  }

  lemma TakeOneMore(log: seq<Entry>, n: nat)
    requires n < |log|
    ensures log[..n + 1] == log[..n] + [log[n]]
  {
  }

  lemma CallKeepsExactlyOnce(w: World)
    requires ExactlyOnce(w)
    ensures ExactlyOnce(Happened(w, Call))
  {
    var (result, merge) := Called(w.logs, w.merge);
    CallDelivers(w.logs, w.merge);
    if result.Deliver? {
      var out := w.out + [(result.log, result.entry)];
      forall i | 0 <= i < |w.logs|
        ensures 0 <= Taken(merge, i) <= |w.logs[i]| && From(out, i) == w.logs[i][..Taken(merge, i)]
      {
        FromGrows(w.out, result.log, result.entry, i);
        if i == result.log {
          TakeOneMore(w.logs[i], Taken(w.merge, i));
        }
      }
      assert ExactlyOnce(World(w.logs, merge, out));
    }
  }

  lemma PrefixKept(log: seq<Entry>, grown: seq<Entry>, taken: nat)
    requires taken <= |log| <= |grown| && grown[..|log|] == log
    ensures grown[..taken] == log[..taken]
  {
    assert grown[..taken] == grown[..|log|][..taken];
  }

  lemma GrowthKeepsExactlyOnce(w: World, event: Event)
    requires ExactlyOnce(w) && Possible(w, event) && !event.Call?
    ensures ExactlyOnce(Happened(w, event))
  {
    var w' := Happened(w, event);
    if event.AddLog? {
      NothingFrom(w.out, |w.logs|);
    } else {
      forall i | 0 <= i < |w.logs|
        ensures From(w'.out, i) == w'.logs[i][..Taken(w'.merge, i)]
      {
        PrefixKept(w.logs[i], w'.logs[i], Taken(w.merge, i));
      }
    }
  }

  ghost predicate CanRun(w: World, events: seq<Event>)
    decreases |events|
  {
    events == [] || (Fits(w.logs, w.merge) && Possible(w, events[0]) && CanRun(Happened(w, events[0]), events[1..]))
  }

  function Ran(w: World, events: seq<Event>): World
    requires CanRun(w, events)
    decreases |events|
  {
    if events == [] then w else Ran(Happened(w, events[0]), events[1..])
  }

  /** Over any run each entry is delivered exactly once and in the order of its own log, also across resumptions. */
  lemma {:induction false} DeliversExactlyOnce(w: World, events: seq<Event>)
    requires ExactlyOnce(w) && CanRun(w, events)
    ensures ExactlyOnce(Ran(w, events))
    decreases |events|
  {
    if events == [] {
    } else {
      if events[0].Call? {
        CallKeepsExactlyOnce(w);
      } else {
        GrowthKeepsExactlyOnce(w, events[0]);
      }
      DeliversExactlyOnce(Happened(w, events[0]), events[1..]);
    }
  }

  /** The iterator starts with the entries of the logs that exist when it is made. */
  lemma StartsExactly(logs: Logs)
    ensures ExactlyOnce(World(logs, Refilled(logs, FRESH), []))
  {
  }

  // ----- enough calls deliver everything

  /** How many entries of the first `n` logs are still to be delivered. */
  function Left(logs: Logs, m: Merge, n: nat): int
    requires n <= |logs|
  {
    if n == 0 then 0 else Left(logs, m, n - 1) + |logs[n - 1]| - Taken(m, n - 1)
  }

  lemma {:induction false} NoneLeft(logs: Logs, m: Merge, n: nat)
    requires Fits(logs, m) && n <= |logs|
    ensures Left(logs, m, n) >= 0
    ensures Left(logs, m, n) == 0 <==> forall i :: 0 <= i < n ==> Taken(m, i) == |logs[i]|
  {
    if n == 0 {
    } else {
      NoneLeft(logs, m, n - 1);
      assert Taken(m, n - 1) <= |logs[n - 1]|;
    }
  }

  lemma {:induction false} OneFewerLeft(logs: Logs, m: Merge, m': Merge, k: nat, n: nat)
    requires n <= |logs| && k < |logs| && Taken(m', k) == Taken(m, k) + 1
    requires forall i :: 0 <= i < |logs| && i != k ==> Taken(m', i) == Taken(m, i)
    ensures Left(logs, m', n) == Left(logs, m, n) - if k < n then 1 else 0
  {
    if n == 0 {
    } else {
      OneFewerLeft(logs, m, m', k, n - 1);
    }
  }

  lemma {:induction false} AsManyLeft(logs: Logs, m: Merge, m': Merge, n: nat)
    requires n <= |logs| && forall i :: 0 <= i < |logs| ==> Taken(m', i) == Taken(m, i)
    ensures Left(logs, m', n) == Left(logs, m, n)
  {
    if n == 0 {
    } else {
      AsManyLeft(logs, m, m', n - 1);
    }
  }

  /** A log without a next entry has none left. */
  predicate UpToDate(logs: Logs, m: Merge) {
    |m.nextEntries| == |logs| == |m.positions| &&
    forall i :: 0 <= i < |logs| && m.nextEntries[i].None? ==> m.positions[i] == |logs[i]|
  }

  predicate Current(logs: Logs, m: Merge) {
    m.nextEntries == [] || UpToDate(logs, m)
  }

  lemma FetchingIsUpToDate(logs: Logs, m: Merge)
    requires Fits(logs, m) && Current(logs, m)
    ensures UpToDate(logs, Ready(logs, m))
  {
  }

  /** With what the logs hold taken into account a call ends exactly when nothing is left, and goes on taking it into account. */
  lemma CurrentCall(logs: Logs, m: Merge)
    requires Fits(logs, m) && Current(logs, m)
    ensures var (result, m') := Called(logs, m);
            && Current(logs, m')
            && (result.Deliver? ==> UpToDate(logs, m'))
            && (result.Done? <==> forall i :: 0 <= i < |logs| ==> Taken(m, i) == |logs[i]|)
  {
    FetchingIsUpToDate(logs, m);
    ReadyKeepsTaken(logs, m);
    var ready := Ready(logs, m);
    var k := Earliest(ready.nextEntries, |ready.nextEntries|);
    if k >= 0 {
      assert Taken(ready, k) < |logs[k]|;
    } else {
      forall i | 0 <= i < |logs|
        ensures Taken(m, i) == |logs[i]|
      {
        assert ready.nextEntries[i].None? && Taken(m, i) == Taken(ready, i);
      }
    }
  }

  /** Calls that are needed: one for each entry left, and one to look at the logs again. */
  function Needed(w: World): int {
    Left(w.logs, w.merge, |w.logs|) + if Current(w.logs, w.merge) then 0 else 1
  }

  lemma CallIsUseful(w: World)
    requires Fits(w.logs, w.merge)
    ensures var w' := Happened(w, Call);
            Fits(w'.logs, w'.merge) && w'.logs == w.logs && 0 <= Needed(w') <= if Needed(w) > 0 then Needed(w) - 1 else 0
  {
    var (result, merge) := Called(w.logs, w.merge);
    CallDelivers(w.logs, w.merge);
    NoneLeft(w.logs, w.merge, |w.logs|);
    NoneLeft(w.logs, merge, |w.logs|);
    if Current(w.logs, w.merge) {
      CurrentCall(w.logs, w.merge);
    }
    if result.Deliver? {
      OneFewerLeft(w.logs, w.merge, merge, result.log, |w.logs|);
    } else {
      AsManyLeft(w.logs, w.merge, merge, |w.logs|);
    }
  }

  /** Everything has come out, or would within so many calls. */
  ghost predicate Within(logs: Logs, calls: nat, w: World) {
    ExactlyOnce(w) && w.logs == logs && Needed(w) <= calls
  }

  lemma OneCallFewer(logs: Logs, calls: nat, w: World, call: Event)
    requires Within(logs, calls, w) && call.Call?
    ensures Within(logs, if calls == 0 then 0 else calls - 1, Happened(w, call))
  {
    CallKeepsExactlyOnce(w);
    CallIsUseful(w);
  }

  lemma NothingToCome(w: World)
    requires ExactlyOnce(w) && Needed(w) <= 0
    ensures forall i :: 0 <= i < |w.logs| ==> From(w.out, i) == w.logs[i]
  {
    NoneLeft(w.logs, w.merge, |w.logs|);
    forall i | 0 <= i < |w.logs|
      ensures From(w.out, i) == w.logs[i]
    {
      assert w.logs[i][..|w.logs[i]|] == w.logs[i];
    }
  }

  lemma {:induction false} CallsLeaveNone(logs: Logs, needed: nat, w: World, calls: seq<Event>)
    requires Within(logs, needed, w) && needed <= |calls| && (forall k :: 0 <= k < |calls| ==> calls[k].Call?)
    ensures CanRun(w, calls) && Within(logs, 0, Ran(w, calls))
    decreases |calls|
  {
    if calls == [] {
    } else {
      OneCallFewer(logs, needed, w, calls[0]);
      CallsLeaveNone(logs, if needed == 0 then 0 else needed - 1, Happened(w, calls[0]), calls[1..]);
    }
  }

  /**
   Which entry a call delivers, told from the logs: of the first undelivered entries of all logs the one with the least
   timestamp, and on a tie that of the log that was added first.
   */
  lemma FirstLogOnTie(logs: Logs, m: Merge, j: nat)
    requires Fits(logs, m) && Current(logs, m) && j < |logs| && Taken(m, j) < |logs[j]|
    ensures var (result, m') := Called(logs, m);
            && result.Deliver? && result.entry == logs[result.log][Taken(m, result.log)]
            && (if j < result.log then result.entry.timestamp < logs[j][Taken(m, j)].timestamp
                else result.entry.timestamp <= logs[j][Taken(m, j)].timestamp)
  {
    FetchingIsUpToDate(logs, m);
    ReadyKeepsTaken(logs, m);
    var ready := Ready(logs, m);
    assert Taken(ready, j) == Taken(m, j);
    assert ready.nextEntries[j].Some?;
    CallDelivers(logs, m);
  }

  /**
   From when the iterator is made, through any run, and then through one call more than there are undelivered
   entries: everything in every log has come out, once and in its log's order.
   */
  lemma DeliversEverything(logs: Logs, events: seq<Event>, calls: seq<Event>)
    requires CanRun(World(logs, Refilled(logs, FRESH), []), events)
    requires var w := Ran(World(logs, Refilled(logs, FRESH), []), events); |calls| > Left(w.logs, w.merge, |w.logs|)
    requires forall k :: 0 <= k < |calls| ==> calls[k].Call?
    ensures var w := Ran(World(logs, Refilled(logs, FRESH), []), events);
            CanRun(w, calls) && forall i :: 0 <= i < |w.logs| ==> From(Ran(w, calls).out, i) == w.logs[i]
  {
    StartsExactly(logs);
    DeliversExactlyOnce(World(logs, Refilled(logs, FRESH), []), events);
    var w := Ran(World(logs, Refilled(logs, FRESH), []), events);
    CallsLeaveNone(w.logs, |calls|, w, calls);
    NothingToCome(Ran(w, calls));
  }

  // ----- between appends: a sorted interleaving

  predicate SortedLogs(logs: Logs) {
    forall i :: 0 <= i < |logs| ==> forall j, k :: 0 <= j < k < |logs[i]| ==> logs[i][j].timestamp <= logs[i][k].timestamp
  }

  /** Nothing that is still to come is earlier than `t`. */
  predicate NoneBefore(logs: Logs, m: Merge, t: int) {
    forall i, j :: 0 <= i < |logs| && 0 <= j < |logs[i]| && Taken(m, i) <= j ==> t <= logs[i][j].timestamp
  }

  /** A call that takes account of what sorted logs hold delivers an entry that no undelivered one precedes. */
  lemma CallIsEarliest(logs: Logs, m: Merge)
    requires SortedLogs(logs) && Fits(logs, m) && Current(logs, m)
    ensures var (result, m') := Called(logs, m);
            result.Deliver? ==> NoneBefore(logs, m', result.entry.timestamp)
  {
    var (result, m') := Called(logs, m);
    CallDelivers(logs, m);
    FetchingIsUpToDate(logs, m);
    ReadyKeepsTaken(logs, m);
    var ready := Ready(logs, m);
    if result.Deliver? {
      forall i, j | 0 <= i < |logs| && 0 <= j < |logs[i]| && Taken(m', i) <= j
        ensures result.entry.timestamp <= logs[i][j].timestamp
      {
        assert Taken(ready, i) <= j;
        assert ready.nextEntries[i].Some?;
        assert ready.nextEntries[i].value == logs[i][Taken(ready, i)];
        assert logs[i][Taken(ready, i)].timestamp <= logs[i][j].timestamp;
      }
    }
  }

  /** The timestamps of what the next calls deliver, up to done. */
  function Drained(logs: Logs, m: Merge, calls: nat): seq<int>
    requires Fits(logs, m)
    decreases calls
  {
    if calls == 0 then []
    else
      var (result, m') := Called(logs, m);
      if result.Done? then []
      else
        CallDelivers(logs, m);
        [result.entry.timestamp] + Drained(logs, m', calls - 1)
  }

  predicate Ascending(out: seq<int>) {
    forall i, j :: 0 <= i < j < |out| ==> out[i] <= out[j]
  }

  predicate SortedFrom(t: int, out: seq<int>) {
    && (forall i :: 0 <= i < |out| ==> t <= out[i])
    && Ascending(out)
  }

  lemma SortedCons(t: int, first: int, rest: seq<int>)
    requires t <= first && SortedFrom(first, rest)
    ensures SortedFrom(t, [first] + rest)
  {
  }

  predicate NoneFetchedBefore(m: Merge, t: int) {
    forall i :: 0 <= i < |m.nextEntries| && m.nextEntries[i].Some? ==> t <= m.nextEntries[i].value.timestamp
  }

  lemma DeliversFetched(logs: Logs, m: Merge, t: int)
    requires SortedLogs(logs) && Fits(logs, m) && NoneFetchedBefore(Ready(logs, m), t)
    ensures var (result, m') := Called(logs, m);
            result.Deliver? ==>
              t <= result.entry.timestamp && m'.nextEntries != [] && NoneFetchedBefore(m', result.entry.timestamp)
  {
    ReadyKeepsTaken(logs, m);
    var ready := Ready(logs, m);
    var k := Earliest(ready.nextEntries, |ready.nextEntries|);
    if k >= 0 {
      var next := Fetched(logs[k], ready.positions[k]);
      assert next.Some? ==> ready.nextEntries[k].value.timestamp <= next.value.timestamp;
    }
  }

  lemma {:induction false} DrainedFrom(logs: Logs, m: Merge, t: int, calls: nat)
    requires SortedLogs(logs) && Fits(logs, m) && NoneFetchedBefore(Ready(logs, m), t)
    ensures SortedFrom(t, Drained(logs, m, calls))
    decreases calls
  {
    if calls == 0 {
    } else {
      var (result, m') := Called(logs, m);
      DeliversFetched(logs, m, t);
      if result.Done? {
      } else {
        CallDelivers(logs, m);
        DrainedFrom(logs, m', result.entry.timestamp, calls - 1);
        SortedCons(t, result.entry.timestamp, Drained(logs, m', calls - 1));
      }
    }
  }

  function Lowest(next: seq<Option<Entry>>): (t: int)
    ensures forall i :: 0 <= i < |next| && next[i].Some? ==> t <= next[i].value.timestamp
  {
    if next == [] then 0
    else
      var t := Lowest(next[..|next| - 1]);
      if next[|next| - 1].Some? && next[|next| - 1].value.timestamp < t then next[|next| - 1].value.timestamp else t
  }

  /** Between appends, from any state, resumed or not, the merged stream up to done is sorted by timestamp. */
  lemma MergedIsSorted(logs: Logs, m: Merge, calls: nat)
    requires SortedLogs(logs) && Fits(logs, m)
    ensures Ascending(Drained(logs, m, calls))
  {
    DrainedFrom(logs, m, Lowest(Ready(logs, m).nextEntries), calls);
  }
}
