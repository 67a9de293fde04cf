/**
 Many transactions committing at once, step by step: any interleaving is equivalent to running the
 committed transactions one at a time, in the order in which they were settled.
 */
module CommitInterleavings {
  import opened Wrappers
  import opened OptimisticCommit

  /**
   Where a commit stands: before an attempt, loading entry number `next`, waiting for its batch, waiting for
   exclusive access, or through.
   */
  datatype Phase =
    | Ready
    | Loading(next: nat)
    | Submitted(conditions: seq<(Key, Option<int>)>, results: seq<Option<Entry>>)
    | Queued
    | Done

  datatype Attempt = Attempt(entries: seq<Option<Entry>>, retries: nat, phase: Phase)

  /** `log` lists the transactions that are through, in the order they were settled. */
  datatype System = System(store: Store, attempts: seq<Attempt>, risk: real, log: seq<nat>)

  datatype Action = Start(i: nat) | Proceed(i: nat) | Settle(i: nat) | Exclude(i: nat)

  function With(s: System, i: nat, attempt: Attempt): System
    requires i < |s.attempts|
  {
    s.(attempts := s.attempts[i := attempt])
  }

  function Finished(s: System, i: nat, store: Store): System
    requires i < |s.attempts|
  {
    With(s, i, s.attempts[i].(phase := Done)).(store := store, log := s.log + [i])
  }

  /** The beginning of an attempt: optimistic, or queued for an exclusive transaction. */
  function Started(txns: seq<Txn>, s: System, i: nat): System
    requires i < |s.attempts| == |txns|
  {
    var risk := s.risk * 0.99;
    if Optimistic(|txns[i].writes|, risk, s.attempts[i].retries) then
      With(s, i, s.attempts[i].(phase := Loading(0))).(risk := risk)
    else
      With(s, i, s.attempts[i].(phase := Queued)).(risk := risk)
  }

  /** The exclusive transaction, once it has its turn, on the entries of that moment. */
  function Excluded(txns: seq<Txn>, s: System, i: nat): System
    requires i < |s.attempts| == |txns|
  {
    Finished(s, i, Serial(s.store, txns[i].time, txns[i].writes))
  }

  /** Loading one more entry, or handing in the batch when all are loaded. */
  function Proceeded(txns: seq<Txn>, s: System, i: nat): System
    requires i < |s.attempts| == |txns| && s.attempts[i].phase.Loading?
    requires |s.attempts[i].entries| == |txns[i].writes|
  {
    var a := s.attempts[i];
    var next := a.phase.next;
    if next < |txns[i].writes| then
      With(s, i, a.(entries := a.entries[next := Reloaded(s.store, txns[i].writes[next], a.entries[next], a.retries)], phase := Loading(next + 1)))
    else
      With(s, i, a.(phase := Submitted(Conditions(txns[i].writes, a.entries), Results(txns[i].time, txns[i].writes, a.entries))))
  }

  /** The batch is written if its conditions hold; otherwise nothing is written and there will be a retry. */
  function Settled(txns: seq<Txn>, s: System, i: nat): System
    requires i < |s.attempts| == |txns| && s.attempts[i].phase.Submitted?
    requires |s.attempts[i].phase.results| == |txns[i].writes|
  {
    var a := s.attempts[i];
    if Hold(a.phase.conditions, s.store) then Finished(s, i, Written(s.store, txns[i].writes, a.phase.results))
    else With(s, i, a.(retries := a.retries + 1, phase := Ready)).(risk := s.risk + 50.0)
  }

  predicate Enabled(txns: seq<Txn>, s: System, action: Action) {
    && |s.attempts| == |txns| && action.i < |txns|
    && var a := s.attempts[action.i];
       match action
       case Start(_) => a.phase.Ready?
       case Proceed(_) => a.phase.Loading? && |a.entries| == |txns[action.i].writes|
       case Settle(_) => a.phase.Submitted? && |a.phase.results| == |txns[action.i].writes|
       case Exclude(_) => a.phase.Queued?
  }

  function Step(txns: seq<Txn>, s: System, action: Action): System
    requires Enabled(txns, s, action)
  {
    match action
    case Start(i) => Started(txns, s, i)
    case Proceed(i) => Proceeded(txns, s, i)
    case Settle(i) => Settled(txns, s, i)
    case Exclude(i) => Excluded(txns, s, i)
  }

  /** The risk decays by a hundredth with each attempt that starts, and grows by 50 with each that fails. */
  lemma RiskTells(txns: seq<Txn>, s: System, action: Action)
    requires Enabled(txns, s, action)
    ensures var risk := Step(txns, s, action).risk;
            match action
            case Start(_) => risk == s.risk * 0.99
            case Settle(i) => risk == if Hold(s.attempts[i].phase.conditions, s.store) then s.risk else s.risk + 50.0
            case _ => risk == s.risk
  {
  }

  /** After an attempt that has failed, with nothing in between, the transaction asks for exclusive access. */
  lemma FailureQueues(txns: seq<Txn>, s: System, i: nat)
    requires Enabled(txns, s, Settle(i)) && txns[i].writes != [] && s.risk >= 0.0
    requires !Hold(s.attempts[i].phase.conditions, s.store)
    ensures var failed := Step(txns, s, Settle(i));
            && failed.store == s.store && failed.log == s.log && Enabled(txns, failed, Start(i))
            && Step(txns, failed, Start(i)).attempts[i].phase == Queued
  {
    FailureRaisesRisk(|txns[i].writes|, s.risk, s.attempts[i].retries);
  }

  // ----- what the transactions must be like

  /** A commit callback keeps the entry, removes it, or writes one whose version is the transaction time. */
  ghost predicate StampsItsTime(w: Write) {
    forall entry, time :: var r := w.commit(entry, time); r == entry || r.None? || r.value.version == time
  }

  ghost predicate Proper(txn: Txn) {
    && txn.writes != [] && TruthyKeys(txn.writes) && DistinctKeys(txn.writes)
    && forall i :: 0 <= i < |txn.writes| ==> StampsItsTime(txn.writes[i])
  }

  ghost predicate AllProper(txns: seq<Txn>) {
    && (forall i :: 0 <= i < |txns| ==> Proper(txns[i]))
    && (forall i, j :: 0 <= i < j < |txns| ==> txns[i].time != txns[j].time)
  }

  // ----- the serial run

  function SerialRun(txns: seq<Txn>, start: Store, log: seq<nat>): Store
    requires forall k :: 0 <= k < |log| ==> log[k] < |txns|
  {
    if log == [] then start
    else
      var last := txns[log[|log| - 1]];
      Serial(SerialRun(txns, start, log[..|log| - 1]), last.time, last.writes)
  }

  // ----- the invariant

  /** Every entry that has ever been stored, by key and version: what makes versions identify entries. */
  type Issued = map<(Key, int), string>

  predicate Recorded(issued: Issued, key: Key, entry: Option<Entry>) {
    entry.Some? ==> (key, entry.value.version) in issued && issued[(key, entry.value.version)] == entry.value.value
  }

  ghost predicate StoreRecorded(issued: Issued, store: Store) {
    forall key :: key in store ==> Recorded(issued, key, Some(store[key]))
  }

  ghost predicate EntriesRecorded(issued: Issued, writes: seq<Write>, entries: seq<Option<Entry>>) {
    |entries| == |writes| && forall j :: 0 <= j < |writes| ==> Recorded(issued, writes[j].key, entries[j])
  }

  predicate AttemptFits(txn: Txn, a: Attempt) {
    && |a.entries| == |txn.writes| && a.retries <= 6
    && (a.phase.Loading? || a.phase.Submitted? ==> a.retries < 6)
    && (a.phase.Submitted? ==>
          (a.phase.conditions == Conditions(txn.writes, a.entries) && a.phase.results == Results(txn.time, txn.writes, a.entries)))
  }

  /** The log lists each transaction that is through exactly once. */
  ghost predicate LogFits(s: System) {
    && (forall k :: 0 <= k < |s.log| ==> s.log[k] < |s.attempts| && s.attempts[s.log[k]].phase.Done?)
    && (forall j, k :: 0 <= j < k < |s.log| ==> s.log[j] != s.log[k])
    && (forall i :: 0 <= i < |s.attempts| && s.attempts[i].phase.Done? ==> i in s.log)
  }

  /** A timestamp appears as a version only when its transaction is through. */
  ghost predicate TimesUnused(txns: seq<Txn>, s: System, issued: Issued)
    requires |s.attempts| == |txns|
  {
    forall i, key :: 0 <= i < |txns| && (key, txns[i].time) in issued ==> s.attempts[i].phase.Done?
  }

  ghost predicate Inv(txns: seq<Txn>, start: Store, s: System, issued: Issued) {
    && |s.attempts| == |txns| && s.risk >= 0.0
    && (forall i :: 0 <= i < |txns| ==> AttemptFits(txns[i], s.attempts[i]))
    && (forall i :: 0 <= i < |txns| ==> EntriesRecorded(issued, txns[i].writes, s.attempts[i].entries))
    && StoreRecorded(issued, s.store) && TimesUnused(txns, s, issued)
    && LogFits(s) && s.store == SerialRun(txns, start, s.log)
  }

  /** The entries after a serial run are old ones or carry its time. */
  lemma {:induction false} SerialEntries(store: Store, time: int, writes: seq<Write>, key: Key)
    requires forall i :: 0 <= i < |writes| ==> StampsItsTime(writes[i])
    ensures var after := Lookup(Serial(store, time, writes), key);
            after == Lookup(store, key) || after.None? || after.value.version == time
    decreases |writes|
  {
    if writes == [] {
    } else {
      assert StampsItsTime(writes[0]);
      var next := Put(store, writes[0].key, writes[0].commit(Lookup(store, writes[0].key), time));
      SerialEntries(next, time, writes[1..], key);
    }
  }

  function Issue(issued: Issued, store: Store, time: int): Issued {
    issued + map p | p in (set key | key in store && store[key].version == time :: (key, time)) && p.0 in store :: store[p.0].value
  }

  lemma IssueRecords(issued: Issued, before: Store, store: Store, time: int)
    requires StoreRecorded(issued, before) && forall key :: (key, time) !in issued
    requires forall key :: key in store ==> Lookup(store, key) == Lookup(before, key) || store[key].version == time
    ensures StoreRecorded(Issue(issued, store, time), store)
    ensures forall key, entry :: Recorded(issued, key, entry) ==> Recorded(Issue(issued, store, time), key, entry)
    ensures forall p :: p in Issue(issued, store, time) ==> p in issued || p.1 == time
  {
    forall key | key in store
      ensures Recorded(Issue(issued, store, time), key, Some(store[key]))
    {
      if store[key].version != time {
        assert before[key] == store[key];
        assert Recorded(issued, key, Some(before[key]));
      }
    }
  }

  lemma AttemptsStayRecorded(txns: seq<Txn>, s: System, s': System, issued: Issued, issued': Issued, i: nat)
    requires |s.attempts| == |txns| && i < |txns| && s'.attempts == s.attempts[i := s.attempts[i].(phase := Done)]
    requires forall j :: 0 <= j < |txns| ==> AttemptFits(txns[j], s.attempts[j])
    requires forall j :: 0 <= j < |txns| ==> EntriesRecorded(issued, txns[j].writes, s.attempts[j].entries)
    requires forall key, entry :: Recorded(issued, key, entry) ==> Recorded(issued', key, entry)
    ensures forall j :: 0 <= j < |txns| ==> AttemptFits(txns[j], s'.attempts[j])
    ensures forall j :: 0 <= j < |txns| ==> EntriesRecorded(issued', txns[j].writes, s'.attempts[j].entries)
  {
    forall j | 0 <= j < |txns|
      ensures AttemptFits(txns[j], s'.attempts[j]) && EntriesRecorded(issued', txns[j].writes, s'.attempts[j].entries)
    {
      assert AttemptFits(txns[j], s.attempts[j]) && EntriesRecorded(issued, txns[j].writes, s.attempts[j].entries);
      assert s'.attempts[j].entries == s.attempts[j].entries;
    }
  }

  lemma TimesStayUnused(txns: seq<Txn>, s: System, s': System, issued: Issued, issued': Issued, i: nat)
    requires AllProper(txns) && |s.attempts| == |txns| && i < |txns| && TimesUnused(txns, s, issued)
    requires s'.attempts == s.attempts[i := s.attempts[i].(phase := Done)]
    requires forall p :: p in issued' ==> p in issued || p.1 == txns[i].time
    ensures TimesUnused(txns, s', issued')
  {
    forall j, key | 0 <= j < |txns| && (key, txns[j].time) in issued'
      ensures s'.attempts[j].phase.Done?
    {
      if (key, txns[j].time) !in issued {
        assert (key, txns[j].time).1 == txns[i].time;
        assert j == i;
      }
    }
  }

  lemma LogGrows(s: System, s': System, i: nat)
    requires LogFits(s) && i < |s.attempts| && !s.attempts[i].phase.Done?
    requires s'.log == s.log + [i] && s'.attempts == s.attempts[i := s.attempts[i].(phase := Done)]
    ensures LogFits(s')
  {
    forall j | 0 <= j < |s'.attempts| && s'.attempts[j].phase.Done?
      ensures j in s'.log
    {
      if j == i {
        assert s'.log[|s.log|] == i;
      } else {
        assert s.attempts[j].phase.Done?;
      }
    }
    assert i !in s.log;
  }

  /** A transaction that goes through, in either way, has run serially on the current store. */
  lemma FinishKeeps(txns: seq<Txn>, start: Store, s: System, issued: Issued, i: nat) returns (issued': Issued)
    requires AllProper(txns) && Inv(txns, start, s, issued) && i < |txns| && !s.attempts[i].phase.Done?
    ensures Inv(txns, start, Excluded(txns, s, i), issued')
  {
    var txn := txns[i];
    assert Proper(txn);
    var store' := Serial(s.store, txn.time, txn.writes);
    var s' := Finished(s, i, store');
    issued' := Issue(issued, store', txn.time);
    forall key | key in store'
      ensures Lookup(store', key) == Lookup(s.store, key) || store'[key].version == txn.time
    {
      SerialEntries(s.store, txn.time, txn.writes, key);
    }
    IssueRecords(issued, s.store, store', txn.time);
    LogGrows(s, s', i);
    assert s'.log[..|s'.log| - 1] == s.log;
    AttemptsStayRecorded(txns, s, s', issued, issued', i);
    TimesStayUnused(txns, s, s', issued, issued', i);
  }

  /** A step that finishes nothing leaves the store, the log and the record of versions alone. */
  lemma ChangeKeeps(txns: seq<Txn>, start: Store, s: System, issued: Issued, i: nat, a: Attempt, risk: real)
    requires Inv(txns, start, s, issued) && i < |txns| && risk >= 0.0
    requires !s.attempts[i].phase.Done? && !a.phase.Done?
    requires AttemptFits(txns[i], a) && EntriesRecorded(issued, txns[i].writes, a.entries)
    ensures Inv(txns, start, With(s, i, a).(risk := risk), issued)
  {
    var s' := With(s, i, a).(risk := risk);
    assert i !in s.log;
    assert forall j :: 0 <= j < |txns| && s'.attempts[j].phase.Done? ==> s.attempts[j].phase.Done?;
    assert forall j :: 0 <= j < |txns| && s.attempts[j].phase.Done? ==> s'.attempts[j] == s.attempts[j];
  }

  lemma StartFits(txn: Txn, a: Attempt, risk: real)
    requires Proper(txn) && AttemptFits(txn, a) && risk >= 0.0 && Optimistic(|txn.writes|, risk, a.retries)
    ensures AttemptFits(txn, a.(phase := Loading(0)))
  {
    AtMostSixOptimistic(|txn.writes|, risk, a.retries);
  }

  lemma StartKeeps(txns: seq<Txn>, start: Store, s: System, issued: Issued, i: nat)
    requires AllProper(txns) && Inv(txns, start, s, issued) && Enabled(txns, s, Start(i))
    ensures Inv(txns, start, Started(txns, s, i), issued)
  {
    var a, risk := s.attempts[i], s.risk * 0.99;
    assert risk >= 0.0;
    assert AttemptFits(txns[i], a) && EntriesRecorded(issued, txns[i].writes, a.entries) && Proper(txns[i]);
    if Optimistic(|txns[i].writes|, risk, a.retries) {
      StartFits(txns[i], a, risk);
      ChangeKeeps(txns, start, s, issued, i, a.(phase := Loading(0)), risk);
    } else {
      ChangeKeeps(txns, start, s, issued, i, a.(phase := Queued), risk);
    }
  }

  lemma LoadKeeps(txns: seq<Txn>, start: Store, s: System, issued: Issued, i: nat)
    requires AllProper(txns) && Inv(txns, start, s, issued) && Enabled(txns, s, Proceed(i))
    requires s.attempts[i].phase.next < |txns[i].writes|
    ensures Inv(txns, start, Proceeded(txns, s, i), issued)
  {
    var a := s.attempts[i];
    var next := a.phase.next;
    assert AttemptFits(txns[i], a) && EntriesRecorded(issued, txns[i].writes, a.entries);
    var key := txns[i].writes[next].key;
    assert Recorded(issued, key, Lookup(s.store, key));
    var entry := Reloaded(s.store, txns[i].writes[next], a.entries[next], a.retries);
    ChangeKeeps(txns, start, s, issued, i, a.(entries := a.entries[next := entry], phase := Loading(next + 1)), s.risk);
  }

  lemma ProceedKeeps(txns: seq<Txn>, start: Store, s: System, issued: Issued, i: nat)
    requires AllProper(txns) && Inv(txns, start, s, issued) && Enabled(txns, s, Proceed(i))
    ensures Inv(txns, start, Proceeded(txns, s, i), issued)
  {
    var a := s.attempts[i];
    assert AttemptFits(txns[i], a) && EntriesRecorded(issued, txns[i].writes, a.entries);
    if a.phase.next < |txns[i].writes| {
      LoadKeeps(txns, start, s, issued, i);
    } else {
      ChangeKeeps(txns, start, s, issued, i,
                  a.(phase := Submitted(Conditions(txns[i].writes, a.entries), Results(txns[i].time, txns[i].writes, a.entries))), s.risk);
    }
  }

  lemma RecordedIdentified(issued: Issued, store: Store, writes: seq<Write>, entries: seq<Option<Entry>>)
    requires StoreRecorded(issued, store) && EntriesRecorded(issued, writes, entries)
    ensures Identified(store, writes, entries)
  {
    forall j | 0 <= j < |writes|
      ensures Recorded(issued, writes[j].key, Lookup(store, writes[j].key)) && Recorded(issued, writes[j].key, entries[j])
    {
    }
  }

  lemma SettleKeeps(txns: seq<Txn>, start: Store, s: System, issued: Issued, i: nat) returns (issued': Issued)
    requires AllProper(txns) && Inv(txns, start, s, issued) && Enabled(txns, s, Settle(i))
    ensures Inv(txns, start, Settled(txns, s, i), issued')
  {
    var a := s.attempts[i];
    assert AttemptFits(txns[i], a) && EntriesRecorded(issued, txns[i].writes, a.entries) && Proper(txns[i]);
    if Hold(a.phase.conditions, s.store) {
      RecordedIdentified(issued, s.store, txns[i].writes, a.entries);
      BatchIsSerial(s.store, txns[i].time, txns[i].writes, a.entries);
      issued' := FinishKeeps(txns, start, s, issued, i);
    } else {
      ChangeKeeps(txns, start, s, issued, i, a.(retries := a.retries + 1, phase := Ready), s.risk + 50.0);
      issued' := issued;
    }
  }

  // ----- every reachable state

  /** Nothing has been settled; what the transactions have loaded so far are entries of the record `issued`. */
  ghost predicate Init(txns: seq<Txn>, s: System, issued: Issued) {
    && |s.attempts| == |txns| && s.risk >= 0.0 && s.log == []
    && StoreRecorded(issued, s.store) && (forall i, key :: 0 <= i < |txns| ==> (key, txns[i].time) !in issued)
    && forall i :: 0 <= i < |txns| ==>
         s.attempts[i].phase.Ready? && s.attempts[i].retries == 0 && EntriesRecorded(issued, txns[i].writes, s.attempts[i].entries)
  }

  predicate StepAt(txns: seq<Txn>, states: seq<System>, actions: seq<Action>, k: nat)
    requires k < |actions| && |states| == |actions| + 1
  {
    Enabled(txns, states[k], actions[k]) && states[k + 1] == Step(txns, states[k], actions[k])
  }

  /** `states` follows from its first state by enabled steps. */
  ghost predicate Interleaving(txns: seq<Txn>, states: seq<System>, actions: seq<Action>) {
    && |states| == |actions| + 1
    && forall k {:trigger StepAt(txns, states, actions, k)} :: 0 <= k < |actions| ==> StepAt(txns, states, actions, k)
  }

  lemma {:induction false} InvariantHolds(txns: seq<Txn>, states: seq<System>, actions: seq<Action>, issued: Issued, k: nat) returns (issued': Issued)
    requires AllProper(txns) && Interleaving(txns, states, actions) && Init(txns, states[0], issued) && k <= |actions|
    ensures Inv(txns, states[0].store, states[k], issued')
  {
    if k == 0 {
      issued' := issued;
    } else {
      var before := InvariantHolds(txns, states, actions, issued, k - 1);
      assert StepAt(txns, states, actions, k - 1);
      match actions[k - 1]
      case Start(i) => StartKeeps(txns, states[0].store, states[k - 1], before, i); issued' := before;
      case Proceed(i) => ProceedKeeps(txns, states[0].store, states[k - 1], before, i); issued' := before;
      case Settle(i) => issued' := SettleKeeps(txns, states[0].store, states[k - 1], before, i);
      case Exclude(i) => issued' := FinishKeeps(txns, states[0].store, states[k - 1], before, i);
    }
  }

  /**
   After any interleaving of optimistic and exclusive commits, the store is what the transactions that
   went through produce when run one at a time in the order of settling; each of them is in that order
   once, the others have left no trace, and none is ever in a seventh optimistic attempt.
   */
  lemma Serializable(txns: seq<Txn>, states: seq<System>, actions: seq<Action>, issued: Issued, k: nat)
    requires AllProper(txns) && Interleaving(txns, states, actions) && Init(txns, states[0], issued) && k <= |actions|
    ensures LogFits(states[k]) && |states[k].attempts| == |txns|
    ensures states[k].store == SerialRun(txns, states[0].store, states[k].log)
    ensures forall i :: 0 <= i < |txns| ==> states[k].attempts[i].retries <= 6
    ensures forall i :: 0 <= i < |txns| && (states[k].attempts[i].phase.Loading? || states[k].attempts[i].phase.Submitted?) ==>
              states[k].attempts[i].retries < 6
  {
    var after := InvariantHolds(txns, states, actions, issued, k);
    assert forall i :: 0 <= i < |txns| ==> AttemptFits(txns[i], states[k].attempts[i]);
  }
}
