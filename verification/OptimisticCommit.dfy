/**
 Optimistic transactions that retry, and fall back to an exclusive transaction (`commit` in
 resources/LMDBTransaction.ts). Conditional batches are atomic; entries of one key that carry the
 same version are the same entry, because each transaction writes its own timestamp as the version.
 */
module OptimisticCommit {
  import opened Wrappers

  /** A primary key. The empty name and the number zero are falsy. */
  datatype Key = Id(n: int) | Name(text: string)

  predicate Truthy(key: Key) {
    match key
    case Id(n) => n != 0
    case Name(text) => text != ""
  }

  datatype Entry = Entry(version: int, value: string)

  type Store = map<Key, Entry>

  /** A write and its `commit` callback: the new entry from the entry it is given and the transaction time. */
  datatype Write = Write(key: Key, commit: (Option<Entry>, int) -> Option<Entry>)

  datatype Txn = Txn(time: int, writes: seq<Write>)

  function Put(store: Store, key: Key, entry: Option<Entry>): Store {
    if entry.None? then store - {key} else store[key := entry.value]
  }

  /** Storing an entry, or removing it, is seen under its key and nowhere else. */
  lemma PutTells(store: Store, key: Key, entry: Option<Entry>, other: Key)
    ensures Lookup(Put(store, key, entry), other) == if other == key then entry else Lookup(store, other)
  {
  }

  /** The number 0 and the empty text are the keys that are falsy. */
  lemma FalsyKeys(key: Key)
    ensures !Truthy(key) <==> key == Id(0) || key == Name("")
  {
  }

  // ----- the simple specification: one transaction at a time

  function Serial(store: Store, time: int, writes: seq<Write>): Store
    decreases |writes|
  {
    if writes == [] then store
    else Serial(Put(store, writes[0].key, writes[0].commit(Lookup(store, writes[0].key), time)), time, writes[1..])
  }

  /** The serial run from first to last: each callback gets the entry that the writes before it have left, and the time. */
  lemma {:induction false} SerialTells(store: Store, time: int, writes: seq<Write>, w: Write)
    ensures Serial(store, time, []) == store
    ensures var before := Serial(store, time, writes);
            forall key :: Lookup(Serial(store, time, writes + [w]), key)
                       == if key == w.key then w.commit(Lookup(before, w.key), time) else Lookup(before, key)
    decreases |writes|
  {
    if writes == [] {
      assert writes + [w] == [w] && [w][1..] == [];
    } else {
      assert (writes + [w])[1..] == writes[1..] + [w];
      SerialTells(Put(store, writes[0].key, writes[0].commit(Lookup(store, writes[0].key), time)), time, writes[1..], w);
    }
  }

  // ----- an optimistic batch

  function Version(entry: Option<Entry>): Option<int> {
    if entry.None? then None else Some(entry.value.version)
  }

  /** The version that each truthy key is conditioned on; none means that the key must not exist. */
  function Conditions(writes: seq<Write>, entries: seq<Option<Entry>>): seq<(Key, Option<int>)>
    requires |writes| == |entries|
    decreases |writes|
  {
    if writes == [] then []
    else (if Truthy(writes[0].key) then [(writes[0].key, Version(entries[0]))] else []) + Conditions(writes[1..], entries[1..])
  }

  function Results(time: int, writes: seq<Write>, entries: seq<Option<Entry>>): seq<Option<Entry>>
    requires |writes| == |entries|
    decreases |writes|
  {
    if writes == [] then [] else [writes[0].commit(entries[0], time)] + Results(time, writes[1..], entries[1..])
  }

  predicate Hold(conditions: seq<(Key, Option<int>)>, store: Store) {
    forall i :: 0 <= i < |conditions| ==> Version(Lookup(store, conditions[i].0)) == conditions[i].1
  }

  /** A condition with a version wants that version, and one without wants that there is no entry. */
  lemma ConditionTells(store: Store, key: Key, version: Option<int>)
    ensures Hold([(key, version)], store) <==>
            if version.Some? then key in store && store[key].version == version.value else key !in store
  {
    if Hold([(key, version)], store) {
      assert Version(Lookup(store, [(key, version)][0].0)) == version;
    }
  }

  function Written(store: Store, writes: seq<Write>, results: seq<Option<Entry>>): Store
    requires |writes| == |results|
    decreases |writes|
  {
    if writes == [] then store else Written(Put(store, writes[0].key, results[0]), writes[1..], results[1..])
  }

  // ----- the retry budget

  /** `MAX_OPTIMISTIC_SIZE >> retries`. */
  function Budget(retries: nat): nat {
    if retries == 0 then 100 else Budget(retries - 1) / 2
  }

  predicate Optimistic(count: nat, risk: real, retries: nat) {
    count as real + risk < Budget(retries) as real
  }

  /** Up to 99 writes without any risk are tried optimistically, and half as many with each further attempt. */
  lemma {:induction false} BudgetHolds(retries: nat)
    ensures Budget(retries) == (match retries case 0 => 100 case 1 => 50 case 2 => 25 case 3 => 12 case 4 => 6 case 5 => 3 case 6 => 1 case _ => 0)
  {
    if retries == 0 {
    } else {
      BudgetHolds(retries - 1);
    }
  }

  lemma {:induction false} BudgetShrinks(retries: nat)
    requires retries >= 6
    ensures Budget(retries) <= 1
  {
    if retries == 6 {
      assert Budget(1) == 50 && Budget(2) == 25 && Budget(3) == 12;
      assert Budget(4) == 6 && Budget(5) == 3;
    } else {
      BudgetShrinks(retries - 1);
    }
  }

  /** Whatever the size and the risk, the seventh attempt is never optimistic. */
  lemma AtMostSixOptimistic(count: nat, risk: real, retries: nat)
    requires count >= 1 && risk >= 0.0 && Optimistic(count, risk, retries)
    ensures retries < 6
  {
    if retries >= 6 {
      BudgetShrinks(retries);
    }
  }

  /** The bound is met: a single write without any risk is tried six times. */
  lemma SixOptimistic(retries: nat)
    ensures Optimistic(1, 0.0, retries) <==> retries < 6
  {
    if retries >= 6 {
      BudgetShrinks(retries);
    } else {
      assert Budget(1) == 50 && Budget(2) == 25 && Budget(3) == 12;
      assert Budget(4) == 6 && Budget(5) == 3;
    }
  }

  lemma {:induction false} BudgetHalves(retries: nat)
    ensures Budget(retries + 1) <= 50
  {
    if retries == 0 {
    } else {
      BudgetHalves(retries - 1);
    }
  }

  /** With a database to keep the risk, and no other commit in between, one failure leads to the exclusive path. */
  lemma FailureRaisesRisk(count: nat, risk: real, retries: nat)
    requires count >= 1 && risk >= 0.0
    ensures !Optimistic(count, (risk + 50.0) * 0.99, retries + 1)
  {
    BudgetHalves(retries);
  }

  // ----- a batch that goes through is the transaction run on its own

  predicate DistinctKeys(writes: seq<Write>) {
    forall i, j :: 0 <= i < j < |writes| ==> writes[i].key != writes[j].key
  }

  predicate TruthyKeys(writes: seq<Write>) {
    forall i :: 0 <= i < |writes| ==> Truthy(writes[i].key)
  }

  /** The entries are the store's. */
  predicate Loaded(store: Store, writes: seq<Write>, entries: seq<Option<Entry>>) {
    |writes| == |entries| && forall i :: 0 <= i < |writes| ==> entries[i] == Lookup(store, writes[i].key)
  }

  /** Equal versions mean equal entries. */
  predicate Identified(store: Store, writes: seq<Write>, entries: seq<Option<Entry>>)
    requires |writes| == |entries|
  {
    forall i :: 0 <= i < |writes| ==>
      Version(Lookup(store, writes[i].key)) == Version(entries[i]) ==> Lookup(store, writes[i].key) == entries[i]
  }

  lemma {:induction false} HoldMeansLoaded(store: Store, writes: seq<Write>, entries: seq<Option<Entry>>)
    requires |writes| == |entries| && TruthyKeys(writes) && Identified(store, writes, entries)
    requires Hold(Conditions(writes, entries), store)
    ensures Loaded(store, writes, entries)
    decreases |writes|
  {
    if writes == [] {
    } else {
      var conditions := Conditions(writes, entries);
      assert conditions[0] == (writes[0].key, Version(entries[0]));
      assert conditions[1..] == Conditions(writes[1..], entries[1..]);
      HoldMeansLoaded(store, writes[1..], entries[1..]);
      forall i | 0 <= i < |writes|
        ensures entries[i] == Lookup(store, writes[i].key)
      {
        assert i > 0 ==> entries[i] == entries[1..][i - 1] && writes[i] == writes[1..][i - 1];
      }
    }
  }

  lemma {:induction false} LoadedBatchIsSerial(store: Store, time: int, writes: seq<Write>, entries: seq<Option<Entry>>)
    requires DistinctKeys(writes) && Loaded(store, writes, entries)
    ensures |Results(time, writes, entries)| == |writes|
    ensures Written(store, writes, Results(time, writes, entries)) == Serial(store, time, writes)
    decreases |writes|
  {
    if writes == [] {
    } else {
      var next := Put(store, writes[0].key, writes[0].commit(entries[0], time));
      assert Results(time, writes, entries)[1..] == Results(time, writes[1..], entries[1..]);
      LoadedBatchIsSerial(next, time, writes[1..], entries[1..]);
    }
  }

  lemma BatchIsSerial(store: Store, time: int, writes: seq<Write>, entries: seq<Option<Entry>>)
    requires |writes| == |entries| && TruthyKeys(writes) && DistinctKeys(writes) && Identified(store, writes, entries)
    requires Hold(Conditions(writes, entries), store)
    ensures |Results(time, writes, entries)| == |writes|
    ensures Written(store, writes, Results(time, writes, entries)) == Serial(store, time, writes)
  {
    HoldMeansLoaded(store, writes, entries);
    LoadedBatchIsSerial(store, time, writes, entries);
  }

  /** A falsy key is written without a condition: an update that came in between is lost. */
  lemma FalsyKeyLosesUpdate()
    ensures var append := (e: Option<Entry>, t: int) => Some(Entry(t, (if e.None? then "" else e.value.value) + "x"));
            var writes := [Write(Id(0), append)];
            var before: Store := map[Id(0) := Entry(1, "a")];
            var meanwhile: Store := map[Id(0) := Entry(2, "ab")];
            && Hold(Conditions(writes, [Lookup(before, Id(0))]), meanwhile)
            && Results(3, writes, [Lookup(before, Id(0))]) == [Some(Entry(3, "ax"))]
            && Serial(meanwhile, 3, writes) == map[Id(0) := Entry(3, "abx")]
  {
    var append := (e: Option<Entry>, t: int) => Some(Entry(t, (if e.None? then "" else e.value.value) + "x"));
    var writes := [Write(Id(0), append)];
    var before: Store := map[Id(0) := Entry(1, "a")];
    var meanwhile: Store := map[Id(0) := Entry(2, "ab")];
    assert writes[1..] == [] && [Lookup(before, Id(0))][1..] == [];
    assert Conditions(writes, [Lookup(before, Id(0))]) == [];
    assert "a" + "x" == "ax" && "ab" + "x" == "abx";
    assert Serial(meanwhile, 3, writes) == Serial(map[Id(0) := Entry(3, "abx")], 3, []);
  }

  // ----- which keys a batch can do without conditions for

  function Keep(entry: Option<Entry>, time: int): Option<Entry> {
    entry
  }

  function Append(entry: Option<Entry>, time: int): Option<Entry> {
    Some(Entry(time, (if entry.None? then "" else entry.value.value) + "x"))
  }

  function WritesOf(keys: seq<Key>, commit: (Option<Entry>, int) -> Option<Entry>): (writes: seq<Write>)
    ensures |writes| == |keys| && forall i :: 0 <= i < |keys| ==> writes[i] == Write(keys[i], commit)
  {
    if keys == [] then [] else [Write(keys[0], commit)] + WritesOf(keys[1..], commit)
  }

  /** For one key an entry that has been loaded before, and for the others none. */
  function StaleEntries(keys: seq<Key>, key: Key): (entries: seq<Option<Entry>>)
    ensures |entries| == |keys|
    ensures forall i :: 0 <= i < |keys| ==> entries[i] == if keys[i] == key then Some(Entry(1, "a")) else None
  {
    if keys == [] then [] else [if keys[0] == key then Some(Entry(1, "a")) else None] + StaleEntries(keys[1..], key)
  }

  function NoEntries(count: nat): (entries: seq<Option<Entry>>)
    ensures |entries| == count && forall i :: 0 <= i < count ==> entries[i].None?
  {
    if count == 0 then [] else [None] + NoEntries(count - 1)
  }

  /** A batch for these keys that goes through. */
  predicate Passes(keys: seq<Key>, store: Store, writes: seq<Write>, entries: seq<Option<Entry>>) {
    && |writes| == |entries| == |keys| && (forall i :: 0 <= i < |keys| ==> writes[i].key == keys[i])
    && Identified(store, writes, entries) && Hold(Conditions(writes, entries), store)
  }

  predicate RunsSerially(store: Store, time: int, writes: seq<Write>, entries: seq<Option<Entry>>) {
    && |writes| == |entries| && |Results(time, writes, entries)| == |writes|
    && Written(store, writes, Results(time, writes, entries)) == Serial(store, time, writes)
  }

  lemma {:induction false} ConditionsNone(writes: seq<Write>, entries: seq<Option<Entry>>, store: Store)
    requires |writes| == |entries|
    requires forall i :: 0 <= i < |writes| && Truthy(writes[i].key) ==> writes[i].key !in store && entries[i].None?
    ensures Hold(Conditions(writes, entries), store)
    decreases |writes|
  {
    if writes == [] {
    } else {
      assert forall i :: 0 <= i < |writes[1..]| ==> writes[1..][i] == writes[i + 1] && entries[1..][i] == entries[i + 1];
      ConditionsNone(writes[1..], entries[1..], store);
    }
  }

  lemma {:induction false} KeepingIsSerial(store: Store, time: int, keys: seq<Key>)
    ensures Serial(store, time, WritesOf(keys, Keep)) == store
    decreases |keys|
  {
    if keys == [] {
    } else {
      assert Put(store, keys[0], Lookup(store, keys[0])) == store;
      KeepingIsSerial(store, time, keys[1..]);
    }
  }

  lemma {:induction false} KeepingIsWritten(store: Store, time: int, keys: seq<Key>, key: Key)
    requires key in keys || Lookup(store, key) == Some(Entry(1, "a"))
    ensures |Results(time, WritesOf(keys, Keep), StaleEntries(keys, key))| == |keys|
    ensures Lookup(Written(store, WritesOf(keys, Keep), Results(time, WritesOf(keys, Keep), StaleEntries(keys, key))), key)
         == Some(Entry(1, "a"))
    decreases |keys|
  {
    if keys == [] {
    } else {
      var entry := if keys[0] == key then Some(Entry(1, "a")) else None;
      KeepingIsWritten(Put(store, keys[0], entry), time, keys[1..], key);
    }
  }

  /** Over a falsy key the stale entry is written back. */
  lemma FalsyKeyWritesBack(keys: seq<Key>, key: Key, time: int)
    requires key in keys && !Truthy(key)
    ensures var writes, entries, store := WritesOf(keys, Keep), StaleEntries(keys, key), map[key := Entry(2, "b")];
            Passes(keys, store, writes, entries) && !RunsSerially(store, time, writes, entries)
  {
    var store := map[key := Entry(2, "b")];
    ConditionsNone(WritesOf(keys, Keep), StaleEntries(keys, key), store);
    KeepingIsSerial(store, time, keys);
    KeepingIsWritten(store, time, keys, key);
  }

  function Times(keys: seq<Key>, key: Key): nat {
    if keys == [] then 0 else (if keys[0] == key then 1 else 0) + Times(keys[1..], key)
  }

  lemma {:induction false} NamedOnce(keys: seq<Key>, i: nat)
    requires i < |keys|
    ensures Times(keys, keys[i]) >= 1
  {
    if i == 0 {
    } else {
      NamedOnce(keys[1..], i - 1);
    }
  }

  lemma {:induction false} NamedTwice(keys: seq<Key>, i: nat, j: nat)
    requires i < j < |keys| && keys[i] == keys[j]
    ensures Times(keys, keys[i]) >= 2
  {
    if i == 0 {
      NamedOnce(keys[1..], j - 1);
    } else {
      NamedTwice(keys[1..], i - 1, j - 1);
    }
  }

  function TextLength(entry: Option<Entry>): nat {
    if entry.None? then 0 else |entry.value.value|
  }

  lemma {:induction false} AppendingIsSerial(store: Store, time: int, keys: seq<Key>, key: Key)
    ensures TextLength(Lookup(Serial(store, time, WritesOf(keys, Append)), key)) == TextLength(Lookup(store, key)) + Times(keys, key)
    decreases |keys|
  {
    if keys == [] {
    } else {
      AppendingIsSerial(Put(store, keys[0], Append(Lookup(store, keys[0]), time)), time, keys[1..], key);
    }
  }

  lemma {:induction false} AppendingIsWritten(store: Store, time: int, keys: seq<Key>, key: Key)
    requires TextLength(Lookup(store, key)) <= 1
    ensures |Results(time, WritesOf(keys, Append), NoEntries(|keys|))| == |keys|
    ensures TextLength(Lookup(Written(store, WritesOf(keys, Append),
              Results(time, WritesOf(keys, Append), NoEntries(|keys|))), key)) <= 1
    decreases |keys|
  {
    if keys == [] {
    } else {
      AppendingIsWritten(Put(store, keys[0], Append(None, time)), time, keys[1..], key);
    }
  }

  /** Of two writes to one key, the second does not see the first. */
  lemma RepeatedKeyLosesWrite(keys: seq<Key>, i: nat, j: nat, time: int)
    requires i < j < |keys| && keys[i] == keys[j]
    ensures var writes, entries := WritesOf(keys, Append), NoEntries(|keys|);
            Passes(keys, map[], writes, entries) && !RunsSerially(map[], time, writes, entries)
  {
    ConditionsNone(WritesOf(keys, Append), NoEntries(|keys|), map[]);
    NamedTwice(keys, i, j);
    AppendingIsSerial(map[], time, keys, keys[i]);
    AppendingIsWritten(map[], time, keys, keys[i]);
  }

  /**
   Whatever the callbacks do, a batch that goes through is the transaction run on its own, exactly when its keys
   are truthy and none is written twice.
   */
  lemma SerialExactly(keys: seq<Key>)
    ensures (forall i :: 0 <= i < |keys| ==> Truthy(keys[i])) && (forall i, j :: 0 <= i < j < |keys| ==> keys[i] != keys[j])
       <==> forall store: Store, time: int, writes: seq<Write>, entries: seq<Option<Entry>> ::
              Passes(keys, store, writes, entries) ==> RunsSerially(store, time, writes, entries)
  {
    if i :| 0 <= i < |keys| && !Truthy(keys[i]) {
      FalsyKeyWritesBack(keys, keys[i], 0);
    } else if i, j :| 0 <= i < j < |keys| && keys[i] == keys[j] {
      RepeatedKeyLosesWrite(keys, i, j, 0);
    } else {
      forall store: Store, time: int, writes: seq<Write>, entries: seq<Option<Entry>> | Passes(keys, store, writes, entries)
        ensures RunsSerially(store, time, writes, entries)
      {
        BatchIsSerial(store, time, writes, entries);
      }
    }
  }

  // ----- one commit as the source runs it, with other threads at work

  class Database {
    var entries: Store
    var retryRisk: real

    constructor (entries: Store)
      ensures this.entries == entries && retryRisk == 0.0
    {
      this.entries := entries;
      this.retryRisk := 0.0;
    }

    /** The exclusive transaction: each write sees what the ones before it have stored. */
    method WriteExclusively(time: int, writes: seq<Write>)
      modifies this`entries
      ensures entries == Serial(old(entries), time, writes)
    {
      for i := 0 to |writes|
        invariant Serial(entries, time, writes[i..]) == Serial(old(entries), time, writes)
      {
        assert writes[i..][0] == writes[i] && writes[i..][1..] == writes[i + 1..];
        var entry := Lookup(entries, writes[i].key);
        entries := Put(entries, writes[i].key, writes[i].commit(entry, time));
      }
      assert writes[|writes|..] == [];
    }

    /** The atomic batch: all the writes if all the conditions hold, nothing otherwise. */
    method WriteConditionally(conditions: seq<(Key, Option<int>)>, writes: seq<Write>, results: seq<Option<Entry>>) returns (done: bool)
      requires |writes| == |results|
      modifies this`entries
      ensures done <==> Hold(conditions, old(entries))
      ensures entries == if done then Written(old(entries), writes, results) else old(entries)
    {
      for i := 0 to |conditions|
        invariant entries == old(entries) && forall j :: 0 <= j < i ==> Version(Lookup(entries, conditions[j].0)) == conditions[j].1
      {
        if Version(Lookup(entries, conditions[i].0)) != conditions[i].1 {
          return false;
        }
      }
      for i := 0 to |writes|
        invariant Written(entries, writes[i..], results[i..]) == Written(old(entries), writes, results)
      {
        assert writes[i..][0] == writes[i] && writes[i..][1..] == writes[i + 1..] && results[i..][1..] == results[i + 1..];
        entries := Put(entries, writes[i].key, results[i]);
      }
      assert writes[|writes|..] == [];
      return true;
    }
  }

  /** Entries that went into the batch: loaded again on a retry, or when there was none. */
  function Reloaded(store: Store, write: Write, entry: Option<Entry>, retries: nat): Option<Entry> {
    if Truthy(write.key) && (retries > 0 || entry.None?) then Lookup(store, write.key) else entry
  }

  lemma {:induction false} BatchGrows(time: int, writes: seq<Write>, entries: seq<Option<Entry>>, w: Write, entry: Option<Entry>)
    requires |writes| == |entries|
    ensures Conditions(writes + [w], entries + [entry])
            == Conditions(writes, entries) + if Truthy(w.key) then [(w.key, Version(entry))] else []
    ensures Results(time, writes + [w], entries + [entry]) == Results(time, writes, entries) + [w.commit(entry, time)]
    decreases |writes|
  {
    if writes == [] {
      assert [w][1..] == [] && [entry][1..] == [];
      assert writes + [w] == [w] && entries + [entry] == [entry];
    } else {
      assert (writes + [w])[1..] == writes[1..] + [w] && (entries + [entry])[1..] == entries[1..] + [entry];
      BatchGrows(time, writes[1..], entries[1..], w, entry);
    }
  }

  method NextCondition(store: Store, time: int, writes: seq<Write>, entries: seq<Option<Entry>>, retries: nat)
    returns (latest: seq<Option<Entry>>, conditions: seq<(Key, Option<int>)>, results: seq<Option<Entry>>)
    requires |writes| == |entries|
    ensures |latest| == |writes| && forall i :: 0 <= i < |writes| ==> latest[i] == Reloaded(store, writes[i], entries[i], retries)
    ensures conditions == Conditions(writes, latest) && results == Results(time, writes, latest) && |results| == |writes|
  {
    latest, conditions, results := [], [], [];
    for i := 0 to |writes|
      invariant |latest| == |results| == i
      invariant forall j :: 0 <= j < i ==> latest[j] == Reloaded(store, writes[j], entries[j], retries)
      invariant conditions == Conditions(writes[..i], latest)
      invariant results == Results(time, writes[..i], latest)
    {
      var entry := entries[i];
      if Truthy(writes[i].key) {
        if retries > 0 || entry.None? {
          entry := Lookup(store, writes[i].key);
        }
        conditions := conditions + [(writes[i].key, Version(entry))];
      }
      BatchGrows(time, writes[..i], latest, writes[i], entry);
      assert writes[..i + 1] == writes[..i] + [writes[i]];
      latest := latest + [entry];
      results := results + [writes[i].commit(entry, time)];
    }
    assert writes[..|writes|] == writes;
  }

  /** Each entry, of the store or loaded before, is the one that its version identifies. */
  ghost predicate Historical(key: Key, entry: Option<Entry>, history: (Key, int) -> string) {
    entry.Some? ==> entry.value.value == history(key, entry.value.version)
  }

  ghost predicate AllHistorical(store: Store, history: (Key, int) -> string) {
    forall key :: key in store ==> Historical(key, Some(store[key]), history)
  }

  /** A store and the risk of a retry, as other commits have left them. */
  datatype Situation = Situation(entries: Store, retryRisk: real)

  lemma {:induction false} ConditionsAre(writes: seq<Write>, entries: seq<Option<Entry>>)
    requires |writes| == |entries| && TruthyKeys(writes)
    ensures var conditions := Conditions(writes, entries);
            |conditions| == |writes| && forall i :: 0 <= i < |writes| ==> conditions[i] == (writes[i].key, Version(entries[i]))
    decreases |writes|
  {
    if writes == [] {
    } else {
      ConditionsAre(writes[1..], entries[1..]);
    }
  }

  /** All the versions are those of the entries. */
  predicate SameVersions(store: Store, writes: seq<Write>, entries: seq<Option<Entry>>)
    requires |writes| == |entries|
  {
    forall i :: 0 <= i < |writes| ==> Version(Lookup(store, writes[i].key)) == Version(entries[i])
  }

  lemma HoldExactly(store: Store, writes: seq<Write>, entries: seq<Option<Entry>>)
    requires |writes| == |entries| && TruthyKeys(writes)
    ensures Hold(Conditions(writes, entries), store) <==> SameVersions(store, writes, entries)
  {
    ConditionsAre(writes, entries);
    var conditions := Conditions(writes, entries);
    if Hold(conditions, store) {
      forall i | 0 <= i < |writes|
        ensures Version(Lookup(store, writes[i].key)) == Version(entries[i])
      {
        assert Version(Lookup(store, conditions[i].0)) == conditions[i].1;
      }
    }
  }

  ghost predicate Fitting(s: Situation, history: (Key, int) -> string) {
    AllHistorical(s.entries, history) && s.retryRisk >= 0.0
  }

  ghost predicate AllHistoricalEntries(writes: seq<Write>, entries: seq<Option<Entry>>, history: (Key, int) -> string) {
    |writes| == |entries| && forall i :: 0 <= i < |writes| ==> Historical(writes[i].key, entries[i], history)
  }

  /** The entry that a write was loaded with, or the store's where there was none. */
  function FirstEntry(store: Store, write: Write, loaded: Option<Entry>): Option<Entry> {
    if loaded.Some? then loaded else Lookup(store, write.key)
  }

  function VersionsOf(store: Store, writes: seq<Write>): seq<Option<int>> {
    if writes == [] then [] else [Version(Lookup(store, writes[0].key))] + VersionsOf(store, writes[1..])
  }

  lemma {:induction false} VersionsAre(store: Store, writes: seq<Write>)
    ensures var versions := VersionsOf(store, writes);
            |versions| == |writes| && forall i :: 0 <= i < |writes| ==> versions[i] == Version(Lookup(store, writes[i].key))
  {
    if writes == [] {
    } else {
      VersionsAre(store, writes[1..]);
    }
  }

  function FirstVersions(store: Store, writes: seq<Write>, loaded: seq<Option<Entry>>): seq<Option<int>>
    requires |writes| == |loaded|
  {
    if writes == [] then []
    else [Version(FirstEntry(store, writes[0], loaded[0]))] + FirstVersions(store, writes[1..], loaded[1..])
  }

  lemma {:induction false} FirstVersionsAre(store: Store, writes: seq<Write>, loaded: seq<Option<Entry>>)
    requires |writes| == |loaded|
    ensures var versions := FirstVersions(store, writes, loaded);
            && |versions| == |writes|
            && forall i :: 0 <= i < |writes| ==> versions[i] == Version(FirstEntry(store, writes[i], loaded[i]))
    decreases |writes|
  {
    if writes == [] {
    } else {
      FirstVersionsAre(store, writes[1..], loaded[1..]);
    }
  }

  /** Nothing that the writes were loaded with has changed. */
  predicate Unchanged(writes: seq<Write>, loaded: seq<Option<Entry>>, before: Store, meanwhile: Store)
    requires |writes| == |loaded|
  {
    VersionsOf(meanwhile, writes) == FirstVersions(before, writes, loaded)
  }

  /** The keys of the writes have the same versions in both. */
  predicate SameKeys(writes: seq<Write>, before: Store, meanwhile: Store) {
    VersionsOf(meanwhile, writes) == VersionsOf(before, writes)
  }

  lemma VersionsCompared(before: Store, now: Store, writes: seq<Write>, entries: seq<Option<Entry>>, latest: seq<Option<Entry>>, retries: nat)
    requires TruthyKeys(writes) && |entries| == |writes| == |latest|
    requires forall i :: 0 <= i < |writes| ==> latest[i] == Reloaded(before, writes[i], entries[i], retries)
    ensures SameVersions(now, writes, latest) <==>
            if retries == 0 then Unchanged(writes, entries, before, now) else SameKeys(writes, before, now)
  {
    VersionsAre(now, writes);
    VersionsAre(before, writes);
    FirstVersionsAre(before, writes, entries);
    if SameVersions(now, writes, latest) {
      assert retries == 0 ==> VersionsOf(now, writes) == FirstVersions(before, writes, entries);
      assert retries > 0 ==> VersionsOf(now, writes) == VersionsOf(before, writes);
    }
  }

  /** One optimistic attempt, with the situation that others have left when its batch is handed in. */
  method Attempt(db: Database, time: int, writes: seq<Write>, entries: seq<Option<Entry>>, retries: nat, now: Situation,
                 ghost history: (Key, int) -> string)
    returns (done: bool, latest: seq<Option<Entry>>)
    requires TruthyKeys(writes) && DistinctKeys(writes) && AllHistoricalEntries(writes, entries, history)
    requires AllHistorical(db.entries, history) && AllHistorical(now.entries, history)
    modifies db
    ensures AllHistoricalEntries(writes, latest, history)
    ensures retries == 0 ==> (done <==> Unchanged(writes, entries, old(db.entries), now.entries))
    ensures retries > 0 ==> (done <==> SameKeys(writes, old(db.entries), now.entries))
    ensures db.entries == (if done then Serial(now.entries, time, writes) else now.entries) && db.retryRisk == now.retryRisk
  {
    var conditions, results;
    latest, conditions, results := NextCondition(db.entries, time, writes, entries, retries);
    HoldExactly(now.entries, writes, latest);
    VersionsCompared(db.entries, now.entries, writes, entries, latest, retries);
    db.entries, db.retryRisk := now.entries, now.retryRisk;
    done := db.WriteConditionally(conditions, writes, results);
    if done {
      BatchIsSerial(now.entries, time, writes, latest);
    }
  }

  predicate NothingSince(writes: seq<Write>, meanwhile: nat -> Situation, r: nat)
    requires r > 0
  {
    SameKeys(writes, meanwhile(r - 1).entries, meanwhile(r).entries)
  }

  /** Each of the attempts from number `r` to before `end` has found something changed. */
  ghost predicate NeverQuiet(writes: seq<Write>, meanwhile: nat -> Situation, r: nat, end: nat)
    requires r > 0
    decreases end - r
  {
    r >= end || (!NothingSince(writes, meanwhile, r) && NeverQuiet(writes, meanwhile, r + 1, end))
  }

  lemma StillNotQuiet(writes: seq<Write>, meanwhile: nat -> Situation, r: nat, end: nat)
    requires NeverQuiet(writes, meanwhile, r + 1, end) && (r > 0 ==> !NothingSince(writes, meanwhile, r))
    ensures NeverQuiet(writes, meanwhile, if r == 0 then 1 else r, end)
  {
  }

  /**
   `commit`, which calls itself until it goes through; `retries` is 0 at first. `meanwhile(r)` is the situation that other
   threads have left when attempt number `r` is settled. The transaction takes effect all at once, on the store of the
   attempt that succeeds. The first attempt goes through exactly when nothing has changed since the entries were
   loaded, and a further one when nothing has changed since the one before. With a database that keeps the risk, an
   attempt that fails is the last optimistic one; without, there are at most six.
   */
  method Commit(db: Database, keepsRisk: bool, time: int, writes: seq<Write>, entries: seq<Option<Entry>>, retries: nat,
                meanwhile: nat -> Situation, ghost history: (Key, int) -> string)
    returns (optimisticAttempts: nat, settled: nat)
    requires writes != [] && TruthyKeys(writes) && DistinctKeys(writes) && db.retryRisk >= 0.0
    requires AllHistoricalEntries(writes, entries, history)
    requires AllHistorical(db.entries, history) && forall r :: Fitting(meanwhile(r), history)
    requires retries > 0 ==> db.entries == meanwhile(retries - 1).entries
    modifies db
    decreases 6 - retries
    ensures db.entries == Serial(meanwhile(settled).entries, time, writes) && db.retryRisk == meanwhile(settled).retryRisk
    ensures retries <= settled <= optimisticAttempts <= settled + 1 && (optimisticAttempts <= 6 || optimisticAttempts == retries)
    ensures optimisticAttempts > retries
       <==> |writes| as real + (if keepsRisk then old(db.retryRisk) * 0.99 else 0.0) < Budget(retries) as real
    ensures retries == 0 < optimisticAttempts ==> (settled == 0 <==> Unchanged(writes, entries, old(db.entries), meanwhile(0).entries))
    ensures NeverQuiet(writes, meanwhile, if retries == 0 then 1 else retries, settled)
    ensures 0 < settled < optimisticAttempts ==> NothingSince(writes, meanwhile, settled)
    ensures keepsRisk ==> optimisticAttempts <= retries + 1
  {
    if keepsRisk {
      db.retryRisk := db.retryRisk * 0.99;
    }
    var risk := if keepsRisk then db.retryRisk else 0.0;
    if !Optimistic(|writes|, risk, retries) {
      db.entries, db.retryRisk := meanwhile(retries).entries, meanwhile(retries).retryRisk;
      db.WriteExclusively(time, writes);
      return retries, retries;
    }
    AtMostSixOptimistic(|writes|, risk, retries);
    var done, latest := Attempt(db, time, writes, entries, retries, meanwhile(retries), history);
    if done {
      return retries + 1, retries;
    }
    if keepsRisk {
      db.retryRisk := db.retryRisk + 50.0;
      FailureRaisesRisk(|writes|, meanwhile(retries).retryRisk, retries);
    }
    optimisticAttempts, settled := Commit(db, keepsRisk, time, writes, latest, retries + 1, meanwhile, history);
    StillNotQuiet(writes, meanwhile, retries, settled);
  }
}
