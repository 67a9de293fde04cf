/**
 Secondary indexes against the primary store (`updateIndices` in resources/Table.ts and
 `getIndexedValues` in utility/lmdb/commonUtility.js). An index is the set of (key, record id) pairs.
 */
module SecondaryIndex {
  import opened Wrappers

  datatype Scalar = Num(n: int) | Text(text: string) | Bool(b: bool)

  datatype Elem = Item(scalar: Scalar) | NullItem | DateItem(time: int) | OtherItem

  /** The value of an attribute; `Other` is any other object. */
  datatype Attr = Undefined | Null | Prim(scalar: Scalar) | List(elems: seq<Elem>) | Date(time: int) | Other

  /** An index key: null, or a scalar. */
  datatype Key = NullKey | Key(scalar: Scalar)

  type Id = int

  const MAX_SEARCH_KEY_LENGTH := 256

  const OVERFLOW_MARKER := ['\U{ffff}']

  function Shortened(scalar: Scalar): Scalar {
    if scalar.Text? && |scalar.text| > MAX_SEARCH_KEY_LENGTH
    then Text(scalar.text[..MAX_SEARCH_KEY_LENGTH] + OVERFLOW_MARKER) else scalar
  }

  function ElemKeys(elems: seq<Elem>, indexNulls: bool): seq<Key> {
    if elems == [] then [] else
      ElemKeys(elems[..|elems| - 1], indexNulls) +
      match elems[|elems| - 1]
      case Item(scalar) => [Key(Shortened(scalar))]
      case NullItem => if indexNulls then [NullKey] else []
      case DateItem(time) => [Key(Num(time))]
      case OtherItem => []
  }

  function IndexedValues(value: Attr, indexNulls: bool): Option<seq<Key>> {
    match value
    case Null => if indexNulls then Some([NullKey]) else None
    case Undefined => None
    case Prim(scalar) => Some([Key(Shortened(scalar))])
    case List(elems) => Some(ElemKeys(elems, indexNulls))
    case Date(time) => Some([Key(Num(time))])
    case Other => None
  }

  function Keys(value: Attr, indexNulls: bool): seq<Key> {
    var values := IndexedValues(value, indexNulls);
    if values.None? then [] else values.value
  }

  method GetIndexedValues(value: Attr, indexNulls: bool) returns (values: Option<seq<Key>>)
    ensures values == IndexedValues(value, indexNulls)
  {
    match value
    case Null => return if indexNulls then Some([NullKey]) else None;
    case Undefined => return None;
    case Prim(scalar) => return Some([Key(Shortened(scalar))]);
    case Date(time) => return Some([Key(Num(time))]);
    case Other => return None;
    case List(elems) =>
      var keys: seq<Key> := [];
      for i := 0 to |elems|
        invariant keys == ElemKeys(elems[..i], indexNulls)
      {
        assert elems[..i + 1][..i] == elems[..i];
        match elems[i] {
          case Item(scalar) => keys := keys + [Key(Shortened(scalar))];
          case NullItem => if indexNulls { keys := keys + [NullKey]; }
          case DateItem(time) => keys := keys + [Key(Num(time))];
          case OtherItem =>
        }
      }
      assert elems[..|elems|] == elems;
      return Some(keys);
  }

  // ----- one index

  function Count(keys: seq<Key>, key: Key): nat {
    if keys == [] then 0 else Count(keys[..|keys| - 1], key) + if keys[|keys| - 1] == key then 1 else 0
  }

  /** A key is added when it is new, or when it is retained but listed a second time. */
  predicate IsAdded(keys: seq<Key>, seen: seq<Key>, key: Key) {
    Count(keys, key) >= 2 || (Count(keys, key) == 1 && key !in seen)
  }

  /** The index after an update from the keys in `seen` to `keys`. */
  function Reindexed(pairs: set<(Key, Id)>, id: Id, keys: seq<Key>, seen: seq<Key>): set<(Key, Id)> {
    pairs - (set key | key in seen && key !in keys :: (key, id)) + (set key | key in keys && IsAdded(keys, seen, key) :: (key, id))
  }

  lemma {:induction false} CountPositive(keys: seq<Key>, key: Key)
    ensures Count(keys, key) > 0 <==> key in keys
  {
    if keys == [] {
    } else {
      CountPositive(keys[..|keys| - 1], key);
      assert keys == keys[..|keys| - 1] + [keys[|keys| - 1]];
    }
  }

  /** The diff of old and new keys: which pairs to remove, and which to add. */
  method Diff(valuesToAdd: seq<Key>, valuesToRemove: seq<Key>) returns (toAdd: seq<Key>, toRemove: set<Key>)
    ensures forall key :: key in toRemove <==> key in valuesToRemove && key !in valuesToAdd
    ensures forall key :: key in toAdd <==> key in valuesToAdd && IsAdded(valuesToAdd, valuesToRemove, key)
  {
    var setToRemove := set key | key in valuesToRemove;
    toAdd := [];
    for i := 0 to |valuesToAdd|
      invariant forall key :: key in setToRemove <==> key in valuesToRemove && key !in valuesToAdd[..i]
      invariant forall key :: key in toAdd <==> key in valuesToAdd[..i] && IsAdded(valuesToAdd[..i], valuesToRemove, key)
    {
      var value := valuesToAdd[i];
      assert valuesToAdd[..i + 1] == valuesToAdd[..i] + [value];
      assert valuesToAdd[..i + 1][..i] == valuesToAdd[..i];
      CountPositive(valuesToAdd[..i], value);
      if value in setToRemove {
        setToRemove := setToRemove - {value}; // retained, neither removed nor added
      } else {
        toAdd := toAdd + [value];
      }
    }
    assert valuesToAdd[..|valuesToAdd|] == valuesToAdd;
    toRemove := setToRemove;
  }

  /** Removals first, then additions. */
  method RemoveAndPut(pairs: set<(Key, Id)>, id: Id, valuesToAdd: seq<Key>, valuesToRemove: set<Key>) returns (updated: set<(Key, Id)>)
    ensures updated == pairs - (set key | key in valuesToRemove :: (key, id)) + (set key | key in valuesToAdd :: (key, id))
  {
    updated := pairs;
    var toRemove := valuesToRemove;
    while toRemove != {}
      invariant toRemove <= valuesToRemove
      invariant updated == pairs - (set key | key in valuesToRemove - toRemove :: (key, id))
    {
      var key :| key in toRemove;
      updated := updated - {(key, id)};
      toRemove := toRemove - {key};
    }
    ghost var left := updated;
    for i := 0 to |valuesToAdd|
      invariant updated == left + (set key | key in valuesToAdd[..i] :: (key, id))
    {
      assert valuesToAdd[..i + 1] == valuesToAdd[..i] + [valuesToAdd[i]];
      updated := updated + {(valuesToAdd[i], id)};
    }
    assert valuesToAdd[..|valuesToAdd|] == valuesToAdd;
  }

  lemma DiffIsReindexed(pairs: set<(Key, Id)>, id: Id, keys: seq<Key>, seen: seq<Key>, toAdd: seq<Key>, toRemove: set<Key>)
    requires forall key :: key in toRemove <==> key in seen && key !in keys
    requires forall key :: key in toAdd <==> key in keys && IsAdded(keys, seen, key)
    ensures pairs - (set key | key in toRemove :: (key, id)) + (set key | key in toAdd :: (key, id)) == Reindexed(pairs, id, keys, seen)
  {
    assert (set key | key in toRemove :: (key, id)) == (set key | key in seen && key !in keys :: (key, id));
    assert (set key | key in toAdd :: (key, id)) == (set key | key in keys && IsAdded(keys, seen, key) :: (key, id));
  }

  lemma NothingSeen(keys: seq<Key>)
    ensures forall key :: key in keys ==> IsAdded(keys, [], key)
  {
    forall key | key in keys
      ensures IsAdded(keys, [], key)
    {
      CountPositive(keys, key);
    }
  }

  /** `same` is the source's `===`: equal scalars are the same, equal lists need not be. */
  method UpdateIndex(pairs: set<(Key, Id)>, id: Id, value: Attr, existingValue: Attr, indexNulls: bool, isIndexing: bool, same: bool)
    returns (updated: set<(Key, Id)>)
    requires same ==> value == existingValue
    ensures same && !isIndexing ==> updated == pairs
    ensures !same || isIndexing ==> updated == Reindexed(pairs, id, Keys(value, indexNulls), Keys(existingValue, indexNulls))
  {
    if same && !isIndexing {
      return pairs;
    }
    var valuesToAdd := GetIndexedValues(value, indexNulls);
    var valuesToRemove := GetIndexedValues(existingValue, indexNulls);
    var toAdd: seq<Key>, toRemove: set<Key> := if valuesToAdd.Some? then valuesToAdd.value else [], {};
    if valuesToRemove.Some? && |valuesToRemove.value| > 0 {
      toAdd, toRemove := Diff(toAdd, valuesToRemove.value);
    } else {
      NothingSeen(toAdd);
    }
    DiffIsReindexed(pairs, id, Keys(value, indexNulls), Keys(existingValue, indexNulls), toAdd, toRemove);
    updated := RemoveAndPut(pairs, id, toAdd, toRemove);
  }

  /** The pairs of one record are exactly its keys. */
  ghost predicate Exact(pairs: set<(Key, Id)>, id: Id, keys: seq<Key>) {
    forall key :: (key, id) in pairs <==> key in keys
  }

  /**
   From an index that holds `mine` for the record, an update that takes the old keys to be `seen` ends
   exact precisely when every stale key was seen, and every key that is already taken for stored is.
   */
  lemma ReindexExactly(pairs: set<(Key, Id)>, id: Id, keys: seq<Key>, seen: seq<Key>, mine: seq<Key>)
    requires Exact(pairs, id, mine)
    ensures Exact(Reindexed(pairs, id, keys, seen), id, keys) <==>
            && (forall key :: key in mine && key !in keys ==> key in seen)
            && (forall key :: key in keys && key !in mine ==> IsAdded(keys, seen, key))
  {
    var after := Reindexed(pairs, id, keys, seen);
    forall key
      ensures (key, id) in after <==> (key in mine && !(key in seen && key !in keys)) || (key in keys && IsAdded(keys, seen, key))
    {
    }
    if Exact(after, id, keys) {
      forall key | key in mine && key !in keys
        ensures key in seen
      {
        assert (key, id) !in after;
      }
      forall key | key in keys && key !in mine
        ensures IsAdded(keys, seen, key)
      {
        assert (key, id) in after;
      }
    }
  }

  lemma OthersKept(pairs: set<(Key, Id)>, id: Id, keys: seq<Key>, seen: seq<Key>, other: Id, key: Key)
    requires other != id
    ensures (key, other) in Reindexed(pairs, id, keys, seen) <==> (key, other) in pairs
  {
  }

  // ----- a table

  /** What `existingEntry?.value` gives: undefined without an entry, null for a tombstone. */
  datatype Record = Missing | NullRecord | Present(fields: map<string, Attr>)

  /** `record && record[name]`. */
  function ValueOf(record: Record, name: string): Attr {
    match record
    case Missing => Undefined
    case NullRecord => Null
    case Present(fields) => if name in fields then fields[name] else Undefined
  }

  datatype Table = Table(primary: map<Id, Record>, indices: map<string, set<(Key, Id)>>, indexNulls: set<string>)

  function RecordOf(t: Table, id: Id): Record {
    if id in t.primary then t.primary[id] else Missing
  }

  /** The keys that a stored record should have in an index; a tombstone has none. */
  function RightKeys(record: Record, name: string, indexNulls: bool): seq<Key> {
    if record.Present? then Keys(ValueOf(record, name), indexNulls) else []
  }

  ghost predicate Consistent(t: Table) {
    forall name, id :: name in t.indices ==> Exact(t.indices[name], id, RightKeys(RecordOf(t, id), name, name in t.indexNulls))
  }

  function UpdatedIndex(pairs: set<(Key, Id)>, id: Id, existing: Record, record: Record, name: string, indexNulls: bool): set<(Key, Id)> {
    Reindexed(pairs, id, Keys(ValueOf(record, name), indexNulls), Keys(ValueOf(existing, name), indexNulls))
  }

  function UpdatedIndices(t: Table, id: Id, existing: Record, record: Record): map<string, set<(Key, Id)>> {
    map name | name in t.indices :: UpdatedIndex(t.indices[name], id, existing, record, name, name in t.indexNulls)
  }

  /** A put or a patch, in or out of order: what counts is the record before and the record to store. */
  function Written(t: Table, id: Id, fields: map<string, Attr>): Table {
    t.(primary := t.primary[id := Present(fields)], indices := UpdatedIndices(t, id, RecordOf(t, id), Present(fields)))
  }

  /** A delete leaves a tombstone when deletes are audited or tracked. */
  function Deleted(t: Table, id: Id, tracked: bool): Table {
    t.(primary := if tracked then t.primary[id := NullRecord] else t.primary - {id},
       indices := UpdatedIndices(t, id, RecordOf(t, id), Missing))
  }

  /** The partial record of an invalidation keeps the indexed attributes; the indexes are left alone. */
  function Invalidated(t: Table, id: Id): Table {
    var record := RecordOf(t, id);
    t.(primary := t.primary[id :=
      if t.indices == map[] then NullRecord
      else Present(map name | name in t.indices :: ValueOf(if record.Present? then record else Missing, name))])
  }

  /** An eviction hands `updateIndices` null for the new record, and removes the entry. */
  function Evicted(t: Table, id: Id): Table {
    t.(primary := t.primary - {id}, indices := UpdatedIndices(t, id, RecordOf(t, id), NullRecord))
  }

  /** The record of `id` becomes `next`; each index ends consistent exactly when the update is right for it. */
  lemma UpdateExactly(t: Table, id: Id, next: Record, record: Record, t': Table)
    requires Consistent(t)
    requires t'.indexNulls == t.indexNulls && t'.indices == UpdatedIndices(t, id, RecordOf(t, id), record)
    requires RecordOf(t', id) == next && forall other :: other != id ==> RecordOf(t', other) == RecordOf(t, other)
    ensures Consistent(t') <==> forall name :: name in t.indices ==>
              Exact(t'.indices[name], id, RightKeys(next, name, name in t.indexNulls))
  {
    forall name, other | name in t.indices && other != id
      ensures Exact(t'.indices[name], other, RightKeys(RecordOf(t', other), name, name in t.indexNulls))
    {
      assert Exact(t.indices[name], other, RightKeys(RecordOf(t, other), name, name in t.indexNulls));
      forall key
        ensures (key, other) in t'.indices[name] <==> (key, other) in t.indices[name]
      {
        OthersKept(t.indices[name], id, Keys(ValueOf(record, name), name in t.indexNulls),
                   Keys(ValueOf(RecordOf(t, id), name), name in t.indexNulls), other, key);
      }
    }
    if Consistent(t') {
      forall name | name in t.indices
        ensures Exact(t'.indices[name], id, RightKeys(next, name, name in t.indexNulls))
      {
        assert name in t'.indices;
      }
    }
  }

  /** A null that the record has once in a null-indexing index, over a tombstone: it is taken for indexed already. */
  predicate MissesNull(t: Table, id: Id, fields: map<string, Attr>, name: string) {
    && RecordOf(t, id).NullRecord? && name in t.indexNulls
    && Count(Keys(ValueOf(Present(fields), name), true), NullKey) == 1
  }

  /** A put or a patch keeps the indexes consistent exactly when it misses no null. */
  lemma WriteExactly(t: Table, id: Id, fields: map<string, Attr>)
    requires Consistent(t)
    ensures Consistent(Written(t, id, fields)) <==> forall name :: name in t.indices ==> !MissesNull(t, id, fields, name)
  {
    var t' := Written(t, id, fields);
    UpdateExactly(t, id, Present(fields), Present(fields), t');
    forall name | name in t.indices
      ensures Exact(t'.indices[name], id, RightKeys(Present(fields), name, name in t.indexNulls)) <==> !MissesNull(t, id, fields, name)
    {
      var nulls := name in t.indexNulls;
      var keys, seen := Keys(ValueOf(Present(fields), name), nulls), Keys(ValueOf(RecordOf(t, id), name), nulls);
      var mine := RightKeys(RecordOf(t, id), name, nulls);
      assert Exact(t.indices[name], id, mine);
      ReindexExactly(t.indices[name], id, keys, seen, mine);
      CountPositive(keys, NullKey);
      forall key | key in keys
        ensures Count(keys, key) > 0
      {
        CountPositive(keys, key);
      }
    }
  }

  /** A delete always keeps them consistent. */
  lemma DeleteKeepsConsistent(t: Table, id: Id, tracked: bool)
    requires Consistent(t)
    ensures Consistent(Deleted(t, id, tracked))
  {
    var t' := Deleted(t, id, tracked);
    UpdateExactly(t, id, RecordOf(t', id), Missing, t');
    forall name | name in t.indices
      ensures Exact(t'.indices[name], id, [])
    {
      var nulls := name in t.indexNulls;
      var mine := RightKeys(RecordOf(t, id), name, nulls);
      assert Exact(t.indices[name], id, mine);
      ReindexExactly(t.indices[name], id, [], Keys(ValueOf(RecordOf(t, id), name), nulls), mine);
    }
  }

  /** A plain invalidation does too. */
  lemma InvalidateKeepsConsistent(t: Table, id: Id)
    requires Consistent(t)
    ensures Consistent(Invalidated(t, id))
  {
    var t' := Invalidated(t, id);
    forall name, other | name in t'.indices
      ensures Exact(t'.indices[name], other, RightKeys(RecordOf(t', other), name, name in t.indexNulls))
    {
      assert Exact(t.indices[name], other, RightKeys(RecordOf(t, other), name, name in t.indexNulls));
    }
  }

  /** An eviction leaves a null pair behind in every index that indexes nulls, and is right in the others. */
  lemma EvictExactly(t: Table, id: Id)
    requires Consistent(t) && RecordOf(t, id).Present?
    ensures Consistent(Evicted(t, id)) <==> forall name :: name in t.indices ==> name !in t.indexNulls
  {
    var t' := Evicted(t, id);
    UpdateExactly(t, id, Missing, NullRecord, t');
    forall name | name in t.indices
      ensures Exact(t'.indices[name], id, []) <==> name !in t.indexNulls
    {
      var nulls := name in t.indexNulls;
      var seen := Keys(ValueOf(RecordOf(t, id), name), nulls);
      assert Exact(t.indices[name], id, seen);
      if nulls {
        assert [NullKey][..0] == [];
        assert Count([NullKey], NullKey) == 1;
        assert (NullKey, id) in t'.indices[name];
      } else {
        ReindexExactly(t.indices[name], id, [], seen, seen);
      }
    }
  }

  // ----- runs

  datatype Operation =
    | Write(id: Id, fields: map<string, Attr>)
    | Delete(id: Id, tracked: bool)
    | Invalidate(id: Id)
    | Evict(id: Id)

  function Done(t: Table, op: Operation): Table {
    match op
    case Write(id, fields) => Written(t, id, fields)
    case Delete(id, tracked) => Deleted(t, id, tracked)
    case Invalidate(id) => Invalidated(t, id)
    case Evict(id) => if RecordOf(t, id).Present? then Evicted(t, id) else t
  }

  function Run(t: Table, ops: seq<Operation>): Table
    decreases |ops|
  {
    if ops == [] then t else Run(Done(t, ops[0]), ops[1..])
  }

  /** Over any run, indexes that do not index nulls are what the primary store says. */
  lemma {:induction false} IndexesFollowPrimary(t: Table, ops: seq<Operation>)
    requires Consistent(t) && forall name :: name in t.indices ==> name !in t.indexNulls
    ensures Consistent(Run(t, ops)) && Run(t, ops).indices.Keys == t.indices.Keys
    decreases |ops|
  {
    if ops == [] {
    } else {
      var t' := Done(t, ops[0]);
      match ops[0] {
        case Write(id, fields) => WriteExactly(t, id, fields);
        case Delete(id, tracked) => DeleteKeepsConsistent(t, id, tracked);
        case Invalidate(id) => InvalidateKeepsConsistent(t, id);
        case Evict(id) => if RecordOf(t, id).Present? { EvictExactly(t, id); }
      }
      assert t'.indices.Keys == t.indices.Keys && t'.indexNulls == t.indexNulls;
      IndexesFollowPrimary(t', ops[1..]);
    }
  }

  /** The same with null-indexing indexes, for runs without evictions in which no write misses a null. */
  ghost predicate KeepsNulls(t: Table, ops: seq<Operation>)
    decreases |ops|
  {
    ops == [] ||
    (&& !ops[0].Evict?
     && (ops[0].Write? ==> forall name :: name in t.indices ==> !MissesNull(t, ops[0].id, ops[0].fields, name))
     && KeepsNulls(Done(t, ops[0]), ops[1..]))
  }

  lemma {:induction false} NullIndexesFollowPrimary(t: Table, ops: seq<Operation>)
    requires Consistent(t) && KeepsNulls(t, ops)
    ensures Consistent(Run(t, ops))
    decreases |ops|
  {
    if ops == [] {
    } else {
      match ops[0] {
        case Write(id, fields) => WriteExactly(t, id, fields);
        case Delete(id, tracked) => DeleteKeepsConsistent(t, id, tracked);
        case Invalidate(id) => InvalidateKeepsConsistent(t, id);
      }
      NullIndexesFollowPrimary(Done(t, ops[0]), ops[1..]);
    }
  }

  // ----- the table as an object

  lemma SameChangesNothing(pairs: set<(Key, Id)>, id: Id, value: Attr, indexNulls: bool)
    requires !value.List?
    ensures Reindexed(pairs, id, Keys(value, indexNulls), Keys(value, indexNulls)) == pairs
  {
    var keys := Keys(value, indexNulls);
    assert |keys| == 1 ==> keys[..0] == [];
    assert forall key :: Count(keys, key) <= 1;
  }

  class TableResource {
    var primary: map<Id, Record>
    var indices: map<string, set<(Key, Id)>>
    const indexNulls: set<string>

    constructor (indices: map<string, set<(Key, Id)>>, indexNulls: set<string>)
      ensures View() == Table(map[], indices, indexNulls)
    {
      this.primary := map[];
      this.indices := indices;
      this.indexNulls := indexNulls;
    }

    function View(): Table
      reads this
    {
      Table(primary, indices, indexNulls)
    }

    static method UpdateOne(pairs: set<(Key, Id)>, id: Id, existing: Record, record: Record, name: string, indexNulls: bool)
      returns (updated: set<(Key, Id)>)
      ensures updated == UpdatedIndex(pairs, id, existing, record, name, indexNulls)
    {
      var value, existingValue := ValueOf(record, name), ValueOf(existing, name);
      var same := value == existingValue && !value.List? && !value.Date? && !value.Other?;
      updated := UpdateIndex(pairs, id, value, existingValue, indexNulls, false, same);
      if same {
        SameChangesNothing(pairs, id, value, indexNulls);
      }
    }

    /** One index after the other; every value is compared as a fresh copy, so lists are never `===`. */
    method UpdateIndices(id: Id, existingRecord: Record, record: Record)
      modifies this`indices
      ensures indices == UpdatedIndices(old(View()), id, existingRecord, record)
    {
      indices := UpdateEach(View(), id, existingRecord, record);
    }

    method WriteRecord(id: Id, fields: map<string, Attr>)
      modifies this
      ensures View() == Written(old(View()), id, fields)
    {
      UpdateIndices(id, if id in primary then primary[id] else Missing, Present(fields));
      primary := primary[id := Present(fields)];
    }

    method DeleteRecord(id: Id, trackDeletes: bool)
      modifies this
      ensures View() == Deleted(old(View()), id, trackDeletes)
    {
      UpdateIndices(id, if id in primary then primary[id] else Missing, Missing);
      primary := if trackDeletes then primary[id := NullRecord] else primary - {id};
    }

    method EvictRecord(id: Id)
      modifies this
      ensures View() == Done(old(View()), Evict(id))
    {
      if id !in primary || !primary[id].Present? {
        return;
      }
      UpdateIndices(id, primary[id], NullRecord);
      primary := primary - {id};
    }
  }

  method UpdateEach(t: Table, id: Id, existing: Record, record: Record) returns (updated: map<string, set<(Key, Id)>>)
    ensures updated == UpdatedIndices(t, id, existing, record)
  {
    updated := map[];
    var todo := t.indices.Keys;
    while todo != {}
      invariant todo <= t.indices.Keys && updated.Keys == t.indices.Keys - todo
      invariant forall name {:trigger updated[name]} :: name in updated ==> updated[name] == UpdatedIndices(t, id, existing, record)[name]
    {
      var name :| name in todo;
      var pairs := TableResource.UpdateOne(t.indices[name], id, existing, record, name, name in t.indexNulls);
      updated := updated[name := pairs];
      todo := todo - {name};
    }
    assert updated == UpdatedIndices(t, id, existing, record);
  }
}
