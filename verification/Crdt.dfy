/**
 Record updates and the `add` operation (resources/crdt.ts), and the application of an update
 to a record (`updateAndFreeze` in resources/tracked.ts).

 A JavaScript object is a map from property name to cell. A cell holds a plain value or an
 operation object `{ __op__: 'add', value }`.
 */
module Crdt {
  import opened Wrappers

  type Key = string

  /** `Other` stands for what `isNaN` calls not a number: text that does not spell one, and nested objects. */
  datatype Value = Num(n: int) | Big(n: int) | Bool(b: bool) | Null | Other(text: string)

  datatype Cell = Plain(value: Value) | Op(amount: int)

  type Object = map<Key, Cell>

  // ----- add and its reverse

  /** The cell that `add` leaves behind: bigint and number add up, anything that is not a number is replaced. */
  function Added(previous: Option<Cell>, amount: int): Cell {
    match previous
    case Some(Plain(Big(n))) => Plain(Big(n + amount))
    case Some(Plain(Num(n))) => Plain(Num(n + amount))
    case Some(Plain(Bool(b))) => Plain(Num((if b then 1 else 0) + amount))
    case Some(Plain(Null)) => Plain(Num(amount))
    case _ => Plain(Num(amount))
  }

  /** The cell that `add.reverse` leaves behind; a value that is not a number stays as it is. */
  function Subtracted(previous: Cell, amount: int): Cell {
    match previous
    case Plain(Big(n)) => Plain(Big(n - amount))
    case Plain(Num(n)) => Plain(Num(n - amount))
    case Plain(Bool(b)) => Plain(Num((if b then 1 else 0) - amount))
    case Plain(Null) => Plain(Num(-amount))
    case _ => previous
  }

  predicate IsNumber(cell: Cell) {
    cell.Plain? && (cell.value.Num? || cell.value.Big?)
  }

  predicate CellIsNumber(cell: Option<Cell>) {
    cell.Some? && IsNumber(cell.value)
  }

  /** The number that arithmetic takes a cell for: booleans and null count, and everything else is none. */
  function Reading(cell: Option<Cell>): Option<int> {
    match cell
    case Some(Plain(Num(n))) => Some(n)
    case Some(Plain(Big(n))) => Some(n)
    case Some(Plain(Bool(b))) => Some(if b then 1 else 0)
    case Some(Plain(Null)) => Some(0)
    case _ => None
  }

  predicate IsBig(cell: Option<Cell>) {
    cell.Some? && cell.value.Plain? && cell.value.value.Big?
  }

  /** An increment raises what counts as a number by the amount, leaves the amount in place of everything else, and keeps bigints. */
  lemma IncrementRaises(previous: Option<Cell>, amount: int)
    ensures var after := Some(Added(previous, amount));
            && Reading(after) == Some((if Reading(previous).Some? then Reading(previous).value else 0) + amount)
            && CellIsNumber(after) && (IsBig(after) <==> IsBig(previous))
  {
  }

  /** Its reverse lowers what counts as a number by the amount, touches nothing else, and keeps bigints. */
  lemma ReverseLowers(previous: Cell, amount: int)
    ensures var before, after := Some(previous), Some(Subtracted(previous, amount));
            && (Reading(before).Some? ==> Reading(after) == Some(Reading(before).value - amount) && CellIsNumber(after))
            && (Reading(before).None? ==> after == before)
            && (IsBig(after) <==> IsBig(before))
  {
  }

  /** Adding and then reversing restores a cell exactly when it held a number or a bigint. */
  lemma SubtractedUndoesAdded(previous: Cell, amount: int)
    ensures Subtracted(Added(Some(previous), amount), amount) == previous <==> IsNumber(previous)
  {
  }

  /** `isNaN`, which coerces null, booleans and numbers but no other value. It is not asked about a bigint. */
  predicate IsNaN(cell: Option<Cell>) {
    cell.None? || cell.value.Op? || cell.value.value.Other?
  }

  function ToNumber(v: Value): int
    requires v.Num? || v.Bool? || v.Null?
  {
    match v
    case Num(n) => n
    case Bool(b) => if b then 1 else 0
    case Null => 0
  }

  /** A property holder that `add` and `add.reverse` change in place. */
  class Fields {
    var cells: Object

    constructor (cells: Object)
      ensures this.cells == cells
    {
      this.cells := cells;
    }

    method Add(property: Key, amount: int)
      modifies this
      ensures cells == old(cells)[property := Added(Lookup(old(cells), property), amount)]
      ensures var before := Reading(Lookup(old(cells), property));
              Reading(Lookup(cells, property)) == Some((if before.Some? then before.value else 0) + amount)
      ensures IsBig(Lookup(cells, property)) <==> IsBig(Lookup(old(cells), property))
    {
      var previousValue := Lookup(cells, property);
      if previousValue.Some? && previousValue.value.Plain? && previousValue.value.value.Big? {
        cells := cells[property := Plain(Big(previousValue.value.value.n + amount))];
      } else if IsNaN(previousValue) {
        cells := cells[property := Plain(Num(amount))];
      } else {
        cells := cells[property := Plain(Num(ToNumber(previousValue.value.value) + amount))];
      }
    }

    method ReverseAdd(property: Key, amount: int)
      modifies this
      ensures property !in old(cells) ==> cells == old(cells)
      ensures property in old(cells) ==> cells == old(cells)[property := Subtracted(old(cells)[property], amount)]
      ensures var before := Reading(Lookup(old(cells), property));
              if before.Some? then Reading(Lookup(cells, property)) == Some(before.value - amount) else cells == old(cells)
      ensures IsBig(Lookup(cells, property)) <==> IsBig(Lookup(old(cells), property))
    {
      var previousValue := Lookup(cells, property);
      if previousValue.Some? && previousValue.value.Plain? && previousValue.value.value.Big? {
        cells := cells[property := Plain(Big(previousValue.value.value.n - amount))];
      } else if !IsNaN(previousValue) {
        cells := cells[property := Plain(Num(ToNumber(previousValue.value.value) - amount))];
      } else {
        assert property in cells ==> cells == cells[property := Subtracted(cells[property], amount)];
      }
    }
  }

  // ----- applying an update

  function AppliedCell(previous: Option<Cell>, change: Cell): Cell {
    if change.Op? then Added(previous, change.amount) else change
  }

  function Apply(record: Object, update: Object): Object {
    map key | key in record.Keys + update.Keys ::
      if key in update then AppliedCell(Lookup(record, key), update[key]) else record[key]
  }

  lemma AppliedLookup(record: Object, update: Object, key: Key)
    ensures Lookup(Apply(record, update), key)
         == if key in update then Some(AppliedCell(Lookup(record, key), update[key])) else Lookup(record, key)
  {
  }

  /** Whether a change leaves a cell as it is. */
  predicate NoEffect(cell: Option<Cell>, change: Cell) {
    if change.Op? then change.amount == 0 && CellIsNumber(cell) else cell == Some(change)
  }

  predicate ChangesNothing(record: Object, update: Object) {
    forall key :: key in update ==> NoEffect(Lookup(record, key), update[key])
  }

  lemma ChangesNothingExactly(record: Object, update: Object)
    ensures Apply(record, update) == record <==> ChangesNothing(record, update)
  {
    var applied := Apply(record, update);
    if applied == record {
      forall key | key in update
        ensures NoEffect(Lookup(record, key), update[key])
      {
        assert key in applied && applied[key] == AppliedCell(Lookup(record, key), update[key]);
      }
    }
    if ChangesNothing(record, update) {
      forall key | key in update
        ensures key in record && applied[key] == record[key]
      {
      }
      assert applied.Keys == record.Keys;
    }
  }

  /** A patch sets the keys that it names with a value, raises those that it increments, and keeps all others. */
  lemma PatchTells(record: Object, patch: Object, key: Key)
    ensures var before, after := Lookup(record, key), Lookup(Apply(record, patch), key);
            && (key !in patch ==> after == before)
            && (key in patch && patch[key].Plain? ==> after == Some(patch[key]))
            && (key in patch && patch[key].Op? ==>
                  Reading(after) == Some((if Reading(before).Some? then Reading(before).value else 0) + patch[key].amount)
                  && CellIsNumber(after) && (IsBig(after) <==> IsBig(before)))
  {
    AppliedLookup(record, patch, key);
    if key in patch && patch[key].Op? {
      IncrementRaises(Lookup(record, key), patch[key].amount);
    }
  }

  function ApplyAll(record: Object, updates: seq<Object>): Object
    decreases |updates|
  {
    if updates == [] then record else ApplyAll(Apply(record, updates[0]), updates[1..])
  }

  /** `updateAndFreeze(record, changes)`: copy the record, then let each change overwrite or operate. */
  method UpdateAndFreeze(record: Object, changes: Object) returns (merged: Object)
    ensures merged == Apply(record, changes)
  {
    merged := record;
    var todo := changes.Keys;
    while todo != {}
      invariant todo <= changes.Keys
      invariant merged.Keys == record.Keys + (changes.Keys - todo)
      invariant forall key :: key in merged ==>
        merged[key] == if key in changes && key !in todo then AppliedCell(Lookup(record, key), changes[key]) else record[key]
    {
      var key :| key in todo;
      var value := changes[key];
      if value.Op? {
        var target := new Fields(merged);
        target.Add(key, value.amount);
        merged := target.cells;
      } else {
        merged := merged[key := value];
      }
      todo := todo - {key};
    }
  }

  // ----- rebuilding an update that precedes a newer one

  /** Whether the rebuilt update still has something to say about `key`. */
  predicate Survives(update: Object, newer: Object, fullUpdate: bool, key: Key)
    requires key in update
  {
    key !in newer || newer[key].Op? || fullUpdate
  }

  function RebuiltCell(update: Object, newer: Object, key: Key): Cell
    requires key in update
  {
    if key !in newer then update[key]
    else if newer[key].Plain? then newer[key]
    else if update[key].Op? then update[key]
    else Added(Some(update[key]), newer[key].amount)
  }

  /** The rebuilt update; the empty map stands for the source's null. */
  function Rebuilt(update: Object, newer: Object, fullUpdate: bool): Object {
    map key | key in update && Survives(update, newer, fullUpdate, key) :: RebuiltCell(update, newer, key)
  }

  method RebuildUpdateBefore(update: Object, newerUpdate: Object, fullUpdate: bool) returns (newUpdate: Option<Object>)
    ensures newUpdate.None? <==> Rebuilt(update, newerUpdate, fullUpdate) == map[]
    ensures newUpdate.Some? ==> newUpdate.value == Rebuilt(update, newerUpdate, fullUpdate)
  {
    newUpdate := None;
    ghost var rebuilt := Rebuilt(update, newerUpdate, fullUpdate);
    var todo := update.Keys;
    while todo != {}
      invariant todo <= update.Keys
      invariant newUpdate.None? ==> forall key :: key in rebuilt ==> key in todo
      invariant newUpdate.Some? ==> newUpdate.value != map[]
      invariant newUpdate.Some? ==> newUpdate.value.Keys == rebuilt.Keys - todo
      invariant newUpdate.Some? ==> forall key :: key in newUpdate.value ==> newUpdate.value[key] == rebuilt[key]
    {
      var key :| key in todo;
      var target := new Fields(if newUpdate.None? then map[] else newUpdate.value);
      var value := update[key];
      if key in newerUpdate {
        var newerValue := newerUpdate[key];
        if newerValue.Op? {
          target.cells := target.cells[key := value];
          if !value.Op? {
            target.Add(key, newerValue.amount);
          }
          assert key in target.cells;
          newUpdate := Some(target.cells);
        } else if fullUpdate {
          target.cells := target.cells[key := newerValue];
          assert key in target.cells;
          newUpdate := Some(target.cells);
        }
      } else {
        target.cells := target.cells[key := value];
        assert key in target.cells;
        newUpdate := Some(target.cells);
      }
      todo := todo - {key};
    }
  }

  lemma CellTransposes(previous: Option<Cell>, change: Cell, increment: int)
    ensures AppliedCell(Some(Added(previous, increment)), if change.Op? then change else Added(Some(change), increment))
            == Added(Some(AppliedCell(previous, change)), increment)
  {
  }

  /**
   The transposition law behind resequencing: on top of a record that already holds the newer
   patch, the rebuilt patch has the effect of applying both in timestamp order.
   */
  lemma RebuiltTransposes(record: Object, update: Object, newer: Object)
    ensures Apply(Apply(record, newer), Rebuilt(update, newer, false)) == Apply(Apply(record, update), newer)
  {
    var rebuilt := Rebuilt(update, newer, false);
    var late := Apply(Apply(record, newer), rebuilt);
    var inOrder := Apply(Apply(record, update), newer);
    assert late.Keys == inOrder.Keys;
    forall key | key in late
      ensures late[key] == inOrder[key]
    {
      if key in rebuilt && key in newer {
        CellTransposes(Lookup(record, key), update[key], newer[key].amount);
      }
    }
  }

  /** An empty update changes nothing, which is what makes the early exit on null right. */
  lemma ApplyEmpty(record: Object)
    ensures Apply(record, map[]) == record
  {
  }

  function RebuiltThrough(update: Object, newer: seq<Object>, fullUpdate: bool): Object {
    if newer == [] then update
    else RebuiltThrough(Rebuilt(update, newer[0], fullUpdate), newer[1..], fullUpdate)
  }

  lemma {:induction false} RebuiltThroughEmpty(newer: seq<Object>, fullUpdate: bool)
    ensures RebuiltThrough(map[], newer, fullUpdate) == map[]
  {
    if newer == [] {
    } else {
      assert Rebuilt(map[], newer[0], fullUpdate) == map[];
      RebuiltThroughEmpty(newer[1..], fullUpdate);
    }
  }

  /** A late patch, rebuilt through any list of later patches, ends where timestamp order ends. */
  lemma {:induction false} LatePatch(record: Object, update: Object, newer: seq<Object>)
    ensures Apply(ApplyAll(record, newer), RebuiltThrough(update, newer, false)) == ApplyAll(Apply(record, update), newer)
    decreases |newer|
  {
    if newer == [] {
    } else {
      RebuiltTransposes(record, update, newer[0]);
      LatePatch(Apply(record, newer[0]), Rebuilt(update, newer[0], false), newer[1..]);
    }
  }

  // ----- a late full update

  /** No cell holds an unresolved operation, as in the flattened record of a put. */
  predicate Resolved(record: Object) {
    forall key :: key in record ==> record[key].Plain?
  }

  /** What a list of updates does to one property. */
  function CellThrough(cell: Option<Cell>, updates: seq<Object>, key: Key): Option<Cell>
    decreases |updates|
  {
    if updates == [] then cell
    else if key in updates[0] then CellThrough(Some(AppliedCell(cell, updates[0][key])), updates[1..], key)
    else CellThrough(cell, updates[1..], key)
  }

  lemma {:induction false} CellHistory(record: Object, updates: seq<Object>, key: Key)
    ensures Lookup(ApplyAll(record, updates), key) == CellThrough(Lookup(record, key), updates, key)
    decreases |updates|
  {
    if updates == [] {
    } else {
      CellHistory(Apply(record, updates[0]), updates[1..], key);
    }
  }

  /** A late put is rebuilt to exactly its own keys, each with the value it has after the later patches. */
  lemma {:induction false} LatePutRebuilt(put: Object, newer: seq<Object>)
    requires Resolved(put)
    ensures RebuiltThrough(put, newer, true).Keys == put.Keys
    ensures Resolved(RebuiltThrough(put, newer, true))
    ensures put.Keys <= ApplyAll(put, newer).Keys
    ensures forall key :: key in put ==> RebuiltThrough(put, newer, true)[key] == ApplyAll(put, newer)[key]
  {
    if newer == [] {
    } else {
      var rebuilt := Rebuilt(put, newer[0], true);
      assert rebuilt.Keys == put.Keys;
      LatePutRebuilt(rebuilt, newer[1..]);
      forall key | key in put
        ensures key in ApplyAll(put, newer) && ApplyAll(rebuilt, newer[1..])[key] == ApplyAll(put, newer)[key]
      {
        CellHistory(rebuilt, newer[1..], key);
        CellHistory(Apply(put, newer[0]), newer[1..], key);
      }
    }
  }

  /** The stored record after a late put agrees with timestamp order on every key the put names. */
  lemma LatePutOnItsKeys(record: Object, put: Object, newer: seq<Object>, key: Key)
    requires Resolved(put) && key in put
    ensures var stored := Apply(ApplyAll(record, newer), RebuiltThrough(put, newer, true));
            key in stored && key in ApplyAll(put, newer) && stored[key] == ApplyAll(put, newer)[key]
  {
    LatePutRebuilt(put, newer);
  }

  predicate Overwritten(newer: seq<Object>, key: Key) {
    exists i :: 0 <= i < |newer| && key in newer[i] && newer[i][key].Plain?
  }

  predicate Incremented(newer: seq<Object>, key: Key) {
    exists i :: 0 <= i < |newer| && key in newer[i] && newer[i][key].Op?
  }

  /** An increment cannot tell this cell from a missing one. */
  predicate CountsAsZero(cell: Cell) {
    match cell
    case Plain(Num(n)) => n == 0
    case Plain(Big(_)) => false
    case Plain(Bool(b)) => !b
    case _ => true
  }

  lemma OverwrittenStep(updates: seq<Object>, key: Key)
    requires updates != []
    ensures Overwritten(updates, key) <==> (key in updates[0] && updates[0][key].Plain?) || Overwritten(updates[1..], key)
    ensures Incremented(updates, key) <==> (key in updates[0] && updates[0][key].Op?) || Incremented(updates[1..], key)
  {
    if Overwritten(updates[1..], key) {
      var i :| 0 <= i < |updates[1..]| && key in updates[1..][i] && updates[1..][i][key].Plain?;
      assert key in updates[i + 1] && updates[i + 1][key].Plain?;
    }
    if Incremented(updates[1..], key) {
      var i :| 0 <= i < |updates[1..]| && key in updates[1..][i] && updates[1..][i][key].Op?;
      assert key in updates[i + 1] && updates[i + 1][key].Op?;
    }
    if Overwritten(updates, key) && !(key in updates[0] && updates[0][key].Plain?) {
      var i :| 0 <= i < |updates| && key in updates[i] && updates[i][key].Plain?;
      assert updates[1..][i - 1] == updates[i];
    }
    if Incremented(updates, key) && !(key in updates[0] && updates[0][key].Op?) {
      var i :| 0 <= i < |updates| && key in updates[i] && updates[i][key].Op?;
      assert updates[1..][i - 1] == updates[i];
    }
  }

  /** Two cells become equal under later patches when these overwrite them, or add to what counts as the same number. */
  lemma {:induction false} SameThroughExactly(x: Option<Cell>, y: Option<Cell>, updates: seq<Object>, key: Key)
    ensures CellThrough(x, updates, key) == CellThrough(y, updates, key)
            <==> x == y || Overwritten(updates, key) || (Incremented(updates, key) && Added(x, 0) == Added(y, 0))
    decreases |updates|
  {
    if updates == [] {
    } else {
      OverwrittenStep(updates, key);
      if key !in updates[0] {
        SameThroughExactly(x, y, updates[1..], key);
      } else if updates[0][key].Op? {
        SameThroughExactly(Some(AppliedCell(x, updates[0][key])), Some(AppliedCell(y, updates[0][key])), updates[1..], key);
      }
    }
  }

  /** When later patches erase every trace of a key that the late put should have removed. */
  predicate Forgotten(cell: Cell, newer: seq<Object>, key: Key) {
    Overwritten(newer, key) || (Incremented(newer, key) && CountsAsZero(cell))
  }

  lemma ForgottenExactly(cell: Cell, newer: seq<Object>, key: Key)
    ensures CellThrough(Some(cell), newer, key) == CellThrough(None, newer, key) <==> Forgotten(cell, newer, key)
  {
    SameThroughExactly(Some(cell), None, newer, key);
  }

  /** Two lists of later patches do the same to each key of a put. */
  predicate SameOnKeys(put: Object, a: seq<Object>, b: seq<Object>) {
    forall key :: key in put ==> CellThrough(Some(put[key]), a, key) == CellThrough(Some(put[key]), b, key)
  }

  /** What a late put stores under one key, when it is rebuilt through the later patches in some other order. */
  lemma LatePutCell(record: Object, put: Object, newer: seq<Object>, gathered: seq<Object>, key: Key)
    requires Resolved(put)
    ensures var stored := Lookup(Apply(ApplyAll(record, newer), RebuiltThrough(put, gathered, true)), key);
            && (key in put ==> stored == CellThrough(Some(put[key]), gathered, key))
            && (key !in put ==> stored == CellThrough(Lookup(record, key), newer, key))
    ensures Lookup(ApplyAll(put, newer), key) == CellThrough(Lookup(put, key), newer, key)
  {
    LatePutRebuilt(put, gathered);
    CellHistory(put, gathered, key);
    CellHistory(put, newer, key);
    CellHistory(record, newer, key);
  }

  lemma SameLookups(a: Object, b: Object)
    ensures a == b <==> forall key :: Lookup(a, key) == Lookup(b, key)
  {
    if forall key :: Lookup(a, key) == Lookup(b, key) {
      forall key
        ensures key in a <==> key in b
        ensures key in a ==> a[key] == b[key]
      {
        assert Lookup(a, key) == Lookup(b, key);
      }
      assert a == b;
    }
  }

  /**
   A late put that has been rebuilt through the later patches in another order: what is stored is the record of
   timestamp order exactly when the order makes no difference to the keys of the put, and every other key is forgettable.
   */
  lemma LatePutThrough(record: Object, put: Object, newer: seq<Object>, gathered: seq<Object>)
    requires Resolved(put)
    ensures Apply(ApplyAll(record, newer), RebuiltThrough(put, gathered, true)) == ApplyAll(put, newer)
            <==> SameOnKeys(put, gathered, newer) && forall key :: key in record && key !in put ==> Forgotten(record[key], newer, key)
  {
    var stored, inOrder := Apply(ApplyAll(record, newer), RebuiltThrough(put, gathered, true)), ApplyAll(put, newer);
    forall key
      ensures Lookup(stored, key) == Lookup(inOrder, key)
         <==> (key in put ==> CellThrough(Some(put[key]), gathered, key) == CellThrough(Some(put[key]), newer, key))
              && (key in record && key !in put ==> Forgotten(record[key], newer, key))
    {
      LatePutCell(record, put, newer, gathered, key);
      if key in record {
        ForgottenExactly(record[key], newer, key);
      }
    }
    SameLookups(stored, inOrder);
  }

  /**
   A late put does not remove old keys that it leaves out. The stored record is nevertheless the
   one of timestamp order exactly when the later patches have made every such key forgettable.
   */
  lemma LatePutExactly(record: Object, put: Object, newer: seq<Object>)
    requires Resolved(put)
    ensures Apply(ApplyAll(record, newer), RebuiltThrough(put, newer, true)) == ApplyAll(put, newer)
            <==> forall key :: key in record && key !in put ==> Forgotten(record[key], newer, key)
  {
    LatePutThrough(record, put, newer, newer);
  }

  /**
   A late delete is dropped. What stays is nevertheless the record of timestamp order, later patches
   applied to nothing, exactly when those patches have made every old key forgettable.
   */
  lemma LateDeleteExactly(record: Object, newer: seq<Object>)
    ensures ApplyAll(record, newer) == ApplyAll(map[], newer) <==> forall key :: key in record ==> Forgotten(record[key], newer, key)
  {
    RebuiltThroughEmpty(newer, true);
    ApplyEmpty(ApplyAll(record, newer));
    LatePutExactly(record, map[], newer);
  }

  // ----- a patch or a put that is taken for the newest

  function Increments(updates: seq<Object>, key: Key): int {
    if updates == [] then 0
    else Increments(updates[1..], key) + if key in updates[0] && updates[0][key].Op? then updates[0][key].amount else 0
  }

  lemma {:induction false} IncrementsAdd(cell: Option<Cell>, updates: seq<Object>, key: Key)
    requires !Overwritten(updates, key)
    ensures !Incremented(updates, key) ==> CellThrough(cell, updates, key) == cell && Increments(updates, key) == 0
    ensures Incremented(updates, key) ==> CellThrough(cell, updates, key) == Some(Added(cell, Increments(updates, key)))
    decreases |updates|
  {
    if updates == [] {
    } else {
      OverwrittenStep(updates, key);
      IncrementsAdd(if key in updates[0] then Some(AppliedCell(cell, updates[0][key])) else cell, updates[1..], key);
    }
  }

  /** Later patches leave a cell as it is: they end in the same value, or add up to nothing. */
  predicate Kept(cell: Option<Cell>, newer: seq<Object>, key: Key) {
    if Overwritten(newer, key) then CellThrough(None, newer, key) == cell
    else Incremented(newer, key) ==> CellIsNumber(cell) && Increments(newer, key) == 0
  }

  lemma KeptExactly(cell: Option<Cell>, newer: seq<Object>, key: Key)
    ensures CellThrough(cell, newer, key) == cell <==> Kept(cell, newer, key)
  {
    if Overwritten(newer, key) {
      SameThroughExactly(cell, None, newer, key);
    } else {
      IncrementsAdd(cell, newer, key);
    }
  }

  /** A late patch is rebuilt to the keys that no later patch overwrites, each with what is added to its value later. */
  lemma {:induction false} LatePatchRebuilt(patch: Object, newer: seq<Object>, key: Key)
    ensures Lookup(RebuiltThrough(patch, newer, false), key)
         == if key !in patch || Overwritten(newer, key) then None
            else if patch[key].Op? then Some(patch[key])
            else CellThrough(Some(patch[key]), newer, key)
    decreases |newer|
  {
    if newer == [] {
    } else {
      OverwrittenStep(newer, key);
      LatePatchRebuilt(Rebuilt(patch, newer[0], false), newer[1..], key);
    }
  }

  /** A patch does the same to a record as the one that is rebuilt through later patches. */
  predicate SameUnrebuilt(record: Object, patch: Object, newer: seq<Object>) {
    forall key :: key in patch ==>
      if Overwritten(newer, key) then NoEffect(Lookup(record, key), patch[key])
      else patch[key].Plain? && Incremented(newer, key) ==> IsNumber(patch[key]) && Increments(newer, key) == 0
  }

  lemma SameUnrebuiltCell(record: Object, patch: Object, newer: seq<Object>, key: Key)
    requires key in patch
    ensures Lookup(Apply(record, patch), key) == Lookup(Apply(record, RebuiltThrough(patch, newer, false)), key)
       <==> if Overwritten(newer, key) then NoEffect(Lookup(record, key), patch[key])
            else patch[key].Plain? && Incremented(newer, key) ==> IsNumber(patch[key]) && Increments(newer, key) == 0
  {
    LatePatchRebuilt(patch, newer, key);
    AppliedLookup(record, patch, key);
    AppliedLookup(record, RebuiltThrough(patch, newer, false), key);
    if patch[key].Plain? && !Overwritten(newer, key) {
      KeptExactly(Some(patch[key]), newer, key);
      IncrementsAdd(Some(patch[key]), newer, key);
    }
  }

  lemma SameUnrebuiltExactly(record: Object, patch: Object, newer: seq<Object>)
    ensures Apply(record, patch) == Apply(record, RebuiltThrough(patch, newer, false)) <==> SameUnrebuilt(record, patch, newer)
  {
    var unrebuilt, rebuilt := Apply(record, patch), Apply(record, RebuiltThrough(patch, newer, false));
    forall key
      ensures Lookup(unrebuilt, key) == Lookup(rebuilt, key)
         <==> (key in patch ==>
                 if Overwritten(newer, key) then NoEffect(Lookup(record, key), patch[key])
                 else patch[key].Plain? && Incremented(newer, key) ==> IsNumber(patch[key]) && Increments(newer, key) == 0)
    {
      if key in patch {
        SameUnrebuiltCell(record, patch, newer, key);
      } else {
        LatePatchRebuilt(patch, newer, key);
      }
    }
    SameLookups(unrebuilt, rebuilt);
  }

  /** Later patches leave a whole record as it is. */
  lemma KeptThroughout(record: Object, newer: seq<Object>)
    ensures ApplyAll(record, newer) == record <==> forall key :: Kept(Lookup(record, key), newer, key)
  {
    forall key
      ensures Lookup(ApplyAll(record, newer), key) == Lookup(record, key) <==> Kept(Lookup(record, key), newer, key)
    {
      CellHistory(record, newer, key);
      KeptExactly(Lookup(record, key), newer, key);
    }
    SameLookups(ApplyAll(record, newer), record);
  }

  /** A concrete late put after which an old key is still there: put {a} behind patch {a}, over {a, b}. */
  lemma LatePutKeepsOldKey()
    ensures var record: Object := map["a" := Plain(Num(1)), "b" := Plain(Num(2))];
            var put: Object := map["a" := Plain(Num(3))];
            var newer: Object := map["a" := Plain(Num(4))];
            "b" in Apply(ApplyAll(record, [newer]), RebuiltThrough(put, [newer], true)) && "b" !in ApplyAll(put, [newer])
  {
    var record: Object := map["a" := Plain(Num(1)), "b" := Plain(Num(2))];
    var put: Object := map["a" := Plain(Num(3))];
    var newer: Object := map["a" := Plain(Num(4))];
    CellHistory(record, [newer], "b");
    CellHistory(put, [newer], "b");
    assert Lookup(ApplyAll(record, [newer]), "b") == Some(Plain(Num(2)));
    assert Lookup(ApplyAll(put, [newer]), "b") == None;
  }
}
