/**
 Puts and deletes that arrive in any order, possibly more than once (`_writeUpdate` with a full
 update and `_writeDelete` in resources/Table.ts): the greatest timestamp and node name wins.
 Auditing is on, the history is retained and every entry carries its node id.
 */
module LastWriter {
  import opened Wrappers
  import opened Ordering
  import opened Versions
  import opened Crdt

  /** A put of a whole record, or a delete when there is no value. */
  datatype Operation = Operation(time: nat, nodeId: int, value: Option<Object>)

  /** The stored entry; a delete leaves a tombstone, an entry without a value. */
  datatype Entry = Entry(stamp: Stamp, value: Option<Object>)

  function EntryOf(op: Operation): Entry {
    Entry(Stamp(op.time, Some(op.nodeId)), op.value)
  }

  ghost function Stored(names: map<string, int>, entry: Option<Entry>, op: Operation): Option<Entry> {
    var existing := if entry.Some? then Some(entry.value.stamp) else None;
    if Precedence(names, op.time, existing, Some(op.nodeId)) > 0 then Some(EntryOf(op)) else entry
  }

  function Max(a: int, b: int): int {
    if a < b then b else a
  }

  class RecordSlot {
    var entry: Option<Entry>

    constructor ()
      ensures entry == None
    {
      entry := None;
    }

    method Put(names: map<string, int>, txnTime: nat, nodeId: int, recordUpdate: Object)
      requires Distinct(names)
      modifies this
      ensures entry == Stored(names, old(entry), Operation(txnTime, nodeId, Some(recordUpdate)))
    {
      var existing := if entry.Some? then Some(entry.value.stamp) else None;
      var precedesExisting := PrecedesExistingVersion(names, None, txnTime, existing, Some(nodeId));
      if precedesExisting <= 0 {
        return; // the audit entry of the existing version is a put or a delete, which supersedes this one
      }
      var version := Max(txnTime, if entry.Some? then entry.value.stamp.version else 0);
      entry := Some(Entry(Stamp(version, Some(nodeId)), Some(recordUpdate)));
    }

    method Delete(names: map<string, int>, txnTime: nat, nodeId: int)
      requires Distinct(names)
      modifies this
      ensures entry == Stored(names, old(entry), Operation(txnTime, nodeId, None))
    {
      var existing := if entry.Some? then Some(entry.value.stamp) else None;
      var precedesExisting := PrecedesExistingVersion(names, None, txnTime, existing, Some(nodeId));
      if precedesExisting <= 0 {
        return; // a newer record exists locally
      }
      entry := Some(Entry(Stamp(txnTime, Some(nodeId)), None));
    }
  }

  // ----- the order of operations

  ghost predicate Named(names: map<string, int>, op: Operation) {
    exists name :: name in names && names[name] == op.nodeId
  }

  ghost function Name(names: map<string, int>, op: Operation): string
    requires Named(names, op)
  {
    NameOf(names, Some(op.nodeId)).value
  }

  ghost predicate Before(names: map<string, int>, a: Operation, b: Operation)
    requires Named(names, a) && Named(names, b)
  {
    a.time < b.time || (a.time == b.time && TextLess(Name(names, a), Name(names, b)))
  }

  lemma SameNameSameNode(names: map<string, int>, a: Operation, b: Operation)
    requires Distinct(names) && Named(names, a) && Named(names, b)
    ensures Name(names, a) == Name(names, b) <==> a.nodeId == b.nodeId
  {
    assert names[Name(names, a)] == a.nodeId && names[Name(names, b)] == b.nodeId;
  }

  /** (timestamp, node name) orders the operations totally; equal stamps are the same operation's. */
  lemma BeforeIsTotalOrder(names: map<string, int>, a: Operation, b: Operation, c: Operation)
    requires Distinct(names) && Named(names, a) && Named(names, b) && Named(names, c)
    ensures Before(names, a, b) || Before(names, b, a) || (a.time == b.time && a.nodeId == b.nodeId)
    ensures !(Before(names, a, b) && Before(names, b, a))
    ensures !Before(names, a, a)
    ensures Before(names, a, b) && Before(names, b, c) ==> Before(names, a, c)
  {
    SameNameSameNode(names, a, b);
    TextLessTrichotomy(Name(names, a), Name(names, b));
    TextLessIrreflexive(Name(names, a));
    if Before(names, a, b) && Before(names, b, c) && a.time == b.time == c.time {
      TextLessTransitive(Name(names, a), Name(names, b), Name(names, c));
    }
  }

  /** The commit's three-way comparison is that order. */
  lemma PrecedenceIsBefore(names: map<string, int>, a: Operation, b: Operation)
    requires Distinct(names) && Named(names, a) && Named(names, b)
    ensures Precedence(names, b.time, Some(Stamp(a.time, Some(a.nodeId))), Some(b.nodeId)) > 0 <==> Before(names, a, b)
    ensures Precedence(names, b.time, Some(Stamp(a.time, Some(a.nodeId))), Some(b.nodeId)) == 0
            <==> a.time == b.time && a.nodeId == b.nodeId
  {
    SameNameSameNode(names, a, b);
    TextLessIrreflexive(Name(names, a));
  }

  // ----- whole runs

  ghost function Run(names: map<string, int>, entry: Option<Entry>, arrivals: seq<Operation>): Option<Entry>
    decreases |arrivals|
  {
    if arrivals == [] then entry else Run(names, Stored(names, entry, arrivals[0]), arrivals[1..])
  }

  function Members(arrivals: seq<Operation>): set<Operation> {
    set a | a in arrivals
  }

  /** Operations with one stamp are one operation, delivered again. */
  ghost predicate Consistent(names: map<string, int>, arrivals: set<Operation>) {
    && (forall a :: a in arrivals ==> Named(names, a))
    && (forall a, b :: a in arrivals && b in arrivals && a.time == b.time && a.nodeId == b.nodeId ==> a == b)
  }

  ghost predicate Greatest(names: map<string, int>, arrivals: set<Operation>, top: Operation)
    requires Consistent(names, arrivals) && Named(names, top)
  {
    top in arrivals && forall a :: a in arrivals ==> a == top || Before(names, a, top)
  }

  lemma {:induction false} RunKeepsGreatest(names: map<string, int>, all: set<Operation>, seen: set<Operation>,
                                            top: Operation, arrivals: seq<Operation>) returns (last: Operation)
    requires Distinct(names) && Consistent(names, all)
    requires seen <= all && forall i :: 0 <= i < |arrivals| ==> arrivals[i] in all
    requires top in all && Greatest(names, seen, top)
    ensures last in all && Greatest(names, seen + Members(arrivals), last)
    ensures Run(names, Some(EntryOf(top)), arrivals) == Some(EntryOf(last))
    decreases |arrivals|
  {
    if arrivals == [] {
      last := top;
      assert seen + Members(arrivals) == seen;
    } else {
      var op := arrivals[0];
      PrecedenceIsBefore(names, top, op);
      BeforeIsTotalOrder(names, top, op, op);
      var top' := if Before(names, top, op) then op else top;
      forall a | a in seen + {op}
        ensures a == top' || Before(names, a, top')
      {
        BeforeIsTotalOrder(names, a, top, op);
      }
      last := RunKeepsGreatest(names, all, seen + {op}, top', arrivals[1..]);
      assert arrivals == [op] + arrivals[1..];
      assert seen + Members(arrivals) == (seen + {op}) + Members(arrivals[1..]);
    }
  }

  /** Whatever the order and the repetitions, the stored entry is that of the greatest operation. */
  lemma GreatestWins(names: map<string, int>, arrivals: seq<Operation>) returns (last: Operation)
    requires Distinct(names) && arrivals != [] && Consistent(names, Members(arrivals))
    ensures last in arrivals && Greatest(names, Members(arrivals), last)
    ensures Run(names, None, arrivals) == Some(EntryOf(last))
    ensures EntryOf(last).value == last.value && EntryOf(last).stamp == Stamp(last.time, Some(last.nodeId))
  {
    var all := Members(arrivals);
    var op := arrivals[0];
    assert op in all;
    assert Stored(names, None, op) == Some(EntryOf(op));
    last := RunKeepsGreatest(names, all, {op}, op, arrivals[1..]);
    assert arrivals == [op] + arrivals[1..];
    assert {op} + Members(arrivals[1..]) == all;
  }

  /** Two replicas that have seen the same operations hold the same entry. */
  lemma ReplicasAgree(names: map<string, int>, a: seq<Operation>, b: seq<Operation>)
    requires Distinct(names) && Consistent(names, Members(a))
    requires Members(a) == Members(b)
    ensures Run(names, None, a) == Run(names, None, b)
  {
    var all := Members(a);
    if a == [] {
      assert forall i :: 0 <= i < |b| ==> b[i] !in all;
      assert b == [];
    } else {
      assert a[0] in all;
      assert b != [];
      var x := GreatestWins(names, a);
      var y := GreatestWins(names, b);
      BeforeIsTotalOrder(names, x, y, y);
    }
  }
}
