/**
 The reconstruction of a record at an earlier time by walking its audit history backwards
 (`getRecordAtTime` and `applyReverse` in resources/crdt.ts).
 */
module RecordHistory {
  import opened Wrappers
  import opened Crdt

  datatype Event = Put(value: Object) | Patch(changes: Object) | Delete

  /** An audit record; `previousVersion` is 0 when there is none. */
  datatype AuditEntry = AuditEntry(event: Event, previousVersion: int)

  /** The audit records of one record by their time; each points at an older one. */
  predicate Descending(audit: map<int, AuditEntry>) {
    forall t :: t in audit ==> audit[t].previousVersion < t
  }

  /** Where the first loop stops. `Crashed` stands for a TypeError on a null record or a missing audit entry. */
  datatype Walk = Walk(record: Option<Object>, unknowns: set<Key>, time: int) | Crashed

  datatype Result = Ok(record: Option<Object>) | TypeError

  function SetKeys(changes: Object): set<Key> {
    set key | key in changes && changes[key].Plain?
  }

  function Reversed(record: Object, changes: Object): Object {
    map key | key in record :: if key in changes && changes[key].Op? then Subtracted(record[key], changes[key].amount) else record[key]
  }

  function GoBack(audit: map<int, AuditEntry>, record: Option<Object>, unknowns: set<Key>, time: int, timestamp: int): Walk
    requires Descending(audit)
    decreases if time > timestamp then time - timestamp else 0
  {
    if time <= timestamp || time !in audit then Walk(record, unknowns, time)
    else match audit[time].event
      case Put(value) => GoBack(audit, Some(value), unknowns, audit[time].previousVersion, timestamp)
      case Delete => GoBack(audit, None, unknowns, audit[time].previousVersion, timestamp)
      case Patch(changes) =>
        if record.None? then
          if SetKeys(changes) == changes.Keys
          then GoBack(audit, None, unknowns + SetKeys(changes), audit[time].previousVersion, timestamp)
          else Crashed
        else GoBack(audit, Some(Reversed(record.value, changes)), unknowns + SetKeys(changes), audit[time].previousVersion, timestamp)
  }

  function PriorRecord(event: Event): Object {
    match event
    case Put(value) => value
    case Patch(changes) => changes
    case Delete => map[]
  }

  function Filled(record: Object, unknowns: set<Key>, prior: Object): Object {
    map key | key in record.Keys + (prior.Keys * unknowns) :: if key in prior && key in unknowns then prior[key] else record[key]
  }

  function FillIn(audit: map<int, AuditEntry>, record: Option<Object>, unknowns: set<Key>, time: int): Result
    requires Descending(audit)
    decreases if time > 0 then time else 0
  {
    if unknowns == {} || time <= 0 then Ok(record)
    else if time !in audit then TypeError
    else
      var prior := PriorRecord(audit[time].event);
      if record.None? && prior.Keys * unknowns != {} then TypeError
      else
        FillIn(audit, if record.None? then None else Some(Filled(record.value, unknowns, prior)),
               unknowns - prior.Keys, audit[time].previousVersion)
  }

  function RecordAt(audit: map<int, AuditEntry>, record: Object, localTime: int, timestamp: int): Result
    requires Descending(audit)
  {
    match GoBack(audit, Some(record), {}, localTime, timestamp)
    case Crashed => TypeError
    case Walk(r, unknowns, time) => FillIn(audit, r, unknowns, time)
  }

  method ApplyReverse(record: Option<Object>, update: Object, unknowns: set<Key>)
    returns (reversed: Option<Object>, unknowns': set<Key>, ok: bool)
    ensures ok <==> record.Some? || SetKeys(update) == update.Keys
    ensures ok ==> unknowns' == unknowns + SetKeys(update)
    ensures ok ==> reversed == if record.None? then None else Some(Reversed(record.value, update))
  {
    reversed, unknowns', ok := record, unknowns, true;
    var todo := update.Keys;
    while todo != {}
      invariant todo <= update.Keys
      invariant unknowns' == unknowns + (SetKeys(update) - todo)
      invariant record.None? ==> reversed.None? && forall key :: key in update.Keys - todo ==> update[key].Plain?
      invariant record.Some? ==> reversed.Some? && reversed.value.Keys == record.value.Keys
      invariant record.Some? ==> forall key :: key in record.value ==>
        reversed.value[key] == if key in todo then record.value[key] else Reversed(record.value, update)[key]
    {
      var key :| key in todo;
      var value := update[key];
      if value.Op? {
        if reversed.None? {
          ok := false;
          assert key !in SetKeys(update);
          return;
        }
        var target := new Fields(reversed.value);
        target.ReverseAdd(key, value.amount);
        reversed := Some(target.cells);
      } else {
        unknowns' := unknowns' + {key};
      }
      todo := todo - {key};
    }
    assert record.None? ==> SetKeys(update) == update.Keys;
    assert record.Some? ==> reversed.value == Reversed(record.value, update);
  }

  method FillFrom(record: Option<Object>, unknowns: set<Key>, prior: Object)
    returns (filled: Option<Object>, unknowns': set<Key>, ok: bool)
    ensures ok <==> record.Some? || prior.Keys * unknowns == {}
    ensures ok ==> unknowns' == unknowns - prior.Keys
    ensures ok ==> filled == if record.None? then None else Some(Filled(record.value, unknowns, prior))
  {
    filled, unknowns', ok := record, unknowns, true;
    var todo := prior.Keys;
    while todo != {}
      invariant todo <= prior.Keys
      invariant unknowns' == unknowns - (prior.Keys - todo)
      invariant record.None? ==> filled.None? && (prior.Keys - todo) * unknowns == {}
      invariant record.Some? ==> filled.Some? && filled.value.Keys == record.value.Keys + ((prior.Keys - todo) * unknowns)
      invariant record.Some? ==> forall key :: key in filled.value ==>
        filled.value[key] == if key in unknowns && key in prior && key !in todo then prior[key] else record.value[key]
    {
      var key :| key in todo;
      if key in unknowns' {
        if filled.None? {
          ok := false;
          assert key in prior.Keys * unknowns;
          return;
        }
        filled := Some(filled.value[key := prior[key]]);
        unknowns' := unknowns' - {key};
      }
      todo := todo - {key};
    }
    assert record.Some? ==> filled.value == Filled(record.value, unknowns, prior);
  }

  method GetRecordAtTime(audit: map<int, AuditEntry>, value: Object, localTime: int, timestamp: int) returns (result: Result)
    requires Descending(audit)
    ensures result == RecordAt(audit, value, localTime, timestamp)
  {
    var record: Option<Object> := Some(value);
    var auditTime := localTime;
    var unknowns: set<Key> := {};
    var ok: bool;
    while auditTime > timestamp
      invariant GoBack(audit, record, unknowns, auditTime, timestamp) == GoBack(audit, Some(value), {}, localTime, timestamp)
      decreases if auditTime > timestamp then auditTime - timestamp else 0
    {
      if auditTime !in audit {
        break;
      }
      var auditEntry := audit[auditTime];
      match auditEntry.event {
        case Put(v) =>
          record := Some(v);
        case Patch(changes) =>
          record, unknowns, ok := ApplyReverse(record, changes, unknowns);
          if !ok {
            return TypeError;
          }
        case Delete =>
          record := None;
      }
      auditTime := auditEntry.previousVersion;
    }
    assert GoBack(audit, record, unknowns, auditTime, timestamp) == Walk(record, unknowns, auditTime);
    while unknowns != {} && auditTime > 0
      invariant FillIn(audit, record, unknowns, auditTime) == RecordAt(audit, value, localTime, timestamp)
      decreases auditTime
    {
      if auditTime !in audit {
        return TypeError;
      }
      var auditEntry := audit[auditTime];
      record, unknowns, ok := FillFrom(record, unknowns, PriorRecord(auditEntry.event));
      if !ok {
        return TypeError;
      }
      auditTime := auditEntry.previousVersion;
    }
    return Ok(record);
  }

  // ----- a history: anything at all, then a put, and patches in order after it

  predicate Ascending(times: seq<int>) {
    forall i, j :: 0 <= i < j < |times| ==> times[i] < times[j]
  }

  /** The audit log holds these events, the last of them at `time`, each pointing at the one before. */
  predicate Chain(audit: map<int, AuditEntry>, events: seq<Event>, time: int) {
    if events == [] then time == 0
    else
      && time > 0 && time in audit && audit[time].event == events[|events| - 1]
      && Chain(audit, events[..|events| - 1], audit[time].previousVersion)
  }

  /**
   The audit log holds the put at `times[0]` and patch i at `times[i + 1]`, each pointing at the one before, and
   whatever older puts, patches and deletes there have been.
   */
  predicate Recorded(audit: map<int, AuditEntry>, older: seq<Event>, put: Object, patches: seq<Object>, times: seq<int>) {
    && Descending(audit) && Resolved(put)
    && |times| == |patches| + 1 && times[0] > 0 && Ascending(times)
    && times[0] in audit && audit[times[0]].event == Put(put) && Chain(audit, older, audit[times[0]].previousVersion)
    && (forall i {:trigger patches[i]} :: 0 <= i < |patches| ==> times[i + 1] in audit && audit[times[i + 1]] == AuditEntry(Patch(patches[i]), times[i]))
  }

  function Last(patches: seq<Object>): Object
    requires patches != []
  {
    patches[|patches| - 1]
  }

  function Front(patches: seq<Object>): seq<Object>
    requires patches != []
  {
    patches[..|patches| - 1]
  }

  function ReversedThrough(record: Object, patches: seq<Object>): Object {
    if patches == [] then record else ReversedThrough(Reversed(record, Last(patches)), Front(patches))
  }

  function SetThrough(patches: seq<Object>): set<Key> {
    if patches == [] then {} else SetThrough(Front(patches)) + SetKeys(Last(patches))
  }

  lemma {:induction false} GoBackReverses(audit: map<int, AuditEntry>, older: seq<Event>, put: Object, patches: seq<Object>, times: seq<int>,
                                          record: Object, unknowns: set<Key>, i: nat, j: nat, timestamp: int)
    requires Recorded(audit, older, put, patches, times)
    requires j <= i <= |patches| && times[j] <= timestamp && (j < |patches| ==> timestamp < times[j + 1])
    ensures GoBack(audit, Some(record), unknowns, times[i], timestamp)
            == Walk(Some(ReversedThrough(record, patches[j..i])), unknowns + SetThrough(patches[j..i]), times[j])
    decreases i
  {
    if j == i {
    } else {
      assert times[j + 1] <= times[i];
      var newest := patches[i - 1];
      assert Front(patches[j..i]) == patches[j..i - 1] && Last(patches[j..i]) == newest;
      assert audit[times[i]] == AuditEntry(Patch(patches[i - 1]), times[i - 1]);
      GoBackReverses(audit, older, put, patches, times, Reversed(record, patches[i - 1]), unknowns + SetKeys(patches[i - 1]), i - 1, j, timestamp);
      assert unknowns + SetThrough(patches[j..i]) == unknowns + SetKeys(patches[i - 1]) + SetThrough(patches[j..i - 1]);
    }
  }

  /** The most recent mention of a key: the cell that the newest patch naming it, or the put, holds. */
  function LastMention(put: Object, patches: seq<Object>, key: Key): Option<Cell> {
    if patches == [] then Lookup(put, key)
    else if key in Last(patches) then Some(Last(patches)[key])
    else LastMention(put, Front(patches), key)
  }

  function OlderMention(older: seq<Event>, key: Key): Option<Cell> {
    if older == [] then None
    else
      var prior := PriorRecord(older[|older| - 1]);
      if key in prior then Some(prior[key]) else OlderMention(older[..|older| - 1], key)
  }

  function AnyMention(older: seq<Event>, put: Object, patches: seq<Object>, key: Key): Option<Cell> {
    if LastMention(put, patches, key).Some? then LastMention(put, patches, key) else OlderMention(older, key)
  }

  function MentionOr(mention: Option<Cell>, key: Key, unknowns: set<Key>, record: Object): Option<Cell> {
    if key in unknowns && mention.Some? then mention else Lookup(record, key)
  }

  lemma {:induction false} FillInOlder(audit: map<int, AuditEntry>, older: seq<Event>, time: int,
                                       record: Object, unknowns: set<Key>) returns (filled: Object)
    requires Descending(audit) && Chain(audit, older, time)
    ensures FillIn(audit, Some(record), unknowns, time) == Ok(Some(filled))
    ensures forall key :: Lookup(filled, key) == MentionOr(OlderMention(older, key), key, unknowns, record)
    decreases |older|
  {
    if unknowns == {} || older == [] {
      filled := record;
    } else {
      var prior := PriorRecord(older[|older| - 1]);
      filled := FillInOlder(audit, older[..|older| - 1], audit[time].previousVersion,
                            Filled(record, unknowns, prior), unknowns - prior.Keys);
    }
  }

  lemma {:induction false} FillInMentions(audit: map<int, AuditEntry>, older: seq<Event>, put: Object, patches: seq<Object>, times: seq<int>,
                                          record: Object, unknowns: set<Key>, j: nat) returns (filled: Object)
    requires Recorded(audit, older, put, patches, times) && j <= |patches|
    ensures FillIn(audit, Some(record), unknowns, times[j]) == Ok(Some(filled))
    ensures forall key :: Lookup(filled, key) == MentionOr(AnyMention(older, put, patches[..j], key), key, unknowns, record)
    decreases j
  {
    if unknowns == {} {
      filled := record;
    } else if j == 0 {
      assert patches[..0] == [];
      filled := FillInOlder(audit, older, audit[times[0]].previousVersion, Filled(record, unknowns, put), unknowns - put.Keys);
    } else {
      assert times[0] < times[j];
      var prior := patches[j - 1];
      assert audit[times[j]] == AuditEntry(Patch(prior), times[j - 1]);
      assert Front(patches[..j]) == patches[..j - 1];
      filled := FillInMentions(audit, older, put, patches, times, Filled(record, unknowns, prior), unknowns - prior.Keys, j - 1);
    }
  }

  predicate Mentioned(patches: seq<Object>, key: Key) {
    Overwritten(patches, key) || Incremented(patches, key)
  }

  lemma LastStep(patches: seq<Object>, key: Key)
    requires patches != []
    ensures Overwritten(patches, key) <==> Overwritten(Front(patches), key) || key in SetKeys(Last(patches))
    ensures Incremented(patches, key) <==> Incremented(Front(patches), key) || (key in Last(patches) && Last(patches)[key].Op?)
  {
    var n := |patches| - 1;
    if Overwritten(Front(patches), key) {
      var i :| 0 <= i < n && key in Front(patches)[i] && Front(patches)[i][key].Plain?;
      assert key in patches[i] && patches[i][key].Plain?;
    }
    if Incremented(Front(patches), key) {
      var i :| 0 <= i < n && key in Front(patches)[i] && Front(patches)[i][key].Op?;
      assert key in patches[i] && patches[i][key].Op?;
    }
    if Overwritten(patches, key) {
      var i :| 0 <= i < |patches| && key in patches[i] && patches[i][key].Plain?;
      assert i < n ==> Front(patches)[i] == patches[i];
    }
    if Incremented(patches, key) {
      var i :| 0 <= i < |patches| && key in patches[i] && patches[i][key].Op?;
      assert i < n ==> Front(patches)[i] == patches[i];
    }
  }

  lemma {:induction false} SetThroughIsOverwritten(patches: seq<Object>, key: Key)
    ensures key in SetThrough(patches) <==> Overwritten(patches, key)
    decreases |patches|
  {
    if patches == [] {
    } else {
      LastStep(patches, key);
      SetThroughIsOverwritten(Front(patches), key);
    }
  }

  lemma {:induction false} AppliedLast(cell: Option<Cell>, patches: seq<Object>, key: Key)
    requires patches != []
    ensures CellThrough(cell, patches, key) ==
      if key in Last(patches) then Some(AppliedCell(CellThrough(cell, Front(patches), key), Last(patches)[key]))
      else CellThrough(cell, Front(patches), key)
    decreases |patches|
  {
    if |patches| > 1 {
      var next := if key in patches[0] then Some(AppliedCell(cell, patches[0][key])) else cell;
      AppliedLast(next, patches[1..], key);
      assert Front(patches)[1..] == Front(patches[1..]);
      assert Front(patches)[0] == patches[0];
    } else {
      assert Front(patches) == [] && patches[1..] == [];
    }
  }

  lemma {:induction false} Unmentioned(cell: Option<Cell>, patches: seq<Object>, key: Key)
    requires !Mentioned(patches, key)
    ensures CellThrough(cell, patches, key) == cell
    decreases |patches|
  {
    if patches == [] {
    } else {
      LastStep(patches, key);
      AppliedLast(cell, patches, key);
      Unmentioned(cell, Front(patches), key);
    }
  }

  lemma {:induction false} NotNumberBefore(cell: Cell, patches: seq<Object>, key: Key)
    requires !Overwritten(patches, key)
    requires CellThrough(Some(cell), patches, key).Some? && !IsNumber(CellThrough(Some(cell), patches, key).value)
    ensures !Incremented(patches, key) && CellThrough(Some(cell), patches, key) == Some(cell)
    decreases |patches|
  {
    if patches == [] {
    } else {
      LastStep(patches, key);
      AppliedLast(Some(cell), patches, key);
      assert key !in Last(patches);
      NotNumberBefore(cell, Front(patches), key);
    }
  }

  lemma {:induction false} Untouched(record: Object, patches: seq<Object>, key: Key)
    requires !Overwritten(patches, key) && !Incremented(patches, key)
    ensures Lookup(ReversedThrough(record, patches), key) == Lookup(record, key)
    decreases |patches|
  {
    if patches == [] {
    } else {
      LastStep(patches, key);
      Untouched(Reversed(record, Last(patches)), Front(patches), key);
    }
  }

  lemma {:induction false} PresentThrough(cell: Cell, patches: seq<Object>, key: Key)
    ensures CellThrough(Some(cell), patches, key).Some?
    decreases |patches|
  {
    if patches == [] {
    } else {
      AppliedLast(Some(cell), patches, key);
      PresentThrough(cell, Front(patches), key);
    }
  }

  /** Reversing restores a key that was only incremented exactly when it held a number, or was left alone. */
  lemma {:induction false} ReversalExactly(record: Object, patches: seq<Object>, cell: Cell, key: Key)
    requires !Overwritten(patches, key) && key in record && CellThrough(Some(cell), patches, key) == Some(record[key])
    ensures key in ReversedThrough(record, patches)
    ensures ReversedThrough(record, patches)[key] == cell <==> !Incremented(patches, key) || IsNumber(cell)
    decreases |patches|
  {
    if patches == [] {
    } else {
      LastStep(patches, key);
      AppliedLast(Some(cell), patches, key);
      var last, front := Last(patches), Front(patches);
      PresentThrough(cell, front, key);
      var before := CellThrough(Some(cell), front, key).value;
      if key !in last {
        ReversalExactly(Reversed(record, last), front, cell, key);
      } else if IsNumber(before) {
        SubtractedUndoesAdded(before, last[key].amount);
        ReversalExactly(Reversed(record, last), front, cell, key);
        if !Incremented(front, key) {
          Unmentioned(Some(cell), front, key);
        }
      } else {
        NotNumberBefore(cell, front, key);
        SubtractedUndoesAdded(before, last[key].amount);
        Untouched(Reversed(record, last), front, key);
      }
    }
  }

  // ----- the main result

  /** How many of the patches, at `times[1..]`, have happened by `timestamp`. */
  function Happened(times: seq<int>, timestamp: int): (j: nat)
    requires times != [] && Ascending(times) && times[0] <= timestamp
    ensures j < |times| && times[j] <= timestamp && (j + 1 < |times| ==> timestamp < times[j + 1])
  {
    if times[|times| - 1] <= timestamp then |times| - 1
    else assert |times| > 1; Happened(times[..|times| - 1], timestamp)
  }

  /**
   What the history must be like at one property for the backward walk to recover it:
   it was not mentioned afterwards; or it existed, and either it was overwritten afterwards and last
   written before by a plain value, or it was only incremented afterwards and held a number.
   */
  predicate Recoverable(put: Object, before: seq<Object>, after: seq<Object>, key: Key) {
    if Overwritten(after, key) then
      LastMention(put, before, key).Some? && LastMention(put, before, key).value.Plain?
    else
      Incremented(after, key) ==> CellIsNumber(CellThrough(Lookup(put, key), before, key))
  }

  /** A mention by a plain value is the value; a mention by an operation never is, as records hold no operations. */
  lemma {:induction false} MentionIsTruth(put: Object, patches: seq<Object>, key: Key)
    requires Resolved(put)
    ensures var truth, mention := CellThrough(Lookup(put, key), patches, key), LastMention(put, patches, key);
            && (truth.None? <==> mention.None?)
            && (truth.Some? ==> truth.value.Plain?)
            && (truth == mention <==> (mention.Some? ==> mention.value.Plain?))
    decreases |patches|
  {
    if patches == [] {
    } else {
      AppliedLast(Lookup(put, key), patches, key);
      MentionIsTruth(put, Front(patches), key);
    }
  }

  lemma {:induction false} AbsentThrough(patches: seq<Object>, key: Key)
    ensures CellThrough(None, patches, key).None? <==> !Mentioned(patches, key)
    decreases |patches|
  {
    if patches == [] {
    } else {
      LastStep(patches, key);
      AppliedLast(None, patches, key);
      AbsentThrough(Front(patches), key);
    }
  }

  lemma {:induction false} ReversedKeepsKeys(record: Object, patches: seq<Object>)
    ensures ReversedThrough(record, patches).Keys == record.Keys
    decreases |patches|
  {
    if patches == [] {
    } else {
      ReversedKeepsKeys(Reversed(record, Last(patches)), Front(patches));
    }
  }

  lemma {:induction false} ThroughBoth(cell: Option<Cell>, before: seq<Object>, after: seq<Object>, key: Key)
    ensures CellThrough(cell, before + after, key) == CellThrough(CellThrough(cell, before, key), after, key)
    decreases |before|
  {
    if before == [] {
      assert before + after == after;
    } else {
      assert (before + after)[1..] == before[1..] + after;
      ThroughBoth(if key in before[0] then Some(AppliedCell(cell, before[0][key])) else cell, before[1..], after, key);
    }
  }

  /** One property of the walk's outcome: right exactly when it is recoverable, whatever came before the put. */
  lemma RecoverableExactly(older: seq<Event>, put: Object, before: seq<Object>, after: seq<Object>, record: Object, key: Key)
    requires Resolved(put)
    requires Lookup(record, key) == CellThrough(Lookup(put, key), before + after, key)
    ensures MentionOr(AnyMention(older, put, before, key), key, SetThrough(after), ReversedThrough(record, after))
            == CellThrough(Lookup(put, key), before, key)
            <==> Recoverable(put, before, after, key)
  {
    var truth := CellThrough(Lookup(put, key), before, key);
    ThroughBoth(Lookup(put, key), before, after, key);
    SetThroughIsOverwritten(after, key);
    MentionIsTruth(put, before, key);
    ReversedKeepsKeys(record, after);
    if truth.None? {
      AbsentThrough(after, key);
    } else {
      PresentThrough(truth.value, after, key);
      if !Overwritten(after, key) {
        ReversalExactly(record, after, truth.value, key);
      }
    }
  }

  /**
   For a record that was put and then patched in order, after any older history, and any time from the put on: the
   walk always yields a record, and it is the true record of that time exactly when every property is recoverable.
   */
  lemma ReconstructionExactly(audit: map<int, AuditEntry>, older: seq<Event>, put: Object, patches: seq<Object>, times: seq<int>,
                              timestamp: int)
    returns (found: Object)
    requires Recorded(audit, older, put, patches, times) && times[0] <= timestamp
    ensures RecordAt(audit, ApplyAll(put, patches), times[|patches|], timestamp) == Ok(Some(found))
    ensures var j := Happened(times, timestamp);
            && (forall key :: Lookup(found, key) == Lookup(ApplyAll(put, patches[..j]), key)
                              <==> Recoverable(put, patches[..j], patches[j..], key))
            && (found == ApplyAll(put, patches[..j]) <==> forall key :: Recoverable(put, patches[..j], patches[j..], key))
  {
    var j := Happened(times, timestamp);
    var current := ApplyAll(put, patches);
    var before, after := patches[..j], patches[j..];
    assert patches == before + after && patches[j..|patches|] == after;
    GoBackReverses(audit, older, put, patches, times, current, {}, |patches|, j, timestamp);
    found := FillInMentions(audit, older, put, patches, times, ReversedThrough(current, after), {} + SetThrough(after), j);
    assert {} + SetThrough(after) == SetThrough(after);
    forall key
      ensures Lookup(found, key) == Lookup(ApplyAll(put, before), key) <==> Recoverable(put, before, after, key)
    {
      CellHistory(put, patches, key);
      CellHistory(put, before, key);
      RecoverableExactly(older, put, before, after, current, key);
    }
    SameLookups(found, ApplyAll(put, before));
  }

  // ----- a put or a delete after the time asked for

  /** The walk goes on from where it was at a time on its way. */
  lemma {:induction false} GoBackThrough(audit: map<int, AuditEntry>, record: Option<Object>, unknowns: set<Key>, now: int,
                                         at: int, timestamp: int)
    requires Descending(audit) && timestamp < at && GoBack(audit, record, unknowns, now, at).Walk?
    requires GoBack(audit, record, unknowns, now, at).time == at
    ensures var walk := GoBack(audit, record, unknowns, now, at);
            GoBack(audit, record, unknowns, now, timestamp) == GoBack(audit, walk.record, walk.unknowns, at, timestamp)
    decreases if now > at then now - at else 0
  {
    if now <= at || now !in audit {
    } else {
      var next := audit[now].previousVersion;
      match audit[now].event
      case Put(value) => GoBackThrough(audit, Some(value), unknowns, next, at, timestamp);
      case Delete => GoBackThrough(audit, None, unknowns, next, at, timestamp);
      case Patch(changes) =>
        GoBackThrough(audit, if record.None? then None else Some(Reversed(record.value, changes)),
                      unknowns + SetKeys(changes), next, at, timestamp);
    }
  }

  /** With a later put, the walk reverses the patches before it on the value of that put. */
  predicate RecoverableAcross(older: seq<Event>, put: Object, before: seq<Object>, after: seq<Object>, laterPut: Object,
                              unknowns: set<Key>, key: Key)
  {
    if key in unknowns + SetThrough(after) && AnyMention(older, put, before, key).Some? then
      LastMention(put, before, key).Some? && LastMention(put, before, key).value.Plain?
    else Lookup(ReversedThrough(laterPut, after), key) == CellThrough(Lookup(put, key), before, key)
  }

  /**
   A put after the time asked for, reached with some unknowns: each property comes out right exactly when it is an
   unknown one that was last written by a plain value since the put before, or the later put happens to hold what
   reverses to the old value.
   */
  lemma LaterPutExactly(audit: map<int, AuditEntry>, older: seq<Event>, put: Object, patches: seq<Object>, times: seq<int>,
                        laterPut: Object, at: int, current: Object, now: int, timestamp: int)
    returns (found: Object)
    requires Recorded(audit, older, put, patches, times) && times[0] <= timestamp < at
    requires at in audit && audit[at] == AuditEntry(Put(laterPut), times[|patches|])
    requires GoBack(audit, Some(current), {}, now, at).Walk? && GoBack(audit, Some(current), {}, now, at).time == at
    ensures RecordAt(audit, current, now, timestamp) == Ok(Some(found))
    ensures var j, unknowns := Happened(times, timestamp), GoBack(audit, Some(current), {}, now, at).unknowns;
            && (forall key :: Lookup(found, key) == Lookup(ApplyAll(put, patches[..j]), key)
                              <==> RecoverableAcross(older, put, patches[..j], patches[j..], laterPut, unknowns, key))
            && (found == ApplyAll(put, patches[..j])
                <==> forall key :: RecoverableAcross(older, put, patches[..j], patches[j..], laterPut, unknowns, key))
  {
    var j, walk := Happened(times, timestamp), GoBack(audit, Some(current), {}, now, at);
    var before, after := patches[..j], patches[j..];
    GoBackThrough(audit, Some(current), {}, now, at, timestamp);
    assert patches[j..|patches|] == after;
    GoBackReverses(audit, older, put, patches, times, laterPut, walk.unknowns, |patches|, j, timestamp);
    found := FillInMentions(audit, older, put, patches, times, ReversedThrough(laterPut, after), walk.unknowns + SetThrough(after), j);
    forall key
      ensures Lookup(found, key) == Lookup(ApplyAll(put, before), key)
         <==> RecoverableAcross(older, put, before, after, laterPut, walk.unknowns, key)
    {
      CellHistory(put, before, key);
      MentionIsTruth(put, before, key);
    }
    SameLookups(found, ApplyAll(put, before));
  }

  /** No patch increments anything. */
  predicate OnlySets(patches: seq<Object>) {
    patches == [] || (SetKeys(Last(patches)) == Last(patches).Keys && OnlySets(Front(patches)))
  }

  /** Without a record, the first loop gets past patches that only set, and stumbles over an increment. */
  lemma {:induction false} GoBackDeleted(audit: map<int, AuditEntry>, unknowns: set<Key>, older: seq<Event>, put: Object,
                                         patches: seq<Object>, times: seq<int>, i: nat, j: nat, timestamp: int)
    requires Recorded(audit, older, put, patches, times)
    requires j <= i <= |patches| && times[j] <= timestamp && (j < |patches| ==> timestamp < times[j + 1])
    ensures GoBack(audit, None, unknowns, times[i], timestamp)
         == if OnlySets(patches[j..i]) then Walk(None, unknowns + SetThrough(patches[j..i]), times[j]) else Crashed
    decreases i
  {
    if j == i {
    } else {
      assert times[j + 1] <= times[i];
      var newest := patches[i - 1];
      assert Front(patches[j..i]) == patches[j..i - 1] && Last(patches[j..i]) == newest;
      assert audit[times[i]] == AuditEntry(Patch(patches[i - 1]), times[i - 1]);
      GoBackDeleted(audit, unknowns + SetKeys(newest), older, put, patches, times, i - 1, j, timestamp);
      assert unknowns + SetThrough(patches[j..i]) == unknowns + SetKeys(newest) + SetThrough(patches[j..i - 1]);
    }
  }

  predicate OlderUnmentioned(older: seq<Event>, unknowns: set<Key>) {
    forall key :: key in unknowns ==> OlderMention(older, key).None?
  }

  lemma {:induction false} FillInOlderDeleted(audit: map<int, AuditEntry>, older: seq<Event>, time: int, unknowns: set<Key>)
    requires Descending(audit) && Chain(audit, older, time)
    ensures FillIn(audit, None, unknowns, time) == if OlderUnmentioned(older, unknowns) then Ok(None) else TypeError
    decreases |older|
  {
    if unknowns == {} || older == [] {
    } else {
      var prior := PriorRecord(older[|older| - 1]);
      if key :| key in prior && key in unknowns {
        assert OlderMention(older, key).Some?;
        assert key in prior.Keys * unknowns;
      } else {
        assert prior.Keys * unknowns == {} && unknowns - prior.Keys == unknowns;
        FillInOlderDeleted(audit, older[..|older| - 1], audit[time].previousVersion, unknowns);
        assert forall key :: key in unknowns ==> OlderMention(older, key) == OlderMention(older[..|older| - 1], key);
      }
    }
  }

  predicate NeverMentioned(older: seq<Event>, put: Object, patches: seq<Object>, unknowns: set<Key>) {
    forall key :: key in unknowns ==> AnyMention(older, put, patches, key).None?
  }

  lemma DeletedStep(prior: Object, unknowns: set<Key>)
    ensures prior.Keys * unknowns == {} <==> forall key :: key in prior ==> key !in unknowns
    ensures prior.Keys * unknowns == {} ==> unknowns - prior.Keys == unknowns
  {
    if prior.Keys * unknowns == {} {
      forall key | key in prior
        ensures key !in unknowns
      {
        assert key !in prior.Keys * unknowns;
      }
    }
  }

  /** Without a record, the second loop stumbles over the first mention of an unknown key. */
  lemma {:induction false} FillInDeleted(audit: map<int, AuditEntry>, older: seq<Event>, put: Object, patches: seq<Object>, times: seq<int>,
                                         unknowns: set<Key>, j: nat)
    requires Recorded(audit, older, put, patches, times) && j <= |patches|
    ensures FillIn(audit, None, unknowns, times[j]) == if NeverMentioned(older, put, patches[..j], unknowns) then Ok(None) else TypeError
    decreases j
  {
    assert times[0] <= times[j];
    if unknowns == {} {
    } else if j == 0 {
      assert patches[..0] == [];
      DeletedStep(put, unknowns);
      FillInOlderDeleted(audit, older, audit[times[0]].previousVersion, unknowns);
    } else {
      var prior := patches[j - 1];
      assert audit[times[j]] == AuditEntry(Patch(patches[j - 1]), times[j - 1]);
      assert Last(patches[..j]) == prior && Front(patches[..j]) == patches[..j - 1];
      DeletedStep(prior, unknowns);
      FillInDeleted(audit, older, put, patches, times, unknowns, j - 1);
    }
  }

  /**
   With a delete after the time asked for, the record that there was then is never found: there is none when the patches
   in between only set keys, and no key that has been set or is unknown was mentioned before; and a TypeError otherwise.
   */
  lemma LaterDeleteExactly(audit: map<int, AuditEntry>, older: seq<Event>, put: Object, patches: seq<Object>, times: seq<int>,
                           at: int, current: Object, now: int, timestamp: int)
    requires Recorded(audit, older, put, patches, times) && times[0] <= timestamp < at
    requires at in audit && audit[at] == AuditEntry(Delete, times[|patches|])
    requires GoBack(audit, Some(current), {}, now, at).Walk? && GoBack(audit, Some(current), {}, now, at).time == at
    ensures var j, unknowns := Happened(times, timestamp), GoBack(audit, Some(current), {}, now, at).unknowns;
            RecordAt(audit, current, now, timestamp)
            == if OnlySets(patches[j..]) && NeverMentioned(older, put, patches[..j], unknowns + SetThrough(patches[j..]))
               then Ok(None) else TypeError
  {
    var j, walk := Happened(times, timestamp), GoBack(audit, Some(current), {}, now, at);
    assert patches[j..|patches|] == patches[j..];
    GoBackThrough(audit, Some(current), {}, now, at, timestamp);
    GoBackDeleted(audit, walk.unknowns, older, put, patches, times, |patches|, j, timestamp);
    FillInDeleted(audit, older, put, patches, times, walk.unknowns + SetThrough(patches[j..]), j);
  }

  // ----- a log that has been pruned

  /** The log holds patches in order; what was before them, at `times[0]`, has been removed. */
  predicate Pruned(audit: map<int, AuditEntry>, patches: seq<Object>, times: seq<int>) {
    && Descending(audit) && |times| == |patches| + 1 && times[0] > 0 && Ascending(times) && times[0] !in audit
    && (forall i {:trigger patches[i]} :: 0 <= i < |patches| ==> times[i + 1] in audit && audit[times[i + 1]] == AuditEntry(Patch(patches[i]), times[i]))
  }

  /** How many of the patches had been applied at a time, which may be before all of them. */
  function AppliedBy(patches: seq<Object>, times: seq<int>, timestamp: int): (j: nat)
    requires |times| == |patches| + 1 && Ascending(times)
    ensures j <= |patches| && (j < |patches| ==> timestamp < times[j + 1]) && (j > 0 ==> times[j] <= timestamp)
  {
    if patches == [] then 0
    else if times[|patches|] <= timestamp then |patches|
    else AppliedBy(Front(patches), times[..|patches|], timestamp)
  }

  lemma {:induction false} GoBackPruned(audit: map<int, AuditEntry>, patches: seq<Object>, times: seq<int>,
                                        record: Object, unknowns: set<Key>, i: nat, j: nat, timestamp: int)
    requires Pruned(audit, patches, times)
    requires j <= i <= |patches| && (j < |patches| ==> timestamp < times[j + 1]) && (j > 0 ==> times[j] <= timestamp)
    ensures GoBack(audit, Some(record), unknowns, times[i], timestamp)
            == Walk(Some(ReversedThrough(record, patches[j..i])), unknowns + SetThrough(patches[j..i]), times[j])
    decreases i
  {
    if j == i {
    } else {
      assert times[j + 1] <= times[i];
      var newest := patches[i - 1];
      assert Front(patches[j..i]) == patches[j..i - 1] && Last(patches[j..i]) == newest;
      assert audit[times[i]] == AuditEntry(Patch(patches[i - 1]), times[i - 1]);
      GoBackPruned(audit, patches, times, Reversed(record, newest), unknowns + SetKeys(newest), i - 1, j, timestamp);
      assert unknowns + SetThrough(patches[j..i]) == unknowns + SetKeys(newest) + SetThrough(patches[j..i - 1]);
    }
  }

  /** Every unknown key is mentioned by one of the patches. */
  predicate AllMentioned(patches: seq<Object>, unknowns: set<Key>) {
    forall key :: key in unknowns ==> LastMention(map[], patches, key).Some?
  }

  lemma MentionedWithout(patches: seq<Object>, unknowns: set<Key>)
    requires patches != []
    ensures AllMentioned(patches, unknowns) <==> AllMentioned(Front(patches), unknowns - Last(patches).Keys)
  {
    forall key
      ensures LastMention(map[], patches, key).Some? <==> key in Last(patches).Keys || LastMention(map[], Front(patches), key).Some?
    {
    }
    if AllMentioned(Front(patches), unknowns - Last(patches).Keys) {
      forall key | key in unknowns
        ensures LastMention(map[], patches, key).Some?
      {
        assert key !in Last(patches).Keys ==> key in unknowns - Last(patches).Keys;
      }
    }
  }

  lemma {:induction false} FillInPruned(audit: map<int, AuditEntry>, patches: seq<Object>, times: seq<int>,
                                        record: Object, unknowns: set<Key>, j: nat) returns (filled: Object)
    requires Pruned(audit, patches, times) && j <= |patches|
    ensures FillIn(audit, Some(record), unknowns, times[j]) == if AllMentioned(patches[..j], unknowns) then Ok(Some(filled)) else TypeError
    ensures forall key :: Lookup(filled, key) == MentionOr(LastMention(map[], patches[..j], key), key, unknowns, record)
    decreases j
  {
    assert times[0] <= times[j];
    if unknowns == {} {
      filled := record;
    } else if j == 0 {
      filled := record;
      assert patches[..0] == [];
      var key := Pick(unknowns);
      assert LastMention(map[], [], key) == None;
    } else {
      var prior := patches[j - 1];
      assert audit[times[j]] == AuditEntry(Patch(patches[j - 1]), times[j - 1]);
      assert Last(patches[..j]) == prior && Front(patches[..j]) == patches[..j - 1];
      filled := FillInPruned(audit, patches, times, Filled(record, unknowns, prior), unknowns - prior.Keys, j - 1);
      MentionedWithout(patches[..j], unknowns);
    }
  }

  /**
   When older entries have been removed from the log: the walk stops at the gap, whatever time was asked for, and fails
   with a TypeError exactly when a property that has been set since is not mentioned by what is left before that time.
   Otherwise each of these gets its last mention, and all others are what reversing the increments makes of them.
   */
  lemma PrunedExactly(audit: map<int, AuditEntry>, patches: seq<Object>, times: seq<int>, current: Object, timestamp: int)
    returns (found: Object)
    requires Pruned(audit, patches, times)
    ensures var j := AppliedBy(patches, times, timestamp);
            && RecordAt(audit, current, times[|patches|], timestamp)
               == (if AllMentioned(patches[..j], SetThrough(patches[j..])) then Ok(Some(found)) else TypeError)
            && forall key :: Lookup(found, key)
                 == MentionOr(LastMention(map[], patches[..j], key), key, SetThrough(patches[j..]), ReversedThrough(current, patches[j..]))
  {
    var j := AppliedBy(patches, times, timestamp);
    assert patches[j..|patches|] == patches[j..];
    GoBackPruned(audit, patches, times, current, {}, |patches|, j, timestamp);
    assert {} + SetThrough(patches[j..]) == SetThrough(patches[j..]);
    found := FillInPruned(audit, patches, times, ReversedThrough(current, patches[j..]), SetThrough(patches[j..]), j);
  }
}
