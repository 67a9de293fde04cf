/**
 Writing audit entries into the shared header buffer and reading them back through a moving position
 (resources/auditStore.ts), and the prefix of the RocksDB transaction log (resources/RocksTransactionLogStore.ts).
 */
module AuditStore {
  import opened AuditFormat
  import opened Wrappers

  datatype Created = Created(bytes: seq<Byte>) | InvalidType | IllegalExtendedType

  function Overwritten(s: seq<Byte>, at: nat, bytes: seq<Byte>): (r: seq<Byte>)
    requires at + |bytes| <= |s|
    ensures |r| == |s|
  {
    s[..at] + bytes + s[at + |bytes|..]
  }

  lemma RefWritten(before: seq<Byte>, refs: seq<Ref>, i: nat)
    requires i < |refs| && forall j :: 0 <= j < |refs| ==> refs[j].nodeId < 0x1_0000_0000
    ensures (before + refs[i].version + IntBytes(refs[i].nodeId)) + RefList(refs[i + 1..]) == before + RefList(refs[i..])
  {
    assert refs[i..][0] == refs[i] && refs[i..][1..] == refs[i + 1..];
    AppendTwo(before + refs[i].version, IntBytes(refs[i].nodeId), RefList(refs[i + 1..]));
    AppendTwo(before, refs[i].version, IntBytes(refs[i].nodeId) + RefList(refs[i + 1..]));
  }

  lemma ShortLength(w: seq<Byte>, at: nat, key: seq<Byte>, length: Byte)
    requires at + 1 + |key| <= |w| && w[at + 1..at + 1 + |key|] == key
    ensures w[at := length][..at + 1 + |key|] == w[..at] + ([length] + key)
  {
    assert w[..at + 1 + |key|] == w[..at] + [w[at]] + w[at + 1..at + 1 + |key|];
  }

  lemma LongLength(w: seq<Byte>, at: nat, key: seq<Byte>, length: seq<Byte>)
    requires |length| == 2 && at + 2 + |key| <= |w| && w[at + 1..at + 1 + |key|] == key
    ensures Overwritten(Overwritten(w, at + 2, key), at, length)[..at + 2 + |key|] == w[..at] + (length + key)
  {
    var moved := Overwritten(w, at + 2, key);
    assert moved[..at] == w[..at] && moved[at + 2..at + 2 + |key|] == key;
  }

  /** An upper bound for the size of an entry without its record. */
  function Bound(e: AuditRecord): nat {
    12 + (20 + |e.recordId|) + 23 + (1 + 13 * |e.refs|) + (2 + if e.user.Some? then |e.user.value| else 0)
  }

  ghost function EntryFields(e: AuditRecord): seq<Byte>
    requires WellFormed(e)
  {
    IdBytes(e) + (FlaggedBytes(e) + (RefsBytes(e) + UserBytes(e.user)))
  }

  lemma EntryAssembled(e: AuditRecord, before: seq<Byte>)
    requires WellFormed(e)
    ensures (before + PreviousBytes(e.previous) + ActionBytes(e) + EntryFields(e)) + e.encodedRecord == before + Encoded(e)
  {
    AppendAll(IdBytes(e), FlaggedBytes(e), RefsBytes(e), UserBytes(e.user), e.encodedRecord);
    AppendTwo(before + PreviousBytes(e.previous) + ActionBytes(e), EntryFields(e), e.encodedRecord);
    AppendTwo(before + PreviousBytes(e.previous), ActionBytes(e), EntryFields(e) + e.encodedRecord);
    AppendTwo(before, PreviousBytes(e.previous), ActionBytes(e) + (EntryFields(e) + e.encodedRecord));
  }

  lemma AppendFour(before: seq<Byte>, a: seq<Byte>, b: seq<Byte>, c: seq<Byte>, d: seq<Byte>)
    ensures before + a + b + c + d == before + (a + (b + (c + d)))
  {
    AppendTwo(before + a + b, c, d);
    AppendTwo(before + a, b, c + d);
    AppendTwo(before, a, b + (c + d));
  }

  lemma ActionFilledIn(w: seq<Byte>, at: nat, end: nat, head: seq<Byte>, body: seq<Byte>, action: seq<Byte>)
    requires at + |action| == |head| <= end <= |w| && w[..end] == head + body
    ensures Overwritten(w, at, action)[..end] == head[..at] + action + body
  {
    assert w[..at] == w[..end][..at] == head[..at];
    assert w[|head|..end] == w[..end][|head|..] == body;
  }

  class EntryHeader {
    const buffer: array<Byte>
    var position: nat

    constructor (size: nat)
      ensures fresh(buffer) && buffer.Length == size && position == 0
    {
      buffer := new Byte[size](_ => 0);
      position := 0;
    }

    ghost predicate Room(n: nat)
      reads this
    {
      position + n <= buffer.Length
    }

    method SetBytes(at: nat, bytes: seq<Byte>)
      requires at + |bytes| <= buffer.Length
      modifies buffer
      ensures buffer[..] == Overwritten(old(buffer[..]), at, bytes)
    {
      forall i | 0 <= i < |bytes| {
        buffer[at + i] := bytes[i];
      }
    }

    method CopyWithin(target: nat, start: nat, end: nat)
      requires start <= end <= buffer.Length && target + (end - start) <= buffer.Length
      modifies buffer
      ensures buffer[..] == Overwritten(old(buffer[..]), target, old(buffer[start..end]))
    {
      forall i | 0 <= i < end - start {
        buffer[target + i] := buffer[start + i];
      }
    }

    method Append(bytes: seq<Byte>)
      requires Room(|bytes|)
      modifies `position, buffer
      ensures position == old(position) + |bytes| <= buffer.Length
      ensures buffer[..position] == old(buffer[..position]) + bytes
    {
      SetBytes(position, bytes);
      position := position + |bytes|;
      assert buffer[..position] == buffer[..][..position];
    }

    method WriteInt(number: nat)
      requires number < 0x1_0000_0000 && Room(5)
      modifies `position, buffer
      ensures position == old(position) + |IntBytes(number)| <= buffer.Length
      ensures buffer[..position] == old(buffer[..position]) + IntBytes(number)
    {
      if number < 128 {
        Append([number]);
      } else if number < 0x4000 {
        Append(U16(number + 0x8000));
      } else if number < 0x3f00_0000 {
        Append(U32(number + 0xc000_0000));
      } else {
        Append([0xff] + U32(number));
      }
    }

    /** The key is written after room for a one-byte length; for a long one it is moved on by a byte. */
    method WriteValue(key: seq<Byte>)
      requires Room(|key| + 2)
      modifies `position, buffer
      ensures position == old(position) + |ValueBytes(key)| <= buffer.Length
      ensures buffer[..position] == old(buffer[..position]) + ValueBytes(key)
    {
      var valueLengthPosition := position;
      position := position + 1;
      SetBytes(position, key);
      position := position + |key|;
      ghost var w := buffer[..];
      assert w[..valueLengthPosition] == old(buffer[..])[..valueLengthPosition];
      assert w[valueLengthPosition + 1..position] == key;
      if |key| > 0x7f {
        if |key| > 0x3fff {
          position := valueLengthPosition + 1;
          buffer[valueLengthPosition] := 0;
        } else {
          LongLength(w, valueLengthPosition, key, U16(|key| + 0x8000));
          CopyWithin(valueLengthPosition + 2, valueLengthPosition + 1, position);
          SetBytes(valueLengthPosition, U16(|key| + 0x8000));
          position := position + 1;
        }
      } else {
        ShortLength(w, valueLengthPosition, key, |key|);
        buffer[valueLengthPosition] := |key|;
        assert buffer[..] == w[valueLengthPosition := |key|];
      }
      assert buffer[..position] == buffer[..][..position];
    }

    method WriteOptionalInt(present: bool, number: nat)
      requires number < 0x1_0000_0000 && Room(5)
      modifies `position, buffer
      ensures position == old(position) + |OptionalInt(present, number)| <= buffer.Length
      ensures buffer[..position] == old(buffer[..position]) + OptionalInt(present, number)
    {
      if present {
        WriteInt(number);
      }
    }

    method WriteOptionalFloat(present: bool, f: Float64)
      requires Room(8)
      modifies `position, buffer
      ensures position == old(position) + |OptionalFloat(present, f)| <= buffer.Length
      ensures buffer[..position] == old(buffer[..position]) + OptionalFloat(present, f)
    {
      if present {
        Append(f);
      }
    }

    method WriteIds(e: AuditRecord)
      requires WellFormed(e) && Room(20 + |e.recordId|)
      modifies `position, buffer
      ensures old(position) <= position <= old(position) + 20 + |e.recordId|
      ensures buffer[..position] == old(buffer[..position]) + IdBytes(e)
    {
      ghost var before := buffer[..position];
      WriteInt(e.nodeId);
      WriteInt(e.tableId);
      WriteValue(e.recordId);
      Append(e.version);
      AppendFour(before, IntBytes(e.nodeId), IntBytes(e.tableId), ValueBytes(e.recordId), e.version);
    }

    method WriteFlagged(e: AuditRecord)
      requires WellFormed(e) && Room(23)
      modifies `position, buffer
      ensures old(position) <= position <= old(position) + 23
      ensures buffer[..position] == old(buffer[..position]) + FlaggedBytes(e)
    {
      ghost var before := buffer[..position];
      var x := e.extendedType;
      WriteOptionalInt(HasCurrentResidencyId(x), e.residencyId);
      WriteOptionalInt(HasPreviousResidencyId(x), e.previousResidencyId);
      WriteOptionalFloat(HasExpiration(x), e.expiresAt);
      WriteOptionalInt(HasOriginatingOperation(x), OperationCode(e.operation));
      AppendFour(before, OptionalInt(HasCurrentResidencyId(x), e.residencyId),
                 OptionalInt(HasPreviousResidencyId(x), e.previousResidencyId),
                 OptionalFloat(HasExpiration(x), e.expiresAt),
                 OptionalInt(HasOriginatingOperation(x), OperationCode(e.operation)));
    }

    method WriteRef(ref: Ref)
      requires ref.nodeId < 0x1_0000_0000 && Room(13)
      modifies `position, buffer
      ensures old(position) <= position <= old(position) + 13
      ensures buffer[..position] == old(buffer[..position]) + ref.version + IntBytes(ref.nodeId)
    {
      Append(ref.version);
      WriteInt(ref.nodeId);
    }

    method WriteRefs(e: AuditRecord)
      requires WellFormed(e) && Room(1 + 13 * |e.refs|)
      modifies `position, buffer
      ensures old(position) <= position <= old(position) + 1 + 13 * |e.refs|
      ensures buffer[..position] == old(buffer[..position]) + RefsBytes(e)
    {
      if HasAdditionalAuditRefs(e.extendedType) {
        Append([|e.refs| % 256]);
        ghost var before := buffer[..position];
        for i := 0 to |e.refs|
          invariant old(position) < position <= old(position) + 1 + 13 * i
          invariant buffer[..position] + RefList(e.refs[i..]) == before + RefList(e.refs)
        {
          ghost var now := buffer[..position];
          WriteRef(e.refs[i]);
          RefWritten(now, e.refs, i);
        }
        assert e.refs[|e.refs|..] == [] && buffer[..position] + [] == buffer[..position];
      }
    }

    method WriteUser(user: Option<seq<Byte>>)
      requires Room(2 + if user.Some? then |user.value| else 0)
      modifies `position, buffer
      ensures old(position) <= position <= buffer.Length
      ensures buffer[..position] == old(buffer[..position]) + UserBytes(user)
    {
      match user
      case Some(name) => WriteValue(name);
      case None => Append([0]);
    }

    method WriteFields(e: AuditRecord)
      requires WellFormed(e) && Room(Bound(e) - 12)
      modifies `position, buffer
      ensures old(position) <= position <= buffer.Length
      ensures buffer[..position] == old(buffer[..position]) + EntryFields(e)
    {
      ghost var before := buffer[..position];
      WriteIds(e);
      WriteFlagged(e);
      WriteRefs(e);
      WriteUser(e.user);
      AppendFour(before, IdBytes(e), FlaggedBytes(e), RefsBytes(e), UserBytes(e.user));
    }

    /**
     Creates an entry in the buffer after what is already there up to `start`; the byte or bytes of the action
     are left open and filled in at the end.
     */
    method CreateAuditEntry(e: AuditRecord, start: nat) returns (result: Created)
      requires InRange(e) && start + Bound(e) <= buffer.Length
      modifies `position, buffer
      ensures e.kind == Unknown ==> result == InvalidType
      ensures e.kind != Unknown && e.extendedType % 256 != 0 ==> result == IllegalExtendedType
      ensures e.kind != Unknown && e.extendedType % 256 == 0 ==> result == Created(old(buffer[..start]) + Encoded(e))
    {
      var action := Code(e.kind);
      if action == 0 {
        return InvalidType;
      }
      position := start + 1;
      if !e.previous.NoPrevious? {
        SetBytes(start, PreviousBytes(e.previous));
        position := start + 9;
      }
      if e.extendedType != 0 {
        if e.extendedType % 256 != 0 {
          return IllegalExtendedType;
        }
        position := position + 3;
      }
      ghost var head := buffer[..position];
      var at := start + if e.previous.NoPrevious? then 0 else 8;
      assert head[..at] == old(buffer[..start]) + PreviousBytes(e.previous);
      WriteFields(e);
      ghost var w := buffer[..];
      SetBytes(at, ActionBytes(e));
      ActionFilledIn(w, at, position, head, EntryFields(e), ActionBytes(e));
      assert buffer[..position] == head[..at] + ActionBytes(e) + EntryFields(e);
      EntryAssembled(e, old(buffer[..start]));
      result := Created(buffer[..position] + e.encodedRecord);
    }

    /** Writes the prefix of a log entry and the entry after it. */
    method PutInLog(e: AuditRecord, structureVersion: nat, previousNodeId: nat) returns (result: Created)
      requires WellFormed(e) && e.kind != Unknown && structureVersion < 0x100_0000 && previousNodeId < 0x1_0000_0000
      requires 12 + Bound(e) <= buffer.Length
      modifies `position, buffer
      ensures result == Created(LogBytes(e, structureVersion, previousNodeId))
    {
      LogFlagsRead(e, structureVersion);
      SetBytes(0, U32(LogFlags(e, structureVersion)));
      var at := 4;
      ghost var residency, node: seq<Byte> := [], [];
      assert buffer[..at] == buffer[..][..at] == U32(LogFlags(e, structureVersion));
      if e.previousResidencyId != 0 {
        residency := U32(e.previousResidencyId);
        SetBytes(4, U32(e.previousResidencyId));
        at := 8;
      }
      assert buffer[..at] == buffer[..][..at] == U32(LogFlags(e, structureVersion)) + residency;
      if previousNodeId != 0 {
        node := U32(previousNodeId);
        SetBytes(at, U32(previousNodeId));
        at := at + 4;
      }
      assert buffer[..at] == buffer[..][..at] == U32(LogFlags(e, structureVersion)) + residency + node;
      AppendTwo(U32(LogFlags(e, structureVersion)) + residency, node, Encoded(e));
      AppendTwo(U32(LogFlags(e, structureVersion)), residency, node + Encoded(e));
      result := CreateAuditEntry(e, at);
    }
  }

  /** References read so far, and then others. */
  ghost function After(list: seq<Ref>, more: Parsed<seq<Ref>>): Parsed<seq<Ref>> {
    if more.Failed? then Failed else Parsed(list + more.value, more.rest)
  }

  lemma NothingBefore(more: Parsed<seq<Ref>>)
    ensures After([], more) == more
  {
    assert more.Parsed? ==> [] + more.value == more.value;
  }

  lemma AfterOneMore(list: seq<Ref>, ref: Ref, count: nat, s: seq<Byte>)
    requires count > 0 && ReadFloat(s).Parsed? && ReadFloat(s).value == ref.version
    requires var n := AuditFormat.ReadInt(ReadFloat(s).rest); n.Parsed? && n.value == ref.nodeId
    ensures After(list, ReadRefList(count, s))
         == After(list + [ref], ReadRefList(count - 1, AuditFormat.ReadInt(ReadFloat(s).rest).rest))
  {
    var tail := ReadRefList(count - 1, AuditFormat.ReadInt(ReadFloat(s).rest).rest);
    assert tail.Parsed? ==> list + ([ref] + tail.value) == (list + [ref]) + tail.value;
  }

  class Decoder {
    const data: seq<Byte>
    var position: nat

    constructor (data: seq<Byte>, position: nat)
      ensures this.data == data && this.position == position
    {
      this.data, this.position := data, position;
    }

    /** What is still to be read; a position past the end leaves nothing. */
    function Rest(): seq<Byte>
      reads this
    {
      if position <= |data| then data[position..] else []
    }

    /** Advances past bytes that are there, or fails as the view does. */
    method Take(length: nat) returns (bytes: Option<seq<Byte>>)
      modifies `position
      ensures |old(Rest())| >= length && length > 0 ==>
        bytes == Some(old(Rest())[..length]) && Rest() == old(Rest())[length..]
      ensures |old(Rest())| < length ==> bytes == None
    {
      if position + length > |data| {
        return None;
      }
      ghost var rest := Rest();
      bytes := Some(data[position..position + length]);
      position := position + length;
      assert bytes.value == rest[..length] && data[position..] == rest[length..];
    }

    method ReadInt() returns (number: Option<nat>)
      modifies `position
      ensures var parsed := AuditFormat.ReadInt(old(Rest()));
              if parsed.Failed? then number == None else number == Some(parsed.value) && Rest() == parsed.rest
    {
      if position >= |data| {
        return None;
      }
      ghost var rest := Rest();
      var first := data[position];
      if first < 0x80 {
        position := position + 1;
        return Some(first);
      }
      if first >= 0xc0 {
        if first == 0xff {
          position := position + 1;
          var bytes := Take(4);
          return if bytes.None? then None else Some(FromU32(bytes.value));
        }
        var bytes := Take(4);
        return if bytes.None? then None else Some(FromU32(bytes.value) % 0x4000_0000);
      }
      var bytes := Take(2);
      return if bytes.None? then None else Some(FromU16(bytes.value) % 0x8000);
    }

    method ReadFloat64() returns (value: Option<Float64>)
      modifies `position
      ensures var parsed := ReadFloat(old(Rest()));
              if parsed.Failed? then value == None else value == Some(parsed.value) && Rest() == parsed.rest
    {
      value := Take(8);
    }

    method ReadUint32() returns (number: Option<nat>)
      modifies `position
      ensures var parsed := ReadU32(old(Rest()));
              if parsed.Failed? then number == None else number == Some(parsed.value) && Rest() == parsed.rest
    {
      var bytes := Take(4);
      number := if bytes.None? then None else Some(FromU32(bytes.value));
    }

    /** A length and as many bytes, or those that are there. */
    method ReadKey() returns (key: Option<seq<Byte>>)
      modifies `position
      ensures var parsed := ReadValue(old(Rest()));
              if parsed.Failed? then key == None else key == Some(parsed.value) && Rest() == parsed.rest
    {
      var length := ReadInt();
      if length.None? {
        return None;
      }
      ghost var rest := Rest();
      var start := position;
      position := position + length.value;
      key := Some(if start >= |data| then [] else if position <= |data| then data[start..position] else data[start..]);
      if position <= |data| {
        assert data[start..position] == rest[..length.value] && data[position..] == rest[length.value..];
      }
    }

    method ReadIds() returns (ids: Option<Ids>)
      modifies `position
      ensures var parsed := AuditFormat.ReadIds(old(Rest()));
              if parsed.Failed? then ids == None else ids == Some(parsed.value) && Rest() == parsed.rest
    {
      var nodeId := ReadInt();
      if nodeId.None? {
        return None;
      }
      var tableId := ReadInt();
      if tableId.None? {
        return None;
      }
      var recordId := ReadKey();
      if recordId.None? {
        return None;
      }
      var version := ReadFloat64();
      if version.None? {
        return None;
      }
      ids := Some(Ids(nodeId.value, tableId.value, recordId.value, version.value));
    }

    method ReadOptionalInt(present: bool) returns (number: Option<Option<nat>>)
      modifies `position
      ensures var parsed := AuditFormat.ReadOptionalInt(present, old(Rest()));
              if parsed.Failed? then number == None else number == Some(parsed.value) && Rest() == parsed.rest
    {
      if !present {
        return Some(None);
      }
      var n := ReadInt();
      number := if n.None? then None else Some(n);
    }

    method ReadOptionalFloat(present: bool) returns (value: Option<Option<Float64>>)
      modifies `position
      ensures var parsed := AuditFormat.ReadOptionalFloat(present, old(Rest()));
              if parsed.Failed? then value == None else value == Some(parsed.value) && Rest() == parsed.rest
    {
      if !present {
        return Some(None);
      }
      var f := ReadFloat64();
      value := if f.None? then None else Some(f);
    }

    method ReadFlagged(action: nat) returns (flagged: Option<Flagged>)
      modifies `position
      ensures var parsed := AuditFormat.ReadFlagged(action, old(Rest()));
              if parsed.Failed? then flagged == None else flagged == Some(parsed.value) && Rest() == parsed.rest
    {
      var residencyId := ReadOptionalInt(HasCurrentResidencyId(action));
      if residencyId.None? {
        return None;
      }
      var previousResidencyId := ReadOptionalInt(HasPreviousResidencyId(action));
      if previousResidencyId.None? {
        return None;
      }
      var expiresAt := ReadOptionalFloat(HasExpiration(action));
      if expiresAt.None? {
        return None;
      }
      var operationId := ReadOptionalInt(HasOriginatingOperation(action));
      if operationId.None? {
        return None;
      }
      var operation := if operationId.value.Some? then OperationOf(operationId.value.value) else None;
      flagged := Some(Flagged(residencyId.value, previousResidencyId.value, expiresAt.value, operation));
    }

    method ReadRefList(count: nat) returns (refs: Option<seq<Ref>>)
      modifies `position
      ensures var parsed := AuditFormat.ReadRefList(count, old(Rest()));
              if parsed.Failed? then refs == None else refs == Some(parsed.value) && Rest() == parsed.rest
    {
      ghost var whole := AuditFormat.ReadRefList(count, Rest());
      var list := [];
      NothingBefore(whole);
      for i := 0 to count
        invariant whole == After(list, AuditFormat.ReadRefList(count - i, Rest()))
      {
        ghost var rest := Rest();
        var refVersion := ReadFloat64();
        if refVersion.None? {
          return None;
        }
        var refNodeId := ReadInt();
        if refNodeId.None? {
          return None;
        }
        var ref := Ref(refVersion.value, refNodeId.value);
        AfterOneMore(list, ref, count - i, rest);
        list := list + [ref];
      }
      assert list + [] == list;
      refs := Some(list);
    }

    /** Past the end there is no count, and nothing for the rest of the entry to be read from. */
    method ReadRefs(action: nat) returns (refs: Option<Option<seq<Ref>>>)
      modifies `position
      ensures var parsed := AuditFormat.ReadRefs(action, old(Rest()));
              if parsed.Failed? then refs == None || Rest() == [] else refs == Some(parsed.value) && Rest() == parsed.rest
    {
      if !HasAdditionalAuditRefs(action) {
        return Some(None);
      }
      var count := if position < |data| then data[position] else 0;
      position := position + 1;
      if count == 0 {
        return Some(None);
      }
      var list := ReadRefList(count);
      refs := if list.None? then None else Some(list);
    }

    method ReadAuditEntry(start: nat) returns (entry: Option<AuditEntry>)
      modifies `position
      ensures start <= |data| ==> entry == Read(data[start..])
    {
      position := start;
      var previous := NoPrevious;
      if position < |data| && data[position] == 66 {
        var version := ReadFloat64();
        if version.None? {
          return None;
        }
        previous := At(version.value);
      }
      entry := ReadAfterPrevious(previous);
    }

    method ReadAfterPrevious(previous: Previous) returns (entry: Option<AuditEntry>)
      modifies `position
      ensures entry == AuditFormat.ReadAfterPrevious(previous, old(Rest()))
    {
      var action := ReadInt();
      if action.None? {
        return None;
      }
      var ids := ReadIds();
      if ids.None? {
        return None;
      }
      var flagged := ReadFlagged(action.value);
      if flagged.None? {
        return None;
      }
      var refs := ReadRefs(action.value);
      if refs.None? {
        return None;
      }
      var user := ReadKey();
      if user.None? {
        return None;
      }
      entry := Some(AuditEntry(TypeOfAction(action.value), previous, action.value, ids.value.nodeId, ids.value.tableId,
                               ids.value.recordId, ids.value.version, flagged.value, refs.value,
                               If(user.value != [], user.value), Rest()));
    }

    /** An entry of the transaction log, whose prefix is not meant for replication. */
    method ReadLogEntry(timestamp: Float64) returns (entry: Option<LogEntry>)
      modifies `position
      ensures entry == ReadLog(data, timestamp)
    {
      if |data| < 4 {
        return None;
      }
      var flags, at, previousResidencyId, previous := FromU32(data), 4, None, NoPrevious;
      if flags / 0x4000_0000 % 2 == 1 {
        if |data| < 8 {
          return None;
        }
        previousResidencyId := Some(FromU32(data[4..]));
        at := 8;
      }
      if flags / 0x2000_0000 % 2 == 1 {
        position := at;
        var version := ReadFloat64();
        if version.None? {
          return None;
        }
        assert data[at + 8..] == data[at..][8..];
        previous := At(version.value);
        at := at + 8;
      }
      var read := ReadAuditEntry(at);
      entry := InLog(read, flags % 0x100_0000, previousResidencyId, previous, timestamp);
    }
  }
}
