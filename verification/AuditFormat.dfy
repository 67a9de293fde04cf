/**
 The binary form of an audit entry (resources/auditStore.ts) and of the entry in a RocksDB transaction log
 around it (resources/RocksTransactionLogStore.ts): what is written, what is read, and exactly when the two agree.
 A double is its eight bytes, and a key or a user name the bytes of its ordered-binary coding.
 */
module AuditFormat {
  import opened Wrappers

  type Byte = b: int | 0 <= b < 256

  type Float64 = s: seq<Byte> | |s| == 8 witness [0, 0, 0, 0, 0, 0, 0, 0]

  datatype EventType =
    | Put | Delete | Message | Invalidate | Patch | Relocate | Structures | RemoteSequenceUpdate | Unknown

  datatype Operation = Insert | Update | Upsert

  /** The previous version: none, one that the store fills in (any number up to 1), or a time. */
  datatype Previous = NoPrevious | Placeholder | At(version: Float64)

  datatype Ref = Ref(version: Float64, nodeId: nat)

  datatype AuditRecord = AuditRecord(
    kind: EventType, previous: Previous, extendedType: nat, nodeId: nat, tableId: nat, recordId: seq<Byte>,
    version: Float64, residencyId: nat, previousResidencyId: nat, expiresAt: Float64, operation: Operation,
    refs: seq<Ref>, user: Option<seq<Byte>>, encodedRecord: seq<Byte>)

  /** The fields that are there when their flag is set. */
  datatype Flagged = Flagged(residencyId: Option<nat>, previousResidencyId: Option<nat>,
                             expiresAt: Option<Float64>, operation: Option<Operation>)

  datatype AuditEntry = AuditEntry(
    kind: EventType, previous: Previous, action: nat, nodeId: nat, tableId: nat, recordId: seq<Byte>,
    version: Float64, flagged: Flagged, refs: Option<seq<Ref>>, user: Option<seq<Byte>>, value: seq<Byte>)

  // ----- the flags among the bits of an extended type

  predicate Bit(bits: nat, k: nat) {
    if k == 0 then bits % 2 == 1 else Bit(bits / 2, k - 1)
  }

  lemma {:induction false} BitOfZero(k: nat)
    ensures !Bit(0, k)
  {
    if k == 0 {
    } else {
      BitOfZero(k - 1);
    }
  }

  predicate HasCurrentResidencyId(bits: nat) {
    Bit(bits, 9)
  }

  predicate HasPreviousResidencyId(bits: nat) {
    Bit(bits, 10)
  }

  predicate HasOriginatingOperation(bits: nat) {
    Bit(bits, 11)
  }

  predicate HasExpiration(bits: nat) {
    Bit(bits, 12)
  }

  predicate HasAdditionalAuditRefs(bits: nat) {
    Bit(bits, 14)
  }

  function Halved(n: nat, k: nat): nat {
    if k == 0 then n else Halved(n / 2, k - 1)
  }

  lemma {:induction false} BitOfHalved(n: nat, k: nat, j: nat)
    requires k <= j
    ensures Bit(n, j) == Bit(Halved(n, k), j - k)
  {
    if k == 0 {
    } else {
      BitOfHalved(n / 2, k - 1, j - 1);
    }
  }

  lemma {:induction false} HalvedTwice(n: nat, k: nat, l: nat)
    ensures Halved(n, k + l) == Halved(Halved(n, k), l)
  {
    if k == 0 {
    } else {
      HalvedTwice(n / 2, k - 1, l);
    }
  }

  lemma HalvedFourTimes(n: nat)
    ensures Halved(n, 4) == n / 16
  {
    assert Halved(n, 4) == Halved(n / 2, 3) == Halved(n / 4, 2) == Halved(n / 8, 1) == Halved(n / 16, 0);
  }

  lemma LowByteHalved(n: nat)
    ensures Halved(n, 8) == n / 256
  {
    HalvedTwice(n, 4, 4);
    HalvedFourTimes(n);
    HalvedFourTimes(n / 16);
  }

  /** Bits above the lowest byte do not depend on it. */
  lemma HighBit(extendedType: nat, code: nat, j: nat)
    requires extendedType % 256 == 0 && code < 256 && j >= 8
    ensures Bit(extendedType + code, j) == Bit(extendedType, j)
  {
    BitOfHalved(extendedType + code, 8, j);
    BitOfHalved(extendedType, 8, j);
    LowByteHalved(extendedType + code);
    LowByteHalved(extendedType);
  }

  function Code(kind: EventType): (code: nat)
    ensures code < 64 && (code == 0 <==> kind == Unknown)
  {
    match kind
    case Put => 17
    case Delete => 2
    case Message => 19
    case Invalidate => 36
    case Patch => 37
    case Relocate => 6
    case Structures => 7
    case RemoteSequenceUpdate => 11
    case Unknown => 0
  }

  function TypeOfNumber(number: nat): EventType {
    match number
    case 1 => Put
    case 2 => Delete
    case 3 => Message
    case 4 => Invalidate
    case 5 => Patch
    case 6 => Relocate
    case 7 => Structures
    case _ => Unknown
  }

  /** The type that is read back from the three low bits. */
  function TypeOfAction(action: nat): EventType {
    TypeOfNumber(action % 8)
  }

  function OperationCode(operation: Operation): nat {
    match operation
    case Insert => 1
    case Update => 2
    case Upsert => 3
  }

  function OperationOf(id: nat): Option<Operation> {
    if id == 1 then Some(Insert) else if id == 2 then Some(Update) else if id == 3 then Some(Upsert) else None
  }

  // ----- numbers

  function U16(n: nat): (bytes: seq<Byte>)
    requires n < 0x1_0000
    ensures |bytes| == 2
  {
    [n / 256, n % 256]
  }

  function U32(n: nat): (bytes: seq<Byte>)
    requires n < 0x1_0000_0000
    ensures |bytes| == 4
  {
    [n / 0x100_0000, n / 0x1_0000 % 256, n / 256 % 256, n % 256]
  }

  function FromU16(s: seq<Byte>): nat
    requires |s| >= 2
  {
    s[0] as int * 256 + s[1]
  }

  function FromU32(s: seq<Byte>): nat
    requires |s| >= 4
  {
    s[0] as int * 0x100_0000 + s[1] as int * 0x1_0000 + s[2] as int * 256 + s[3]
  }

  lemma U32Inverse(n: nat, rest: seq<Byte>)
    requires n < 0x1_0000_0000
    ensures FromU32(U32(n) + rest) == n
  {
    var high := n / 0x1_0000;
    assert n / 256 == high * 256 + n / 256 % 256;
    assert n / 0x100_0000 == high / 256;
    assert high == high / 256 * 256 + high % 256;
  }

  function IntBytes(n: nat): (bytes: seq<Byte>)
    requires n < 0x1_0000_0000
    ensures 1 <= |bytes| <= 5
  {
    if n < 128 then [n]
    else if n < 0x4000 then U16(n + 0x8000)
    else if n < 0x3f00_0000 then U32(n + 0xc000_0000)
    else [0xff] + U32(n)
  }

  datatype Parsed<+T> = Failed | Parsed(value: T, rest: seq<Byte>)

  function ReadInt(s: seq<Byte>): Parsed<nat> {
    if |s| < 1 then Failed
    else if s[0] < 0x80 then Parsed(s[0], s[1..])
    else if s[0] < 0xc0 then
      if |s| < 2 then Failed else Parsed(FromU16(s) % 0x8000, s[2..])
    else if s[0] == 0xff then
      if |s| < 5 then Failed else Parsed(FromU32(s[1..]), s[5..])
    else if |s| < 4 then Failed
    else Parsed(FromU32(s) % 0x4000_0000, s[4..])
  }

  lemma ShortIntRoundTrip(n: nat, rest: seq<Byte>)
    requires n < 0x4000
    ensures ReadInt(IntBytes(n) + rest) == Parsed(n, rest)
  {
    var s := IntBytes(n) + rest;
    assert s[|IntBytes(n)|..] == rest;
    assert n >= 128 ==> s[0] == (n + 0x8000) / 256 && s[1] == n % 256;
  }

  /** Every 32-bit natural is read back, in whichever of the four forms it was written. */
  lemma IntRoundTrip(n: nat, rest: seq<Byte>)
    requires n < 0x1_0000_0000
    ensures ReadInt(IntBytes(n) + rest) == Parsed(n, rest)
  {
    var s := IntBytes(n) + rest;
    if n < 0x4000 {
      ShortIntRoundTrip(n, rest);
    } else if n < 0x3f00_0000 {
      U32Inverse(n + 0xc000_0000, rest);
      assert s[4..] == rest;
    } else {
      U32Inverse(n, rest);
      assert s[1..] == U32(n) + rest && s[5..] == rest;
    }
  }

  function ReadFloat(s: seq<Byte>): Parsed<Float64> {
    if |s| < 8 then Failed else Parsed(s[..8], s[8..])
  }

  function ReadU32(s: seq<Byte>): Parsed<nat> {
    if |s| < 4 then Failed else Parsed(FromU32(s), s[4..])
  }

  lemma FloatRoundTrip(f: Float64, rest: seq<Byte>)
    ensures ReadFloat(f + rest) == Parsed(f, rest)
  {
    assert (f + rest)[..8] == f && (f + rest)[8..] == rest;
  }

  // ----- keys

  /** A length in one or two bytes before the key; a key that is too long is replaced by an empty one. */
  function ValueBytes(key: seq<Byte>): (bytes: seq<Byte>)
    ensures 1 <= |bytes| <= |key| + 2
  {
    if |key| <= 0x7f then [|key|] + key
    else if |key| <= 0x3fff then U16(|key| + 0x8000) + key
    else [0]
  }

  function KeptKey(key: seq<Byte>): seq<Byte> {
    if |key| <= 0x3fff then key else []
  }

  lemma ValueBytesAreLengthAndKey(key: seq<Byte>)
    ensures ValueBytes(key) == IntBytes(|KeptKey(key)|) + KeptKey(key)
  {
    assert [0] + [] == [0];
  }

  function Slice(s: seq<Byte>, length: nat): Parsed<seq<Byte>> {
    if |s| < length then Parsed(s, []) else Parsed(s[..length], s[length..])
  }

  function ReadValue(s: seq<Byte>): Parsed<seq<Byte>> {
    var length := ReadInt(s);
    if length.Failed? then Failed else Slice(length.rest, length.value)
  }

  lemma ValueRoundTrip(key: seq<Byte>, rest: seq<Byte>)
    ensures ReadValue(ValueBytes(key) + rest) == Parsed(KeptKey(key), rest)
  {
    var kept := KeptKey(key);
    ValueBytesAreLengthAndKey(key);
    IntRoundTrip(|kept|, kept + rest);
    assert ValueBytes(key) + rest == IntBytes(|kept|) + (kept + rest);
    assert (kept + rest)[..|kept|] == kept && (kept + rest)[|kept|..] == rest;
  }

  // ----- optional fields

  function ReadOptionalInt(present: bool, s: seq<Byte>): Parsed<Option<nat>> {
    if !present then Parsed(None, s)
    else
      var n := ReadInt(s);
      if n.Failed? then Failed else Parsed(Some(n.value), n.rest)
  }

  function ReadOptionalFloat(present: bool, s: seq<Byte>): Parsed<Option<Float64>> {
    if !present then Parsed(None, s)
    else
      var f := ReadFloat(s);
      if f.Failed? then Failed else Parsed(Some(f.value), f.rest)
  }

  function OptionalInt(present: bool, n: nat): seq<Byte>
    requires n < 0x1_0000_0000
  {
    if present then IntBytes(n) else []
  }

  function OptionalFloat(present: bool, f: Float64): seq<Byte> {
    if present then f else []
  }

  function If<T>(present: bool, t: T): Option<T> {
    if present then Some(t) else None
  }

  lemma OptionalIntRoundTrip(present: bool, n: nat, rest: seq<Byte>)
    requires n < 0x1_0000_0000
    ensures ReadOptionalInt(present, OptionalInt(present, n) + rest) == Parsed(If(present, n), rest)
  {
    assert [] + rest == rest;
    IntRoundTrip(n, rest);
  }

  lemma OptionalFloatRoundTrip(present: bool, f: Float64, rest: seq<Byte>)
    ensures ReadOptionalFloat(present, OptionalFloat(present, f) + rest) == Parsed(If(present, f), rest)
  {
    assert [] + rest == rest;
    FloatRoundTrip(f, rest);
  }

  predicate InRange(e: AuditRecord) {
    && e.nodeId < 0x1_0000_0000 && e.tableId < 0x1_0000_0000
    && e.residencyId < 0x1_0000_0000 && e.previousResidencyId < 0x1_0000_0000
    && (forall i :: 0 <= i < |e.refs| ==> e.refs[i].nodeId < 0x1_0000_0000)
    && e.extendedType < 0x3f00_0000
    && (e.user.Some? ==> e.user.value != [])
  }

  /**
   What the callers of the encoder keep: 32-bit numbers, an extended type made of flags above the lowest byte,
   and a user name that is not empty.
   */
  predicate WellFormed(e: AuditRecord) {
    InRange(e) && e.extendedType % 256 == 0
  }

  function FlaggedBytes(e: AuditRecord): seq<Byte>
    requires WellFormed(e)
  {
    OptionalInt(HasCurrentResidencyId(e.extendedType), e.residencyId)
    + (OptionalInt(HasPreviousResidencyId(e.extendedType), e.previousResidencyId)
       + (OptionalFloat(HasExpiration(e.extendedType), e.expiresAt)
          + OptionalInt(HasOriginatingOperation(e.extendedType), OperationCode(e.operation))))
  }

  function ReadFlaggedFields(residency: bool, previousResidency: bool, expiration: bool, operation: bool,
                             s: seq<Byte>): Parsed<Flagged> {
    var a := ReadOptionalInt(residency, s);
    if a.Failed? then Failed else
    var b := ReadOptionalInt(previousResidency, a.rest);
    if b.Failed? then Failed else
    var c := ReadOptionalFloat(expiration, b.rest);
    if c.Failed? then Failed else
    var d := ReadOptionalInt(operation, c.rest);
    if d.Failed? then Failed else
    Parsed(Flagged(a.value, b.value, c.value, if d.value.Some? then OperationOf(d.value.value) else None), d.rest)
  }

  function ReadFlagged(action: nat, s: seq<Byte>): Parsed<Flagged> {
    ReadFlaggedFields(HasCurrentResidencyId(action), HasPreviousResidencyId(action), HasExpiration(action),
                      HasOriginatingOperation(action), s)
  }

  function FlaggedOf(e: AuditRecord): Flagged {
    Flagged(If(HasCurrentResidencyId(e.extendedType), e.residencyId),
            If(HasPreviousResidencyId(e.extendedType), e.previousResidencyId),
            If(HasExpiration(e.extendedType), e.expiresAt),
            If(HasOriginatingOperation(e.extendedType), e.operation))
  }

  lemma AppendTwo(a: seq<Byte>, b: seq<Byte>, c: seq<Byte>)
    ensures (a + b) + c == a + (b + c)
  {
  }

  lemma AppendAll(a: seq<Byte>, b: seq<Byte>, c: seq<Byte>, d: seq<Byte>, rest: seq<Byte>)
    ensures (a + (b + (c + d))) + rest == a + (b + (c + (d + rest)))
  {
  }

  lemma FlaggedFieldsRoundTrip(residency: bool, previousResidency: bool, expiration: bool, operation: bool,
                               x: nat, y: nat, f: Float64, z: Operation, rest: seq<Byte>)
    requires x < 0x1_0000_0000 && y < 0x1_0000_0000
    ensures ReadFlaggedFields(residency, previousResidency, expiration, operation,
              OptionalInt(residency, x) + (OptionalInt(previousResidency, y)
              + (OptionalFloat(expiration, f) + (OptionalInt(operation, OperationCode(z)) + rest))))
         == Parsed(Flagged(If(residency, x), If(previousResidency, y), If(expiration, f), If(operation, z)), rest)
  {
    var d := OptionalInt(operation, OperationCode(z)) + rest;
    var c := OptionalFloat(expiration, f) + d;
    var b := OptionalInt(previousResidency, y) + c;
    OptionalIntRoundTrip(residency, x, b);
    OptionalIntRoundTrip(previousResidency, y, c);
    OptionalFloatRoundTrip(expiration, f, d);
    OptionalIntRoundTrip(operation, OperationCode(z), rest);
  }

  lemma FlaggedRoundTrip(e: AuditRecord, rest: seq<Byte>)
    requires WellFormed(e)
    ensures ReadFlagged(e.extendedType, FlaggedBytes(e) + rest) == Parsed(FlaggedOf(e), rest)
  {
    var x := e.extendedType;
    AppendAll(OptionalInt(HasCurrentResidencyId(x), e.residencyId),
              OptionalInt(HasPreviousResidencyId(x), e.previousResidencyId),
              OptionalFloat(HasExpiration(x), e.expiresAt),
              OptionalInt(HasOriginatingOperation(x), OperationCode(e.operation)), rest);
    FlaggedFieldsRoundTrip(HasCurrentResidencyId(x), HasPreviousResidencyId(x), HasExpiration(x),
      HasOriginatingOperation(x), e.residencyId, e.previousResidencyId, e.expiresAt, e.operation, rest);
  }

  // ----- additional references

  function RefList(refs: seq<Ref>): seq<Byte>
    requires forall i :: 0 <= i < |refs| ==> refs[i].nodeId < 0x1_0000_0000
  {
    if refs == [] then [] else refs[0].version + (IntBytes(refs[0].nodeId) + RefList(refs[1..]))
  }

  function ReadRefList(count: nat, s: seq<Byte>): Parsed<seq<Ref>> {
    if count == 0 then Parsed([], s) else
    var version := ReadFloat(s);
    if version.Failed? then Failed else
    var nodeId := ReadInt(version.rest);
    if nodeId.Failed? then Failed else
    var refs := ReadRefList(count - 1, nodeId.rest);
    if refs.Failed? then Failed else Parsed([Ref(version.value, nodeId.value)] + refs.value, refs.rest)
  }

  lemma {:induction false} RefListRoundTrip(refs: seq<Ref>, rest: seq<Byte>)
    requires forall i :: 0 <= i < |refs| ==> refs[i].nodeId < 0x1_0000_0000
    ensures ReadRefList(|refs|, RefList(refs) + rest) == Parsed(refs, rest)
  {
    if refs == [] {
      assert [] + rest == rest;
    } else {
      var node, more := IntBytes(refs[0].nodeId), RefList(refs[1..]);
      assert RefList(refs) + rest == refs[0].version + (node + (more + rest));
      FloatRoundTrip(refs[0].version, node + (more + rest));
      IntRoundTrip(refs[0].nodeId, more + rest);
      RefListRoundTrip(refs[1..], rest);
      assert [refs[0]] + refs[1..] == refs;
    }
  }

  lemma {:induction false} ReadRefListLength(count: nat, s: seq<Byte>)
    ensures var refs := ReadRefList(count, s); refs.Parsed? ==> |refs.value| == count
  {
    if count == 0 {
    } else {
      var version := ReadFloat(s);
      if version.Parsed? {
        var nodeId := ReadInt(version.rest);
        if nodeId.Failed? {
        } else {
          ReadRefListLength(count - 1, nodeId.rest);
        }
      }
    }
  }

  /** The number of references is written in one byte. */
  function RefsBytes(e: AuditRecord): seq<Byte>
    requires WellFormed(e)
  {
    if HasAdditionalAuditRefs(e.extendedType) then [|e.refs| % 256] + RefList(e.refs) else []
  }

  function ReadRefs(action: nat, s: seq<Byte>): Parsed<Option<seq<Ref>>> {
    if !HasAdditionalAuditRefs(action) then Parsed(None, s)
    else if s == [] then Failed
    else if s[0] == 0 then Parsed(None, s[1..])
    else
      var refs := ReadRefList(s[0], s[1..]);
      if refs.Failed? then Failed else Parsed(Some(refs.value), refs.rest)
  }

  function RefsOf(e: AuditRecord): Option<seq<Ref>> {
    If(HasAdditionalAuditRefs(e.extendedType) && e.refs != [], e.refs)
  }

  predicate TooManyRefs(e: AuditRecord) {
    HasAdditionalAuditRefs(e.extendedType) && |e.refs| > 255
  }

  lemma RefsKept(e: AuditRecord, rest: seq<Byte>)
    requires WellFormed(e) && HasAdditionalAuditRefs(e.extendedType) && |e.refs| <= 255
    ensures ReadRefs(e.extendedType, RefsBytes(e) + rest) == Parsed(RefsOf(e), rest)
  {
    var s := RefsBytes(e) + rest;
    assert s[0] == |e.refs| && s[1..] == RefList(e.refs) + rest;
    RefListRoundTrip(e.refs, rest);
    assert [] + rest == rest;
  }

  /** As many references are read as the count says. */
  lemma CountedRefs(action: nat, count: Byte, s: seq<Byte>)
    requires HasAdditionalAuditRefs(action)
    ensures var refs := ReadRefs(action, [count] + s);
            refs.Parsed? ==> (count == 0 && refs.value.None?) || (refs.value.Some? && |refs.value.value| == count)
  {
    assert ([count] + s)[1..] == s;
    ReadRefListLength(count, s);
  }

  lemma RefsMiscounted(e: AuditRecord, rest: seq<Byte>)
    requires WellFormed(e) && HasAdditionalAuditRefs(e.extendedType) && |e.refs| > 255
    ensures var refs := ReadRefs(e.extendedType, RefsBytes(e) + rest); refs.Failed? || refs.value != RefsOf(e)
  {
    AppendTwo([|e.refs| % 256], RefList(e.refs), rest);
    CountedRefs(e.extendedType, |e.refs| % 256, RefList(e.refs) + rest);
  }

  lemma RefsRoundTrip(e: AuditRecord, rest: seq<Byte>)
    requires WellFormed(e)
    ensures var refs := ReadRefs(e.extendedType, RefsBytes(e) + rest);
            if TooManyRefs(e) then refs.Failed? || refs.value != RefsOf(e) else refs == Parsed(RefsOf(e), rest)
  {
    if !HasAdditionalAuditRefs(e.extendedType) {
      assert [] + rest == rest;
    } else if |e.refs| <= 255 {
      RefsKept(e, rest);
    } else {
      RefsMiscounted(e, rest);
    }
  }

  // ----- whole entries

  function PreviousBytes(previous: Previous): seq<Byte> {
    match previous
    case NoPrevious => []
    case Placeholder => [1, 1, 1, 1, 3, 0x40, 0, 0]
    case At(version) => version
  }

  function ActionBytes(e: AuditRecord): seq<Byte>
    requires WellFormed(e)
  {
    if e.extendedType == 0 then [Code(e.kind)] else U32(0xc000_0000 + e.extendedType + Code(e.kind))
  }

  function UserBytes(user: Option<seq<Byte>>): seq<Byte> {
    match user
    case None => [0]
    case Some(name) => ValueBytes(name)
  }

  function IdBytes(e: AuditRecord): seq<Byte>
    requires WellFormed(e)
  {
    IntBytes(e.nodeId) + (IntBytes(e.tableId) + (ValueBytes(e.recordId) + e.version))
  }

  function EncodedAfterPrevious(e: AuditRecord): seq<Byte>
    requires WellFormed(e)
  {
    ActionBytes(e) + (IdBytes(e) + (FlaggedBytes(e) + (RefsBytes(e) + (UserBytes(e.user) + e.encodedRecord))))
  }

  function Encoded(e: AuditRecord): seq<Byte>
    requires WellFormed(e)
  {
    PreviousBytes(e.previous) + EncodedAfterPrevious(e)
  }

  function ReadPrevious(s: seq<Byte>): Parsed<Previous> {
    if s != [] && s[0] == 66 then
      var version := ReadFloat(s);
      if version.Failed? then Failed else Parsed(At(version.value), version.rest)
    else Parsed(NoPrevious, s)
  }

  datatype Ids = Ids(nodeId: nat, tableId: nat, recordId: seq<Byte>, version: Float64)

  function ReadIds(s: seq<Byte>): Parsed<Ids> {
    var nodeId := ReadInt(s);
    if nodeId.Failed? then Failed else
    var tableId := ReadInt(nodeId.rest);
    if tableId.Failed? then Failed else
    var recordId := ReadValue(tableId.rest);
    if recordId.Failed? then Failed else
    var version := ReadFloat(recordId.rest);
    if version.Failed? then Failed else
    Parsed(Ids(nodeId.value, tableId.value, recordId.value, version.value), version.rest)
  }

  function ReadRefsAndUser(previous: Previous, action: nat, ids: Ids, flagged: Flagged, s: seq<Byte>): Option<AuditEntry> {
    var refs := ReadRefs(action, s);
    if refs.Failed? then None else
    var user := ReadValue(refs.rest);
    if user.Failed? then None else
    Some(AuditEntry(TypeOfAction(action), previous, action, ids.nodeId, ids.tableId, ids.recordId, ids.version,
                    flagged, refs.value, If(user.value != [], user.value), user.rest))
  }

  function ReadAfterPrevious(previous: Previous, s: seq<Byte>): Option<AuditEntry> {
    var action := ReadInt(s);
    if action.Failed? then None else
    var ids := ReadIds(action.rest);
    if ids.Failed? then None else
    var flagged := ReadFlagged(action.value, ids.rest);
    if flagged.Failed? then None else
    ReadRefsAndUser(previous, action.value, ids.value, flagged.value, flagged.rest)
  }

  function Read(s: seq<Byte>): Option<AuditEntry> {
    var previous := ReadPrevious(s);
    if previous.Failed? then None else ReadAfterPrevious(previous.value, previous.rest)
  }

  lemma IdsRoundTrip(e: AuditRecord, rest: seq<Byte>)
    requires WellFormed(e)
    ensures ReadIds(IdBytes(e) + rest) == Parsed(Ids(e.nodeId, e.tableId, KeptKey(e.recordId), e.version), rest)
  {
    var c := ValueBytes(e.recordId) + (e.version + rest);
    var b := IntBytes(e.tableId) + c;
    AppendAll(IntBytes(e.nodeId), IntBytes(e.tableId), ValueBytes(e.recordId), e.version, rest);
    IntRoundTrip(e.nodeId, b);
    IntRoundTrip(e.tableId, c);
    ValueRoundTrip(e.recordId, e.version + rest);
    FloatRoundTrip(e.version, rest);
  }

  /** What a reader of the entry should see. */
  function Expected(e: AuditRecord): AuditEntry {
    AuditEntry(e.kind, e.previous, e.extendedType + Code(e.kind), e.nodeId, e.tableId, e.recordId,
               e.version, FlaggedOf(e), RefsOf(e), e.user, e.encodedRecord)
  }

  lemma LongFormRead(n: nat, rest: seq<Byte>)
    requires n < 0x3f00_0000
    ensures ReadInt(U32(n + 0xc000_0000) + rest) == Parsed(n, rest)
    ensures (U32(n + 0xc000_0000) + rest)[0] >= 0xc0
  {
    U32Inverse(n + 0xc000_0000, rest);
    assert (U32(n + 0xc000_0000) + rest)[4..] == rest;
  }

  lemma ActionRoundTrip(e: AuditRecord, rest: seq<Byte>)
    requires WellFormed(e)
    ensures ReadInt(ActionBytes(e) + rest) == Parsed(e.extendedType + Code(e.kind), rest)
    ensures (ActionBytes(e) + rest)[0] != 66
  {
    var s := ActionBytes(e) + rest;
    if e.extendedType == 0 {
      assert s[1..] == rest;
    } else {
      LongFormRead(e.extendedType + Code(e.kind), rest);
    }
  }

  predicate SameFlags(a: nat, b: nat) {
    && HasCurrentResidencyId(a) == HasCurrentResidencyId(b) && HasPreviousResidencyId(a) == HasPreviousResidencyId(b)
    && HasExpiration(a) == HasExpiration(b) && HasOriginatingOperation(a) == HasOriginatingOperation(b)
    && HasAdditionalAuditRefs(a) == HasAdditionalAuditRefs(b)
  }

  /** The bits of the action do not reach the flags. */
  lemma FlagsKept(e: AuditRecord)
    requires WellFormed(e)
    ensures SameFlags(e.extendedType + Code(e.kind), e.extendedType)
  {
    HighBit(e.extendedType, Code(e.kind), 9);
    HighBit(e.extendedType, Code(e.kind), 10);
    HighBit(e.extendedType, Code(e.kind), 11);
    HighBit(e.extendedType, Code(e.kind), 12);
    HighBit(e.extendedType, Code(e.kind), 14);
  }

  lemma LowBits(extendedType: nat, code: nat)
    requires extendedType % 256 == 0
    ensures (extendedType + code) % 8 == code % 8
  {
    var k := extendedType / 256;
    assert extendedType == 256 * k;
  }

  /** The flags do not reach the type of the action; a remote sequence update is read as a message. */
  lemma TypeKept(e: AuditRecord)
    requires WellFormed(e) && e.kind != Unknown
    ensures TypeOfAction(e.extendedType + Code(e.kind)) == if e.kind == RemoteSequenceUpdate then Message else e.kind
  {
    LowBits(e.extendedType, Code(e.kind));
  }

  function KeptUser(user: Option<seq<Byte>>): Option<seq<Byte>> {
    if user.Some? && |user.value| <= 0x3fff then user else None
  }

  lemma UserRoundTrip(e: AuditRecord)
    requires WellFormed(e)
    ensures var user := ReadValue(UserBytes(e.user) + e.encodedRecord);
            user.Parsed? && user.rest == e.encodedRecord && If(user.value != [], user.value) == KeptUser(e.user)
  {
    ValueRoundTrip(if e.user.Some? then e.user.value else [], e.encodedRecord);
    assert [0] + [] == [0];
  }

  /** With too many references the reader sees other references or fails. */
  predicate RefsAndUserRead(e: AuditRecord, s: seq<Byte>) {
    var refs := ReadRefs(e.extendedType, s);
    if TooManyRefs(e) then refs.Failed? || refs.value != RefsOf(e)
    else
      && refs.Parsed? && refs.value == RefsOf(e)
      && var user := ReadValue(refs.rest);
         user.Parsed? && user.rest == e.encodedRecord && If(user.value != [], user.value) == KeptUser(e.user)
  }

  lemma RefsAndUserRoundTrip(e: AuditRecord)
    requires WellFormed(e)
    ensures RefsAndUserRead(e, RefsBytes(e) + (UserBytes(e.user) + e.encodedRecord))
  {
    RefsRoundTrip(e, UserBytes(e.user) + e.encodedRecord);
    UserRoundTrip(e);
  }

  /** The stages of the reader, each leaving what the next one starts with. */
  lemma Stages(e: AuditRecord) returns (ids: seq<Byte>, flagged: seq<Byte>, refs: seq<Byte>)
    requires WellFormed(e) && e.kind != Unknown
    ensures ReadInt(EncodedAfterPrevious(e)) == Parsed(e.extendedType + Code(e.kind), ids)
    ensures ReadIds(ids) == Parsed(Ids(e.nodeId, e.tableId, KeptKey(e.recordId), e.version), flagged)
    ensures ReadFlagged(e.extendedType, flagged) == Parsed(FlaggedOf(e), refs)
    ensures RefsAndUserRead(e, refs)
  {
    refs := RefsBytes(e) + (UserBytes(e.user) + e.encodedRecord);
    flagged := FlaggedBytes(e) + refs;
    ids := IdBytes(e) + flagged;
    ActionRoundTrip(e, ids);
    IdsRoundTrip(e, flagged);
    FlaggedRoundTrip(e, refs);
    RefsAndUserRoundTrip(e);
  }

  lemma StagesFollowed(previous: Previous, s: seq<Byte>, action: nat, ids: Parsed<Ids>, flagged: Parsed<Flagged>, s': seq<Byte>)
    requires ReadInt(s) == Parsed(action, s') && ReadIds(s') == ids && ids.Parsed?
    requires ReadFlagged(action, ids.rest) == flagged && flagged.Parsed?
    ensures ReadAfterPrevious(previous, s) == ReadRefsAndUser(previous, action, ids.value, flagged.value, flagged.rest)
  {
  }

  lemma ReadDepends(a: nat, b: nat, s: seq<Byte>, t: seq<Byte>)
    requires SameFlags(a, b)
    ensures ReadFlagged(a, s) == ReadFlagged(b, s) && ReadRefs(a, t) == ReadRefs(b, t)
  {
  }

  function Recovered(e: AuditRecord, previous: Previous): AuditEntry {
    Expected(e).(kind := if e.kind == RemoteSequenceUpdate then Message else e.kind, previous := previous,
                 recordId := KeptKey(e.recordId), user := KeptUser(e.user))
  }

  lemma RefsAndUserFollowed(e: AuditRecord, previous: Previous, s: seq<Byte>)
    requires WellFormed(e) && e.kind != Unknown && RefsAndUserRead(e, s)
    ensures var r := ReadRefsAndUser(previous, e.extendedType + Code(e.kind),
                       Ids(e.nodeId, e.tableId, KeptKey(e.recordId), e.version), FlaggedOf(e), s);
            if TooManyRefs(e) then r.None? || r.value.refs != RefsOf(e) else r == Some(Recovered(e, previous))
  {
    TypeKept(e);
    FlagsKept(e);
    ReadDepends(e.extendedType + Code(e.kind), e.extendedType, s, s);
  }

  /** What reading gives: everything but the names that were too long, unless there are too many references. */
  predicate ReadRecovers(e: AuditRecord, previous: Previous, s: seq<Byte>) {
    var r := ReadAfterPrevious(previous, s);
    if TooManyRefs(e) then r.None? || r.value.refs != RefsOf(e) else r == Some(Recovered(e, previous))
  }

  lemma StagesCombined(e: AuditRecord, previous: Previous, s: seq<Byte>, ids: seq<Byte>, flagged: seq<Byte>, refs: seq<Byte>)
    requires WellFormed(e) && e.kind != Unknown
    requires ReadInt(s) == Parsed(e.extendedType + Code(e.kind), ids)
    requires ReadIds(ids) == Parsed(Ids(e.nodeId, e.tableId, KeptKey(e.recordId), e.version), flagged)
    requires ReadFlagged(e.extendedType, flagged) == Parsed(FlaggedOf(e), refs)
    requires RefsAndUserRead(e, refs)
    ensures ReadRecovers(e, previous, s)
  {
    FlagsKept(e);
    ReadDepends(e.extendedType + Code(e.kind), e.extendedType, flagged, refs);
    StagesFollowed(previous, s, e.extendedType + Code(e.kind), ReadIds(ids), ReadFlagged(e.extendedType, flagged), ids);
    RefsAndUserFollowed(e, previous, refs);
  }

  lemma AfterPreviousRoundTrip(e: AuditRecord, previous: Previous)
    requires WellFormed(e) && e.kind != Unknown
    ensures ReadRecovers(e, previous, EncodedAfterPrevious(e))
  {
    var ids, flagged, refs := Stages(e);
    StagesCombined(e, previous, EncodedAfterPrevious(e), ids, flagged, refs);
  }

  /** What the format can carry, apart from the previous version. */
  predicate Representable(e: AuditRecord) {
    && e.kind != RemoteSequenceUpdate
    && |e.recordId| <= 0x3fff && (e.user.Some? ==> |e.user.value| <= 0x3fff)
    && !TooManyRefs(e)
  }

  /** A previous version that the reader recognises: a double with the first byte of a present-day time. */
  predicate RecognisedPrevious(previous: Previous) {
    previous.NoPrevious? || (previous.At? && previous.version[0] == 66)
  }

  lemma RecoveredExactly(e: AuditRecord, previous: Previous)
    ensures Recovered(e, previous) == Expected(e).(previous := previous)
       <==> e.kind != RemoteSequenceUpdate && |e.recordId| <= 0x3fff && (e.user.Some? ==> |e.user.value| <= 0x3fff)
  {
  }

  lemma ActionFirst(e: AuditRecord)
    requires WellFormed(e)
    ensures EncodedAfterPrevious(e) != [] && EncodedAfterPrevious(e)[0] != 66
  {
    ActionRoundTrip(e, IdBytes(e) + (FlaggedBytes(e) + (RefsBytes(e) + (UserBytes(e.user) + e.encodedRecord))));
  }

  lemma ReadWithPrevious(previous: Previous, tail: seq<Byte>)
    requires tail != [] && tail[0] != 66
    ensures Read(PreviousBytes(previous) + tail)
         == if RecognisedPrevious(previous) then ReadAfterPrevious(previous, tail)
            else ReadAfterPrevious(NoPrevious, PreviousBytes(previous) + tail)
  {
    assert [] + tail == tail;
    if previous.At? {
      FloatRoundTrip(previous.version, tail);
    }
  }

  lemma PreviousIsPassedOn(previous: Previous, s: seq<Byte>)
    ensures var r := ReadAfterPrevious(previous, s); r.Some? ==> r.value.previous == previous
  {
  }

  /**
   An audit entry is read back exactly as it was written if and only if the format can carry it and the previous
   version, if any, is a present-day time.
   */
  lemma DecodesExactly(e: AuditRecord)
    requires WellFormed(e) && e.kind != Unknown
    ensures Read(Encoded(e)) == Some(Expected(e)) <==> Representable(e) && RecognisedPrevious(e.previous)
  {
    ActionFirst(e);
    ReadWithPrevious(e.previous, EncodedAfterPrevious(e));
    AfterPreviousRoundTrip(e, e.previous);
    RecoveredExactly(e, e.previous);
    PreviousIsPassedOn(NoPrevious, Encoded(e));
  }

  // ----- entries of the RocksDB transaction log

  datatype LogEntry = LogEntry(entry: AuditEntry, structureVersion: nat)

  function LogFlags(e: AuditRecord, structureVersion: nat): nat {
    structureVersion + (if e.previous.NoPrevious? then 0 else 0x2000_0000)
    + (if e.previousResidencyId != 0 then 0x4000_0000 else 0)
  }

  /** The node of the previous version is written without a flag of its own. */
  function LogBytes(e: AuditRecord, structureVersion: nat, previousNodeId: nat): seq<Byte>
    requires WellFormed(e) && structureVersion < 0x100_0000 && previousNodeId < 0x1_0000_0000
  {
    U32(LogFlags(e, structureVersion))
    + ((if e.previousResidencyId != 0 then U32(e.previousResidencyId) else [])
       + ((if previousNodeId != 0 then U32(previousNodeId) else []) + Encoded(e)))
  }

  function InLog(entry: Option<AuditEntry>, structureVersion: nat, previousResidencyId: Option<nat>, previous: Previous,
                 timestamp: Float64): Option<LogEntry> {
    if entry.None? then None
    else
      var flagged := entry.value.flagged.(previousResidencyId := previousResidencyId);
      Some(LogEntry(entry.value.(version := timestamp, previous := previous, flagged := flagged), structureVersion))
  }

  function ReadLogEntry(s: seq<Byte>, flags: nat, previousResidencyId: Option<nat>, previous: Previous,
                        timestamp: Float64): Option<LogEntry> {
    InLog(Read(s), flags % 0x100_0000, previousResidencyId, previous, timestamp)
  }

  function ReadLogPrevious(s: seq<Byte>, flags: nat, previousResidencyId: Option<nat>, timestamp: Float64): Option<LogEntry> {
    if flags / 0x2000_0000 % 2 == 0 then ReadLogEntry(s, flags, previousResidencyId, NoPrevious, timestamp)
    else
      var previous := ReadFloat(s);
      if previous.Failed? then None
      else ReadLogEntry(previous.rest, flags, previousResidencyId, At(previous.value), timestamp)
  }

  function ReadLog(s: seq<Byte>, timestamp: Float64): Option<LogEntry> {
    if |s| < 4 then None
    else
      var flags := FromU32(s);
      if flags / 0x4000_0000 % 2 == 0 then ReadLogPrevious(s[4..], flags, None, timestamp)
      else if |s| < 8 then None
      else ReadLogPrevious(s[8..], flags, Some(FromU32(s[4..])), timestamp)
  }

  /** What a reader of the log should see: the timestamp of the log is the version. */
  function ExpectedInLog(e: AuditRecord, structureVersion: nat, timestamp: Float64): LogEntry {
    var flagged := FlaggedOf(e).(previousResidencyId := If(e.previousResidencyId != 0, e.previousResidencyId));
    LogEntry(Expected(e).(version := timestamp, flagged := flagged), structureVersion)
  }

  lemma LogFlagsRead(e: AuditRecord, structureVersion: nat)
    requires structureVersion < 0x100_0000
    ensures var flags := LogFlags(e, structureVersion);
            && flags < 0x1_0000_0000
            && (flags / 0x4000_0000 % 2 == 0 <==> e.previousResidencyId == 0)
            && (flags / 0x2000_0000 % 2 == 0 <==> e.previous.NoPrevious?)
            && flags % 0x100_0000 == structureVersion
  {
  }

  lemma LogPrefixRead(e: AuditRecord, structureVersion: nat, previousNodeId: nat, timestamp: Float64)
    requires WellFormed(e) && structureVersion < 0x100_0000 && previousNodeId < 0x1_0000_0000
    ensures ReadLog(LogBytes(e, structureVersion, previousNodeId), timestamp)
         == ReadLogPrevious((if previousNodeId != 0 then U32(previousNodeId) else []) + Encoded(e),
                            LogFlags(e, structureVersion), If(e.previousResidencyId != 0, e.previousResidencyId), timestamp)
  {
    var s, flags := LogBytes(e, structureVersion, previousNodeId), LogFlags(e, structureVersion);
    var tail := (if previousNodeId != 0 then U32(previousNodeId) else []) + Encoded(e);
    var residency := if e.previousResidencyId != 0 then U32(e.previousResidencyId) else [];
    LogFlagsRead(e, structureVersion);
    U32Inverse(flags, residency + tail);
    assert s[4..] == residency + tail;
    if e.previousResidencyId != 0 {
      U32Inverse(e.previousResidencyId, tail);
      assert s[8..] == (residency + tail)[4..] == tail;
    } else {
      assert residency + tail == tail;
    }
  }

  /** The bytes that a store is to fill in are taken for a time. */
  function PreviousInLog(previous: Previous): Previous {
    if previous.NoPrevious? then NoPrevious else At(PreviousBytes(previous))
  }

  lemma ReadLogWithPrevious(previous: Previous, flags: nat, tail: seq<Byte>, residency: Option<nat>, timestamp: Float64)
    requires flags / 0x2000_0000 % 2 == 0 <==> previous.NoPrevious?
    ensures ReadLogPrevious(PreviousBytes(previous) + tail, flags, residency, timestamp)
         == ReadLogEntry(tail, flags, residency, PreviousInLog(previous), timestamp)
  {
    assert [] + tail == tail;
    if !previous.NoPrevious? {
      FloatRoundTrip(PreviousBytes(previous), tail);
    }
  }

  lemma LogReadsEntry(e: AuditRecord, structureVersion: nat, timestamp: Float64)
    requires WellFormed(e) && structureVersion < 0x100_0000
    ensures ReadLog(LogBytes(e, structureVersion, 0), timestamp)
         == InLog(ReadAfterPrevious(NoPrevious, EncodedAfterPrevious(e)), structureVersion,
                  If(e.previousResidencyId != 0, e.previousResidencyId), PreviousInLog(e.previous), timestamp)
  {
    var tail, flags := EncodedAfterPrevious(e), LogFlags(e, structureVersion);
    LogPrefixRead(e, structureVersion, 0, timestamp);
    LogFlagsRead(e, structureVersion);
    assert [] + Encoded(e) == Encoded(e);
    ReadLogWithPrevious(e.previous, flags, tail, If(e.previousResidencyId != 0, e.previousResidencyId), timestamp);
    ActionFirst(e);
    assert Read(tail) == ReadAfterPrevious(NoPrevious, tail);
  }

  lemma InLogExactly(e: AuditRecord, structureVersion: nat, timestamp: Float64, r: Option<AuditEntry>)
    requires if TooManyRefs(e) then r.None? || r.value.refs != RefsOf(e) else r == Some(Recovered(e, NoPrevious))
    ensures InLog(r, structureVersion, If(e.previousResidencyId != 0, e.previousResidencyId), PreviousInLog(e.previous), timestamp)
         == Some(ExpectedInLog(e, structureVersion, timestamp))
       <==> Representable(e) && !e.previous.Placeholder?
  {
    RecoveredExactly(e, NoPrevious);
  }

  /** Without a node of the previous version, the reader sees the entry exactly when the format can carry it. */
  lemma LogEntryExactly(e: AuditRecord, structureVersion: nat, timestamp: Float64)
    requires WellFormed(e) && e.kind != Unknown && structureVersion < 0x100_0000
    ensures ReadLog(LogBytes(e, structureVersion, 0), timestamp) == Some(ExpectedInLog(e, structureVersion, timestamp))
       <==> Representable(e) && !e.previous.Placeholder?
  {
    LogReadsEntry(e, structureVersion, timestamp);
    AfterPreviousRoundTrip(e, NoPrevious);
    InLogExactly(e, structureVersion, timestamp, ReadAfterPrevious(NoPrevious, EncodedAfterPrevious(e)));
  }

  /**
   Where the reader, at the bytes of the previous node, looks for the action, it finds the action of the entry: in these
   bytes, after a time that they begin, or, with 0xff in front, in the rest of them and one byte of the entry.
   */
  predicate PassesForAction(e: AuditRecord, previousNodeId: nat)
    requires WellFormed(e) && previousNodeId < 0x1_0000_0000
  {
    var action, first := e.extendedType + Code(e.kind), previousNodeId / 0x100_0000;
    if first == 66 then
      var tail := EncodedAfterPrevious(e);
      4 <= |tail| && ReadInt(tail[4..]).Parsed? && ReadInt(tail[4..]).value == action
    else if first == 0xff then previousNodeId == 0xff00_0000 && e.extendedType == 0
    else ReadInt(U32(previousNodeId)).Parsed? && ReadInt(U32(previousNodeId)).value == action
  }

  /** A previous version, if there is one, must be the bytes of the node twice. */
  predicate PassesForEntry(e: AuditRecord, previousNodeId: nat)
    requires WellFormed(e) && previousNodeId < 0x1_0000_0000
  {
    match e.previous
    case At(version) => version == U32(previousNodeId) + U32(previousNodeId) && PassesForAction(e, previousNodeId)
    case Placeholder => false
    case NoPrevious => PassesForAction(e, previousNodeId)
  }

  lemma ActionOfNode(previousNodeId: nat, rest: seq<Byte>)
    requires previousNodeId < 0x1_0000_0000 && previousNodeId / 0x100_0000 != 0xff
    ensures var action := ReadInt(U32(previousNodeId));
            action.Parsed? && ReadInt(U32(previousNodeId) + rest).Parsed? && ReadInt(U32(previousNodeId) + rest).value == action.value
  {
  }

  function LowThree(n: nat): nat {
    (n / 0x1_0000 % 256) * 0x100_0000 + (n / 256 % 256) * 0x1_0000 + (n % 256) * 256
  }

  lemma LowThreeBytes(rest: nat)
    requires rest < 0x100_0000
    ensures LowThree(0xff00_0000 + rest) == rest * 256
  {
    var high, middle, low := rest / 0x1_0000, rest / 256 % 256, rest % 256;
    assert rest == high * 0x1_0000 + middle * 256 + low;
  }

  lemma LastNodeSum(previousNodeId: nat, byte: nat, extendedType: nat, code: nat)
    requires 0xff00_0000 <= previousNodeId < 0x1_0000_0000 && extendedType % 256 == 0 && code < 64
    requires extendedType == 0 ==> byte == code
    requires extendedType > 0 ==> 0xc0 <= byte < 256
    ensures LowThree(previousNodeId) + byte == extendedType + code <==> previousNodeId == 0xff00_0000 && extendedType == 0
  {
    var rest := previousNodeId - 0xff00_0000;
    LowThreeBytes(rest);
    if extendedType > 0 {
      assert (rest * 256 + byte) % 256 == byte;
      assert (extendedType + code) % 256 == code;
    }
  }

  lemma FirstOfAction(e: AuditRecord)
    requires WellFormed(e)
    ensures |EncodedAfterPrevious(e)| > 0
    ensures e.extendedType == 0 ==> EncodedAfterPrevious(e)[0] == Code(e.kind)
    ensures e.extendedType > 0 ==> EncodedAfterPrevious(e)[0] >= 0xc0
  {
  }

  /** With 0xff in front, the last byte of the number is the first one of the entry. */
  lemma ActionOfLastNode(e: AuditRecord, previousNodeId: nat)
    requires WellFormed(e) && e.kind != Unknown && previousNodeId < 0x1_0000_0000 && previousNodeId / 0x100_0000 == 0xff
    ensures var action := ReadInt(U32(previousNodeId) + EncodedAfterPrevious(e));
            action.Parsed? && (action.value == e.extendedType + Code(e.kind) <==> previousNodeId == 0xff00_0000 && e.extendedType == 0)
  {
    var s, tail := U32(previousNodeId) + EncodedAfterPrevious(e), EncodedAfterPrevious(e);
    FirstOfAction(e);
    assert s[1..] == U32(previousNodeId)[1..] + tail;
    LastNodeSum(previousNodeId, tail[0], e.extendedType, Code(e.kind));
  }

  lemma ActionIsPassedOn(previous: Previous, s: seq<Byte>)
    ensures var r := ReadAfterPrevious(previous, s);
            r.Some? ==> ReadInt(s).Parsed? && r.value.action == ReadInt(s).value
  {
  }

  lemma ReadsItsAction(s: seq<Byte>)
    requires s != [] && s[0] != 66
    ensures Read(s).Some? ==> ReadInt(s).Parsed? && Read(s).value.action == ReadInt(s).value
  {
    ActionIsPassedOn(NoPrevious, s);
  }

  lemma ReadsActionAfterTime(s: seq<Byte>)
    requires 8 <= |s| && s[0] == 66
    ensures Read(s).Some? ==> ReadInt(s[8..]).Parsed? && Read(s).value.action == ReadInt(s[8..]).value
  {
    ActionIsPassedOn(ReadPrevious(s).value, s[8..]);
  }

  lemma ShortReadsNothing(s: seq<Byte>)
    requires 0 < |s| < 8 && s[0] == 66
    ensures Read(s).None?
  {
  }

  lemma NodeBeginsTime(e: AuditRecord, previousNodeId: nat)
    requires WellFormed(e) && e.kind != Unknown && previousNodeId < 0x1_0000_0000 && !PassesForAction(e, previousNodeId)
    requires previousNodeId / 0x100_0000 == 66
    ensures var r := Read(U32(previousNodeId) + EncodedAfterPrevious(e)); r.Some? ==> r.value.action != e.extendedType + Code(e.kind)
  {
    var tail := EncodedAfterPrevious(e);
    var s := U32(previousNodeId) + tail;
    assert s[0] == 66;
    if |s| >= 8 {
      assert s[8..] == tail[4..];
      ReadsActionAfterTime(s);
    } else {
      ShortReadsNothing(s);
    }
  }

  /** After the previous version, or without one, the reader takes the bytes of the node for the action. */
  lemma NodeForAction(e: AuditRecord, previousNodeId: nat)
    requires WellFormed(e) && e.kind != Unknown && previousNodeId < 0x1_0000_0000 && !PassesForAction(e, previousNodeId)
    ensures var r := Read(U32(previousNodeId) + EncodedAfterPrevious(e)); r.Some? ==> r.value.action != e.extendedType + Code(e.kind)
  {
    var first := previousNodeId / 0x100_0000;
    if first == 66 {
      NodeBeginsTime(e, previousNodeId);
    } else {
      assert (U32(previousNodeId) + EncodedAfterPrevious(e))[0] == first;
      ReadsItsAction(U32(previousNodeId) + EncodedAfterPrevious(e));
      if first == 0xff {
        ActionOfLastNode(e, previousNodeId);
      } else {
        ActionOfNode(previousNodeId, EncodedAfterPrevious(e));
      }
    }
  }

  lemma NodeForTime(version: Float64, previousNodeId: nat, rest: seq<Byte>)
    requires previousNodeId < 0x1_0000_0000
    ensures var found := ReadFloat(U32(previousNodeId) + (version + rest));
            && found.Parsed? && (found.value == version <==> version == U32(previousNodeId) + U32(previousNodeId))
            && (found.value == version ==> found.rest == U32(previousNodeId) + rest)
  {
    var s, node := U32(previousNodeId) + (version + rest), U32(previousNodeId);
    assert s[..8] == node + version[..4] && s[8..] == version[4..] + rest;
    assert version == version[..4] + version[4..];
    assert node + version[..4] == version ==> version[..4] == node && version[4..] == version[..4];
  }

  /**
   The reader does not skip the node of the previous version. It never sees the entry that was written, for any node
   whose bytes do not pass for those of the entry; writers must leave it out (and they do).
   */
  lemma PreviousNodeIsMisread(e: AuditRecord, structureVersion: nat, previousNodeId: nat, timestamp: Float64)
    requires WellFormed(e) && e.kind != Unknown && structureVersion < 0x100_0000
    requires 0 < previousNodeId < 0x1_0000_0000 && !PassesForEntry(e, previousNodeId)
    ensures ReadLog(LogBytes(e, structureVersion, previousNodeId), timestamp)
         != Some(ExpectedInLog(e, structureVersion, timestamp))
  {
    LogPrefixRead(e, structureVersion, previousNodeId, timestamp);
    LogFlagsRead(e, structureVersion);
    if e.previous.NoPrevious? {
      assert [] + EncodedAfterPrevious(e) == EncodedAfterPrevious(e);
      NodeForAction(e, previousNodeId);
    } else if e.previous.At? {
      NodeForTime(e.previous.version, previousNodeId, EncodedAfterPrevious(e));
      if e.previous.version == U32(previousNodeId) + U32(previousNodeId) {
        NodeForAction(e, previousNodeId);
      }
    }
  }

  /** No small node id passes for an action. */
  lemma SmallNodeIsMisread(e: AuditRecord, previousNodeId: nat)
    requires WellFormed(e) && e.kind != Unknown && 0 < previousNodeId < 0x100_0000
    ensures !PassesForEntry(e, previousNodeId)
  {
  }

  // An entry of which the reader, starting four bytes early, makes the same entry.

  function Seventeens(n: nat): (s: seq<Byte>)
    ensures |s| == n && forall i :: 0 <= i < n ==> s[i] == 17
  {
    if n == 0 then [] else [17] + Seventeens(n - 1)
  }

  const LUCKY_VERSION: Float64 := [0, 0, 0, 0, 0, 0, 0, 0x80]

  const SHIFTED_VERSION: Float64 := [17, 0, 0, 0, 0, 0, 0, 0]

  const LUCKY_NODE: nat := 0xc000_0011

  function Lucky(version: Float64): AuditRecord {
    AuditRecord(Put, NoPrevious, 0, 17, 17, Seventeens(17), version, 0, 0, version, Insert, [], None, [])
  }

  lemma NoBits()
    ensures !HasCurrentResidencyId(0) && !HasPreviousResidencyId(0) && !HasOriginatingOperation(0)
    ensures !HasExpiration(0) && !HasAdditionalAuditRefs(0)
  {
    BitOfZero(9);
    BitOfZero(10);
    BitOfZero(11);
    BitOfZero(12);
    BitOfZero(14);
  }

  lemma NoFlags(e: AuditRecord)
    requires WellFormed(e) && e.extendedType == 0
    ensures FlaggedBytes(e) == [] && RefsBytes(e) == [] && FlaggedOf(e) == Flagged(None, None, None, None) && RefsOf(e) == None
  {
    NoBits();
  }

  lemma LuckyIds(version: Float64)
    ensures IdBytes(Lucky(version)) == Seventeens(20) + version
  {
    assert IntBytes(17) == [17] && ValueBytes(Seventeens(17)) == [17] + Seventeens(17);
    assert [17] + ([17] + (([17] + Seventeens(17)) + version)) == Seventeens(20) + version;
  }

  lemma LuckyEncoded()
    ensures Encoded(Lucky(LUCKY_VERSION)) == [17] + (IdBytes(Lucky(LUCKY_VERSION)) + [0])
  {
    NoFlags(Lucky(LUCKY_VERSION));
  }

  lemma ShiftedByOne()
    ensures LUCKY_VERSION + [0] == [0, 0, 0, 0, 0, 0, 0, 0x80, 0]
    ensures SHIFTED_VERSION + [0x80, 0] == [17] + [0, 0, 0, 0, 0, 0, 0, 0x80, 0]
  {
  }

  /** One byte of the front of a run goes to its end. */
  lemma Shift(run: seq<Byte>, version: Float64, shifted: Float64, rest: seq<Byte>)
    requires forall i :: 0 <= i < |run| ==> run[i] == 17
    requires version + [0] == rest && shifted + [0x80, 0] == [17] + rest
    ensures [17] + ((run + version) + [0]) == (run + shifted) + [0x80, 0]
  {
    AppendTwo(run, version, [0]);
    AppendTwo(run, shifted, [0x80, 0]);
    AppendTwo(run, [17], rest);
    AppendTwo([17], run, rest);
    assert [17] + run == run + [17];
  }

  lemma LuckyBytes()
    ensures Encoded(Lucky(LUCKY_VERSION)) == IdBytes(Lucky(SHIFTED_VERSION)) + [0x80, 0]
  {
    LuckyEncoded();
    LuckyIds(LUCKY_VERSION);
    LuckyIds(SHIFTED_VERSION);
    ShiftedByOne();
    Shift(Seventeens(20), LUCKY_VERSION, SHIFTED_VERSION, [0, 0, 0, 0, 0, 0, 0, 0x80, 0]);
  }

  lemma EmptyInTwoBytes()
    ensures ReadValue([0x80, 0]) == Parsed([], [])
  {
    assert [0x80, 0][2..] == [];
  }

  /** After the action and the ids, two bytes stand for no user and no record. */
  lemma LuckyTail(s: seq<Byte>, t: seq<Byte>, ids: Ids)
    requires s != [] && s[0] != 66 && ReadInt(s) == Parsed(17, t) && ReadIds(t) == Parsed(ids, [0x80, 0])
    ensures Read(s) == Some(AuditEntry(Put, NoPrevious, 17, ids.nodeId, ids.tableId, ids.recordId, ids.version,
                                       Flagged(None, None, None, None), None, None, []))
  {
    NoBits();
    FlagsKept(Lucky(LUCKY_VERSION));
    EmptyInTwoBytes();
    StagesFollowed(NoPrevious, s, 17, ReadIds(t), ReadFlagged(17, [0x80, 0]), t);
  }

  lemma LuckyRead()
    ensures Read(U32(LUCKY_NODE) + Encoded(Lucky(LUCKY_VERSION)))
         == Some(AuditEntry(Put, NoPrevious, 17, 17, 17, Seventeens(17), SHIFTED_VERSION, Flagged(None, None, None, None), None, None, []))
  {
    LuckyBytes();
    LongFormRead(17, Encoded(Lucky(LUCKY_VERSION)));
    IdsRoundTrip(Lucky(SHIFTED_VERSION), [0x80, 0]);
    LuckyTail(U32(LUCKY_NODE) + Encoded(Lucky(LUCKY_VERSION)), Encoded(Lucky(LUCKY_VERSION)), Ids(17, 17, Seventeens(17), SHIFTED_VERSION));
  }

  lemma LuckyPasses()
    ensures PassesForEntry(Lucky(LUCKY_VERSION), LUCKY_NODE)
  {
    LongFormRead(17, []);
    assert U32(LUCKY_NODE) + [] == U32(LUCKY_NODE);
  }

  lemma LuckyPrefix(timestamp: Float64)
    ensures ReadLog(LogBytes(Lucky(LUCKY_VERSION), 0, LUCKY_NODE), timestamp)
         == InLog(Read(U32(LUCKY_NODE) + Encoded(Lucky(LUCKY_VERSION))), 0, None, NoPrevious, timestamp)
  {
    LogPrefixRead(Lucky(LUCKY_VERSION), 0, LUCKY_NODE, timestamp);
    LogFlagsRead(Lucky(LUCKY_VERSION), 0);
  }

  lemma LuckyExpected(timestamp: Float64)
    ensures InLog(Some(AuditEntry(Put, NoPrevious, 17, 17, 17, Seventeens(17), SHIFTED_VERSION, Flagged(None, None, None, None), None, None, [])),
                  0, None, NoPrevious, timestamp)
         == Some(ExpectedInLog(Lucky(LUCKY_VERSION), 0, timestamp))
  {
    NoFlags(Lucky(LUCKY_VERSION));
  }

  /** So the condition on the node is not idle: here it is not skipped, and does no harm. */
  lemma NodeCanPass(timestamp: Float64)
    ensures PassesForEntry(Lucky(LUCKY_VERSION), LUCKY_NODE)
    ensures ReadLog(LogBytes(Lucky(LUCKY_VERSION), 0, LUCKY_NODE), timestamp) == Some(ExpectedInLog(Lucky(LUCKY_VERSION), 0, timestamp))
  {
    LuckyPasses();
    LuckyPrefix(timestamp);
    LuckyRead();
    LuckyExpected(timestamp);
  }
}
