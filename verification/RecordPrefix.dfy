/**
 The metadata in front of a stored record (resources/RecordEncoder.ts, RocksDB form): it is handed to the encoder
 through one-shot variables, and the decoder recognises it by the first bytes and by flags.
 The record itself is the bytes that the base encoder gives for it.
 */
module RecordPrefix {
  import opened AuditFormat
  import opened AuditStore
  import opened Wrappers

  /** The one-shot variables. */
  datatype Pending = Pending(timestamp: Option<Float64>, metadata: Option<nat>, expiresAt: Option<Float64>,
                             residencyId: nat, nodeId: Option<nat>, refs: seq<Ref>)

  const NOTHING := Pending(None, None, None, 0, None, [])

  datatype Outcome = Encoded(bytes: seq<Byte>) | ExpirationNotFlagged | ResidencyNotFlagged | NodeNotFlagged

  // ----- flags: expiration is bit 4, residency id 5, node id 6, additional references 7, blobs 13

  function SetBit(n: nat, k: nat): nat {
    if k == 0 then n / 2 * 2 + 1 else 2 * SetBit(n / 2, k - 1) + n % 2
  }

  lemma {:induction false} BitOfSetBit(n: nat, k: nat, j: nat)
    ensures Bit(SetBit(n, k), j) == (j == k || Bit(n, j))
  {
    if k == 0 || j == 0 {
    } else {
      BitOfSetBit(n / 2, k - 1, j - 1);
    }
  }

  function Doubled(m: nat, k: nat): nat {
    if k == 0 then m else 2 * Doubled(m, k - 1)
  }

  lemma {:induction false} SetBitBelow(n: nat, k: nat, w: nat)
    requires n < Doubled(1, w) && k < w
    ensures SetBit(n, k) < Doubled(1, w)
  {
    var half := Doubled(1, w - 1);
    assert Doubled(1, w) == 2 * half && n / 2 < half;
    if k == 0 {
    } else {
      SetBitBelow(n / 2, k - 1, w - 1);
      assert SetBit(n, k) == 2 * SetBit(n / 2, k - 1) + n % 2;
    }
  }

  lemma {:induction false} LowBitsKept(n: nat, m: nat, k: nat, j: nat)
    requires j < k
    ensures Bit(n + Doubled(m, k), j) == Bit(n, j)
  {
    var x := Doubled(m, k - 1);
    assert (n + 2 * x) / 2 == n / 2 + x && (n + 2 * x) % 2 == n % 2;
    if j == 0 {
    } else {
      LowBitsKept(n / 2, m, k - 1, j - 1);
    }
  }

  lemma DoubledFourTimes(m: nat, k: nat)
    ensures Doubled(m, k + 4) == 16 * Doubled(m, k)
  {
    assert Doubled(m, k + 4) == 2 * Doubled(m, k + 3) && Doubled(m, k + 3) == 2 * Doubled(m, k + 2);
    assert Doubled(m, k + 2) == 2 * Doubled(m, k + 1);
  }

  lemma DoubledToThirdByte(m: nat)
    ensures Doubled(m, 24) == 0x100_0000 * m
  {
    DoubledFourTimes(m, 0);
    DoubledFourTimes(m, 4);
    DoubledFourTimes(m, 8);
    DoubledFourTimes(m, 12);
    DoubledFourTimes(m, 16);
    DoubledFourTimes(m, 20);
  }

  /** The flags as stored: those given, and those for blobs and references. */
  function Flags(p: Pending, blobs: bool): nat
    requires p.metadata.Some?
  {
    var flags := if blobs then SetBit(p.metadata.value, 13) else p.metadata.value;
    if p.refs != [] then SetBit(flags, 7) else flags
  }

  lemma FlagsBits(p: Pending, blobs: bool)
    requires p.metadata.Some? && p.metadata.value < 0x100_0000
    ensures Flags(p, blobs) < 0x100_0000
    ensures forall j :: 4 <= j < 7 ==> Bit(Flags(p, blobs), j) == Bit(p.metadata.value, j)
    ensures Bit(Flags(p, blobs), 7) == (p.refs != [] || Bit(p.metadata.value, 7))
  {
    DoubledToThirdByte(1);
    SetBitBelow(p.metadata.value, 13, 24);
    var flags := if blobs then SetBit(p.metadata.value, 13) else p.metadata.value;
    SetBitBelow(flags, 7, 24);
    forall j: nat
      ensures Bit(SetBit(p.metadata.value, 13), j) == (j == 13 || Bit(p.metadata.value, j))
      ensures Bit(SetBit(flags, 7), j) == (j == 7 || Bit(flags, j))
    {
      BitOfSetBit(p.metadata.value, 13, j);
      BitOfSetBit(flags, 7, j);
    }
  }

  /** The action byte that announces 32 bits of flags is put above them. */
  const ACTION_32_BIT := 14

  function Tagged(flags: nat): nat {
    flags + 0xe00_0000
  }

  lemma TagKeepsBits(flags: nat, j: nat)
    requires j < 24
    ensures Bit(Tagged(flags), j) == Bit(flags, j)
  {
    DoubledToThirdByte(14);
    LowBitsKept(flags, 14, 24, j);
  }

  // ----- encoding

  predicate Storable(p: Pending) {
    && (p.metadata.Some? ==> p.metadata.value < 0x100_0000)
    && p.residencyId < 0x1_0000_0000 && (p.nodeId.Some? ==> p.nodeId.value < 0x1_0000_0000)
    && forall i :: 0 <= i < |p.refs| ==> p.refs[i].nodeId < 0x1_0000_0000
  }

  /** Twelve bytes for each reference. */
  function WideRefs(refs: seq<Ref>): seq<Byte>
    requires forall i :: 0 <= i < |refs| ==> refs[i].nodeId < 0x1_0000_0000
  {
    if refs == [] then [] else refs[0].version + (U32(refs[0].nodeId) + WideRefs(refs[1..]))
  }

  function OptionalRefs(refs: seq<Ref>): seq<Byte>
    requires forall i :: 0 <= i < |refs| ==> refs[i].nodeId < 0x1_0000_0000
  {
    if refs != [] then [|refs| % 256] + WideRefs(refs) else []
  }

  function FieldBytes(p: Pending): seq<Byte>
    requires Storable(p)
  {
    (if p.expiresAt.Some? then p.expiresAt.value else [])
    + ((if p.residencyId != 0 then U32(p.residencyId) else [])
       + ((if p.nodeId.Some? then U32(p.nodeId.value) else []) + OptionalRefs(p.refs)))
  }

  function MetadataBytes(p: Pending, blobs: bool): seq<Byte>
    requires Storable(p)
  {
    if p.metadata.None? then []
    else
      FlagsBits(p, blobs);
      U32(Tagged(Flags(p, blobs))) + FieldBytes(p)
  }

  function EncodedBytes(p: Pending, blobs: bool, value: seq<Byte>): seq<Byte>
    requires Storable(p)
  {
    (if p.timestamp.Some? then p.timestamp.value else []) + (MetadataBytes(p, blobs) + value)
  }

  // ----- decoding

  datatype Fields = Fields(expiresAt: Option<Float64>, residencyId: Option<nat>, nodeId: Option<nat>, refs: Option<seq<Ref>>)

  const NO_FIELDS := Fields(None, None, None, None)

  datatype Decoded = Plain(value: seq<Byte>) | WithMetadata(localTime: Float64, flags: nat, fields: Fields, value: seq<Byte>)

  function ReadOptionalU32(present: bool, s: seq<Byte>): Parsed<Option<nat>> {
    if !present then Parsed(None, s)
    else
      var n := ReadU32(s);
      if n.Failed? then Failed else Parsed(Some(n.value), n.rest)
  }

  function ReadWideRefs(count: nat, s: seq<Byte>): Parsed<seq<Ref>> {
    if count == 0 then Parsed([], s) else
    var version := ReadFloat(s);
    if version.Failed? then Failed else
    var nodeId := ReadU32(version.rest);
    if nodeId.Failed? then Failed else
    var refs := ReadWideRefs(count - 1, nodeId.rest);
    if refs.Failed? then Failed else Parsed([Ref(version.value, nodeId.value)] + refs.value, refs.rest)
  }

  /** Past the end the count is undefined, and no reference is read. */
  function ReadOptionalRefs(present: bool, s: seq<Byte>): Parsed<Option<seq<Ref>>> {
    if !present then Parsed(None, s)
    else if s == [] then Parsed(Some([]), [])
    else
      var refs := ReadWideRefs(s[0], s[1..]);
      if refs.Failed? then Failed else Parsed(Some(refs.value), refs.rest)
  }

  function ReadFieldsIf(expires: bool, residency: bool, node: bool, hasRefs: bool, s: seq<Byte>): Parsed<Fields> {
    var expiresAt := ReadOptionalFloat(expires, s);
    if expiresAt.Failed? then Failed else
    var residencyId := ReadOptionalU32(residency, expiresAt.rest);
    if residencyId.Failed? then Failed else
    var nodeId := ReadOptionalU32(node, residencyId.rest);
    if nodeId.Failed? then Failed else
    var refs := ReadOptionalRefs(hasRefs, nodeId.rest);
    if refs.Failed? then Failed else
    Parsed(Fields(expiresAt.value, residencyId.value, nodeId.value, refs.value), refs.rest)
  }

  function ReadFields(flags: nat, s: seq<Byte>): Parsed<Fields> {
    ReadFieldsIf(Bit(flags, 4), Bit(flags, 5), Bit(flags, 6), Bit(flags, 7), s)
  }

  function DecodeFields(localTime: Float64, flags: nat, s: seq<Byte>): Option<Decoded> {
    var fields := ReadFields(flags, s);
    if fields.Failed? then None else Some(WithMetadata(localTime, flags, fields.value, fields.rest))
  }

  /** What follows the time: flags in 32 bits or in the old two-byte form, or the record. */
  function DecodeAfterTime(localTime: Float64, s: seq<Byte>): Option<Decoded> {
    if s == [] || s[0] >= 32 then Some(WithMetadata(localTime, 0, NO_FIELDS, s))
    else if s[0] == ACTION_32_BIT then
      if |s| < 4 then None else DecodeFields(localTime, FromU32(s), s[4..])
    else if |s| < 2 then DecodeFields(localTime, s[0], [])
    else DecodeFields(localTime, s[0] + 32 * s[1] as int, s[2..])
  }

  predicate StartsWithTime(s: seq<Byte>) {
    s != [] && (s[0] == 66 || (s[0] < 32 && |s| > 2))
  }

  /** The time is copied into a holder, where a buffer that is too short leaves some of what was there before. */
  function Held(s: seq<Byte>, holder: Float64): Float64 {
    if |s| < 8 then s + holder[|s|..] else s[..8]
  }

  function DecodeRecord(s: seq<Byte>, holder: Float64): Option<Decoded> {
    if !StartsWithTime(s) then Some(Plain(s))
    else DecodeAfterTime(Held(s, holder), if |s| < 8 then [] else s[8..])
  }

  // ----- round trip

  function FieldsOf(p: Pending): Fields {
    Fields(p.expiresAt, If(p.residencyId != 0, p.residencyId), p.nodeId, If(p.refs != [], p.refs))
  }

  /** The flags say which fields are there, and the references can be counted in a byte. */
  predicate Consistent(p: Pending)
    requires p.metadata.Some?
  {
    var flags := p.metadata.value;
    && Bit(flags, 4) == p.expiresAt.Some? && Bit(flags, 5) == (p.residencyId != 0) && Bit(flags, 6) == p.nodeId.Some?
    && (Bit(flags, 7) ==> p.refs != [])
    && |p.refs| <= 255
  }

  lemma U32Read(n: nat, rest: seq<Byte>)
    requires n < 0x1_0000_0000
    ensures ReadU32(U32(n) + rest) == Parsed(n, rest)
  {
    U32Inverse(n, rest);
    assert (U32(n) + rest)[4..] == rest;
  }

  lemma OptionalU32Read(present: bool, n: nat, rest: seq<Byte>)
    requires n < 0x1_0000_0000
    ensures ReadOptionalU32(present, (if present then U32(n) else []) + rest) == Parsed(If(present, n), rest)
  {
    assert [] + rest == rest;
    U32Read(n, rest);
  }

  lemma {:induction false} WideRefsRead(refs: seq<Ref>, rest: seq<Byte>)
    requires forall i :: 0 <= i < |refs| ==> refs[i].nodeId < 0x1_0000_0000
    ensures ReadWideRefs(|refs|, WideRefs(refs) + rest) == Parsed(refs, rest)
  {
    if refs == [] {
      assert [] + rest == rest;
    } else {
      var node, more := U32(refs[0].nodeId), WideRefs(refs[1..]);
      assert WideRefs(refs) + rest == refs[0].version + (node + (more + rest));
      FloatRoundTrip(refs[0].version, node + (more + rest));
      U32Read(refs[0].nodeId, more + rest);
      WideRefsRead(refs[1..], rest);
      assert [refs[0]] + refs[1..] == refs;
    }
  }

  lemma {:induction false} ReadWideRefsLength(count: nat, s: seq<Byte>)
    ensures var refs := ReadWideRefs(count, s); refs.Parsed? ==> |refs.value| == count
  {
    if count == 0 {
    } else {
      var version := ReadFloat(s);
      if version.Parsed? {
        var nodeId := ReadU32(version.rest);
        if nodeId.Failed? {
        } else {
          ReadWideRefsLength(count - 1, nodeId.rest);
        }
      }
    }
  }

  lemma CountRead(count: Byte, t: seq<Byte>)
    ensures ReadOptionalRefs(true, [count] + t)
         == (var refs := ReadWideRefs(count, t);
             if refs.Failed? then Failed else Parsed(Some(refs.value), refs.rest))
  {
    assert ([count] + t)[1..] == t;
  }

  lemma CountedRead(refs: seq<Ref>, bytes: seq<Byte>, rest: seq<Byte>)
    requires |refs| <= 255 && ReadWideRefs(|refs|, bytes + rest) == Parsed(refs, rest)
    ensures ReadOptionalRefs(true, [|refs|] + bytes + rest) == Parsed(Some(refs), rest)
  {
    CountRead(|refs|, bytes + rest);
    AppendTwo([|refs|], bytes, rest);
  }

  lemma RefsCounted(refs: seq<Ref>, bytes: seq<Byte>, rest: seq<Byte>)
    requires 0 < |refs| <= 255 && forall i :: 0 <= i < |refs| ==> refs[i].nodeId < 0x1_0000_0000
    requires bytes == WideRefs(refs)
    ensures ReadOptionalRefs(true, [|refs|] + bytes + rest) == Parsed(Some(refs), rest)
  {
    WideRefsRead(refs, rest);
    CountedRead(refs, bytes, rest);
  }

  lemma RefsMiscounted(refs: seq<Ref>, rest: seq<Byte>)
    requires |refs| > 255 && forall i :: 0 <= i < |refs| ==> refs[i].nodeId < 0x1_0000_0000
    ensures var r := ReadOptionalRefs(true, OptionalRefs(refs) + rest); r.Failed? || r.value != Some(refs)
  {
    ReadWideRefsLength(|refs| % 256, WideRefs(refs) + rest);
    CountRead(|refs| % 256, WideRefs(refs) + rest);
    AppendTwo([|refs| % 256], WideRefs(refs), rest);
  }

  lemma OptionalRefsRead(refs: seq<Ref>, rest: seq<Byte>)
    requires forall i :: 0 <= i < |refs| ==> refs[i].nodeId < 0x1_0000_0000
    ensures var r := ReadOptionalRefs(refs != [], OptionalRefs(refs) + rest);
            if |refs| <= 255 then r == Parsed(If(refs != [], refs), rest) else r.Failed? || r.value != Some(refs)
  {
    if refs == [] {
      assert [] + rest == rest;
    } else if |refs| <= 255 {
      RefsCounted(refs, WideRefs(refs), rest);
    } else {
      RefsMiscounted(refs, rest);
    }
  }

  /** A field is read exactly when its flag is set. */
  lemma FieldsFollowFlags(flags: nat, s: seq<Byte>)
    ensures var r := ReadFields(flags, s);
            r.Parsed? ==>
              && r.value.expiresAt.Some? == Bit(flags, 4) && r.value.residencyId.Some? == Bit(flags, 5)
              && r.value.nodeId.Some? == Bit(flags, 6) && r.value.refs.Some? == Bit(flags, 7)
  {
  }

  ghost function WithRefs(fields: Fields, refs: Parsed<Option<seq<Ref>>>): Parsed<Fields> {
    if refs.Failed? then Failed else Parsed(fields.(refs := refs.value), refs.rest)
  }

  lemma ReadInTurn(fields: Fields, hasRefs: bool, s: seq<Byte>, s1: seq<Byte>, s2: seq<Byte>, s3: seq<Byte>)
    requires ReadOptionalFloat(fields.expiresAt.Some?, s) == Parsed(fields.expiresAt, s1)
    requires ReadOptionalU32(fields.residencyId.Some?, s1) == Parsed(fields.residencyId, s2)
    requires ReadOptionalU32(fields.nodeId.Some?, s2) == Parsed(fields.nodeId, s3)
    ensures ReadFieldsIf(fields.expiresAt.Some?, fields.residencyId.Some?, fields.nodeId.Some?, hasRefs, s)
         == WithRefs(fields, ReadOptionalRefs(hasRefs, s3))
  {
  }

  lemma FieldsReadInTurn(p: Pending, hasRefs: bool, a: seq<Byte>, b: seq<Byte>, c: seq<Byte>, rest: seq<Byte>)
    requires Storable(p)
    requires a == (if p.expiresAt.Some? then p.expiresAt.value else [])
    requires b == (if p.residencyId != 0 then U32(p.residencyId) else [])
    requires c == (if p.nodeId.Some? then U32(p.nodeId.value) else [])
    ensures ReadFieldsIf(p.expiresAt.Some?, p.residencyId != 0, p.nodeId.Some?, hasRefs, a + (b + (c + rest)))
         == WithRefs(FieldsOf(p), ReadOptionalRefs(hasRefs, rest))
  {
    var f: Float64 := if p.expiresAt.Some? then p.expiresAt.value else [0, 0, 0, 0, 0, 0, 0, 0];
    OptionalFloatRoundTrip(p.expiresAt.Some?, f, b + (c + rest));
    OptionalU32Read(p.residencyId != 0, p.residencyId, c + rest);
    OptionalU32Read(p.nodeId.Some?, if p.nodeId.Some? then p.nodeId.value else 0, rest);
    ReadInTurn(FieldsOf(p), hasRefs, a + (b + (c + rest)), b + (c + rest), c + rest, rest);
  }

  lemma FieldsRead(p: Pending, flags: nat, rest: seq<Byte>)
    requires Storable(p)
    requires Bit(flags, 4) == p.expiresAt.Some? && Bit(flags, 5) == (p.residencyId != 0)
    requires Bit(flags, 6) == p.nodeId.Some? && Bit(flags, 7) == (p.refs != [])
    ensures var r := ReadFields(flags, FieldBytes(p) + rest);
            if |p.refs| <= 255 then r == Parsed(FieldsOf(p), rest) else r.Failed? || r.value != FieldsOf(p)
  {
    var a := if p.expiresAt.Some? then p.expiresAt.value else [];
    var b := if p.residencyId != 0 then U32(p.residencyId) else [];
    var c := if p.nodeId.Some? then U32(p.nodeId.value) else [];
    AppendAll(a, b, c, OptionalRefs(p.refs), rest);
    FieldsReadInTurn(p, p.refs != [], a, b, c, OptionalRefs(p.refs) + rest);
    OptionalRefsRead(p.refs, rest);
  }

  lemma TaggedFlagsRead(p: Pending, blobs: bool)
    requires p.metadata.Some? && p.metadata.value < 0x100_0000
    ensures var flags := Tagged(Flags(p, blobs));
            && flags / 0x100_0000 == ACTION_32_BIT && flags < 0x1_0000_0000
            && Bit(flags, 4) == Bit(p.metadata.value, 4) && Bit(flags, 5) == Bit(p.metadata.value, 5)
            && Bit(flags, 6) == Bit(p.metadata.value, 6) && Bit(flags, 7) == (p.refs != [] || Bit(p.metadata.value, 7))
  {
    FlagsBits(p, blobs);
    TagKeepsBits(Flags(p, blobs), 4);
    TagKeepsBits(Flags(p, blobs), 5);
    TagKeepsBits(Flags(p, blobs), 6);
    TagKeepsBits(Flags(p, blobs), 7);
  }

  lemma MetadataExactly(p: Pending, blobs: bool, localTime: Float64, value: seq<Byte>)
    requires Storable(p) && p.metadata.Some?
    ensures DecodeAfterTime(localTime, MetadataBytes(p, blobs) + value)
         == Some(WithMetadata(localTime, Tagged(Flags(p, blobs)), FieldsOf(p), value))
       <==> Consistent(p)
  {
    FlagsBits(p, blobs);
    TaggedFlagsRead(p, blobs);
    var flags := Tagged(Flags(p, blobs));
    var s := MetadataBytes(p, blobs) + value;
    AppendTwo(U32(flags), FieldBytes(p), value);
    U32Inverse(flags, FieldBytes(p) + value);
    assert s[0] == ACTION_32_BIT && s[4..] == FieldBytes(p) + value;
    FieldsFollowFlags(flags, FieldBytes(p) + value);
    if Bit(flags, 4) == p.expiresAt.Some? && Bit(flags, 5) == (p.residencyId != 0) && Bit(flags, 6) == p.nodeId.Some?
       && Bit(flags, 7) == (p.refs != []) {
      FieldsRead(p, flags, value);
    }
  }

  /** What a reader of the record should see. */
  function Expected(p: Pending, blobs: bool, value: seq<Byte>): Decoded
    requires p.timestamp.Some?
  {
    if p.metadata.None? then WithMetadata(p.timestamp.value, 0, NO_FIELDS, value)
    else WithMetadata(p.timestamp.value, Tagged(Flags(p, blobs)), FieldsOf(p), value)
  }

  lemma NoFlagsNoFields(s: seq<Byte>)
    ensures ReadFields(0, s) == Parsed(NO_FIELDS, s)
  {
    BitOfZero(4);
    BitOfZero(5);
    BitOfZero(6);
    BitOfZero(7);
  }

  lemma PlainAfterTime(localTime: Float64, value: seq<Byte>)
    ensures DecodeAfterTime(localTime, value) == Some(WithMetadata(localTime, 0, NO_FIELDS, value))
       <==> value == [] || value[0] >= 32
  {
    if |value| >= 2 {
      NoFlagsNoFields(value[2..]);
    }
    NoFlagsNoFields([]);
  }

  /**
   A record that is stored with its version is read back with it and with all its metadata if and only if the version
   starts like a time, the flags name exactly the fields that are there, and at most 255 references are given; without
   metadata the record itself must not start like metadata.
   */
  lemma DecodesExactly(p: Pending, blobs: bool, value: seq<Byte>, holder: Float64)
    requires Storable(p) && p.timestamp.Some?
    ensures DecodeRecord(EncodedBytes(p, blobs, value), holder) == Some(Expected(p, blobs, value))
       <==> && (p.timestamp.value[0] == 66 || p.timestamp.value[0] < 32)
            && (if p.metadata.Some? then Consistent(p) else value == [] || value[0] >= 32)
  {
    var tail := MetadataBytes(p, blobs) + value;
    FloatRoundTrip(p.timestamp.value, tail);
    if p.metadata.Some? {
      MetadataExactly(p, blobs, p.timestamp.value, value);
    } else {
      assert tail == value;
      PlainAfterTime(p.timestamp.value, value);
    }
  }

  // ----- the encoder and its one-shot variables

  /** The variables that are left for the next encoding. */
  function LeftPending(p: Pending): Pending {
    if p.timestamp.None? && p.metadata.None? then p
    else if p.metadata.None? then p.(timestamp := None)
    else
      var q := p.(timestamp := None, metadata := None, expiresAt := None);
      if p.expiresAt.Some? && !Bit(p.metadata.value, 4) then q
      else if p.residencyId != 0 && !Bit(p.metadata.value, 5) then q.(residencyId := 0)
      else if p.nodeId.Some? && !Bit(p.metadata.value, 6) then q.(residencyId := 0, nodeId := None)
      else NOTHING
  }

  /** A field that is given must be flagged. */
  predicate AllFlagged(p: Pending) {
    p.metadata.Some? ==>
      && (p.expiresAt.Some? ==> Bit(p.metadata.value, 4))
      && (p.residencyId != 0 ==> Bit(p.metadata.value, 5))
      && (p.nodeId.Some? ==> Bit(p.metadata.value, 6))
  }

  lemma OneMoreRead(list: seq<Ref>, ref: Ref, count: nat, s: seq<Byte>)
    requires count > 0 && ReadFloat(s).Parsed? && ReadFloat(s).value == ref.version
    requires var n := ReadU32(ReadFloat(s).rest); n.Parsed? && n.value == ref.nodeId
    ensures After(list, ReadWideRefs(count, s))
         == After(list + [ref], ReadWideRefs(count - 1, ReadU32(ReadFloat(s).rest).rest))
  {
    var tail := ReadWideRefs(count - 1, ReadU32(ReadFloat(s).rest).rest);
    assert tail.Parsed? ==> list + ([ref] + tail.value) == (list + [ref]) + tail.value;
  }

  class RecordEncoder {
    var timestampNextEncoding: Option<Float64>
    var metadataInNextEncoding: Option<nat>
    var expiresAtNextEncoding: Option<Float64>
    var residencyIdAtNextEncoding: nat
    var nodeIdAtNextEncoding: Option<nat>
    var additionalAuditRefsNextEncoding: seq<Ref>
    var lastValueEncoding: seq<Byte>
    var timestampHolder: Float64

    constructor ()
      ensures Next() == NOTHING
    {
      timestampNextEncoding, metadataInNextEncoding, expiresAtNextEncoding := None, None, None;
      residencyIdAtNextEncoding, nodeIdAtNextEncoding, additionalAuditRefsNextEncoding := 0, None, [];
      lastValueEncoding, timestampHolder := [], [0, 0, 0, 0, 0, 0, 0, 0];
    }

    function Next(): Pending
      reads this
    {
      Pending(timestampNextEncoding, metadataInNextEncoding, expiresAtNextEncoding, residencyIdAtNextEncoding,
              nodeIdAtNextEncoding, additionalAuditRefsNextEncoding)
    }

    method Encode(value: seq<Byte>, blobsWereEncoded: bool) returns (outcome: Outcome)
      requires Storable(Next())
      modifies this
      ensures Next() == LeftPending(old(Next()))
      ensures outcome.Encoded? <==> AllFlagged(old(Next()))
      ensures outcome.Encoded? ==>
        outcome.bytes == EncodedBytes(old(Next()), blobsWereEncoded, value) && lastValueEncoding == value
      ensures !outcome.Encoded? ==> lastValueEncoding == old(lastValueEncoding)
      ensures timestampHolder == old(timestampHolder)
    {
      if timestampNextEncoding.None? && metadataInNextEncoding.None? {
        lastValueEncoding := value;
        assert [] + ([] + value) == value;
        return Encoded(value);
      }
      var p := Next();
      timestampNextEncoding := None;
      var metadata, refs := metadataInNextEncoding, additionalAuditRefsNextEncoding;
      var expiresAt, residencyId, nodeId := expiresAtNextEncoding, residencyIdAtNextEncoding, nodeIdAtNextEncoding;
      if metadata.Some? {
        metadataInNextEncoding := None;
        if expiresAt.Some? {
          expiresAtNextEncoding := None;
          if !Bit(metadata.value, 4) {
            return ExpirationNotFlagged;
          }
        }
        if residencyId != 0 {
          residencyIdAtNextEncoding := 0;
          if !Bit(metadata.value, 5) {
            return ResidencyNotFlagged;
          }
        }
        if nodeId.Some? {
          nodeIdAtNextEncoding := None;
          if !Bit(metadata.value, 6) {
            return NodeNotFlagged;
          }
        }
        if refs != [] {
          additionalAuditRefsNextEncoding := [];
        }
      }
      lastValueEncoding := value;
      var bytes := Compose(p, value, blobsWereEncoded);
      outcome := Encoded(bytes);
    }

    /** The time, the metadata and the record, one after the other. */
    static method Compose(p: Pending, value: seq<Byte>, blobsWereEncoded: bool) returns (bytes: seq<Byte>)
      requires Storable(p)
      ensures bytes == EncodedBytes(p, blobsWereEncoded, value)
    {
      var prefix: seq<Byte> := if p.timestamp.Some? then p.timestamp.value else [];
      if p.metadata.None? {
        assert prefix + ([] + value) == prefix + value;
        return prefix + value;
      }
      var flags := if blobsWereEncoded then SetBit(p.metadata.value, 13) else p.metadata.value;
      if p.refs != [] {
        flags := SetBit(flags, 7);
      }
      FlagsBits(p, blobsWereEncoded);
      var metadata := U32(Tagged(flags)) + FieldBytes(p);
      AppendTwo(prefix, metadata, value);
      bytes := prefix + metadata + value;
    }

    method Decode(buffer: seq<Byte>) returns (decoded: Option<Decoded>)
      modifies `timestampHolder
      ensures decoded == DecodeRecord(buffer, old(timestampHolder))
      ensures timestampHolder == if StartsWithTime(buffer) then Held(buffer, old(timestampHolder)) else old(timestampHolder)
    {
      if !StartsWithTime(buffer) {
        return Some(Plain(buffer));
      }
      timestampHolder := if |buffer| < 8 then buffer + timestampHolder[|buffer|..] else buffer[..8];
      var localTime := timestampHolder;
      var reader := new Decoder(buffer, 8);
      if reader.position >= |buffer| || buffer[reader.position] >= 32 {
        return Some(WithMetadata(localTime, 0, NO_FIELDS, reader.Rest()));
      }
      var nextByte, flags := buffer[reader.position], 0;
      if nextByte == ACTION_32_BIT {
        var word := reader.ReadUint32();
        if word.None? {
          return None;
        }
        flags := word.value;
      } else {
        ghost var rest := reader.Rest();
        var position := reader.position;
        flags := nextByte + if position + 1 < |buffer| then 32 * buffer[position + 1] as int else 0;
        reader.position := position + 2;
        assert reader.Rest() == if |rest| < 2 then [] else rest[2..];
      }
      decoded := DecodeMetadata(reader, localTime, flags);
    }

    static method DecodeMetadata(reader: Decoder, localTime: Float64, flags: nat) returns (decoded: Option<Decoded>)
      modifies reader
      ensures decoded == DecodeFields(localTime, flags, old(reader.Rest()))
    {
      var fields := ReadFieldsInTurn(reader, Bit(flags, 4), Bit(flags, 5), Bit(flags, 6), Bit(flags, 7));
      decoded := if fields.None? then None else Some(WithMetadata(localTime, flags, fields.value, reader.Rest()));
    }

    static method ReadFieldsInTurn(reader: Decoder, expires: bool, residency: bool, node: bool, hasRefs: bool)
        returns (fields: Option<Fields>)
      modifies reader
      ensures var parsed := ReadFieldsIf(expires, residency, node, hasRefs, old(reader.Rest()));
              if parsed.Failed? then fields == None else fields == Some(parsed.value) && reader.Rest() == parsed.rest
    {
      var expiresAt := reader.ReadOptionalFloat(expires);
      if expiresAt.None? {
        return None;
      }
      var residencyId := ReadOptionalUint32(reader, residency);
      if residencyId.None? {
        return None;
      }
      var nodeId := ReadOptionalUint32(reader, node);
      if nodeId.None? {
        return None;
      }
      var refs := ReadOptionalReferences(reader, hasRefs);
      if refs.None? {
        return None;
      }
      fields := Some(Fields(expiresAt.value, residencyId.value, nodeId.value, refs.value));
    }

    static method ReadOptionalReferences(reader: Decoder, present: bool) returns (refs: Option<Option<seq<Ref>>>)
      modifies reader
      ensures var parsed := ReadOptionalRefs(present, old(reader.Rest()));
              if parsed.Failed? then refs == None else refs == Some(parsed.value) && reader.Rest() == parsed.rest
    {
      if !present {
        return Some(None);
      }
      ghost var s := reader.Rest();
      var count := if reader.position < |reader.data| then reader.data[reader.position] else 0;
      reader.position := reader.position + 1;
      assert reader.Rest() == if s == [] then [] else s[1..];
      var list := ReadReferences(reader, count);
      refs := if list.None? then None else Some(list);
    }

    static method ReadOptionalUint32(reader: Decoder, present: bool) returns (number: Option<Option<nat>>)
      modifies reader
      ensures var parsed := ReadOptionalU32(present, old(reader.Rest()));
              if parsed.Failed? then number == None else number == Some(parsed.value) && reader.Rest() == parsed.rest
    {
      if !present {
        return Some(None);
      }
      var n := reader.ReadUint32();
      number := if n.None? then None else Some(n);
    }

    static method ReadReferences(reader: Decoder, count: nat) returns (refs: Option<seq<Ref>>)
      modifies reader
      ensures var parsed := ReadWideRefs(count, old(reader.Rest()));
              if parsed.Failed? then refs == None else refs == Some(parsed.value) && reader.Rest() == parsed.rest
    {
      ghost var whole := ReadWideRefs(count, reader.Rest());
      var list := [];
      NothingBefore(whole);
      for i := 0 to count
        invariant whole == After(list, ReadWideRefs(count - i, reader.Rest()))
      {
        ghost var rest := reader.Rest();
        var version := reader.ReadFloat64();
        if version.None? {
          return None;
        }
        var nodeId := reader.ReadUint32();
        if nodeId.None? {
          return None;
        }
        var ref := Ref(version.value, nodeId.value);
        OneMoreRead(list, ref, count - i, rest);
        list := list + [ref];
      }
      assert list + [] == list;
      refs := Some(list);
    }
  }

  /** Whatever happened in one encoding, the next record gets no metadata unless its own is set. */
  lemma NextIsPlain(p: Pending, blobs: bool, value: seq<Byte>)
    requires Storable(p) && (p.timestamp.Some? || p.metadata.Some?)
    ensures Storable(LeftPending(p)) && EncodedBytes(LeftPending(p), blobs, value) == value
  {
    assert [] + ([] + value) == value;
  }

  /**
   An encoding that does not complain uses up all the variables exactly when it writes metadata or no other variable
   had been set. After a complaint the references are left for a later record.
   */
  lemma SpentExactly(p: Pending)
    ensures AllFlagged(p) ==> (LeftPending(p) == NOTHING <==> p.metadata.Some? || p.(timestamp := None) == NOTHING)
    ensures !AllFlagged(p) ==> LeftPending(p).refs == p.refs
  {
  }

  // ----- records one after the other

  /** What an update says about a record besides its version. */
  datatype Options = Options(expiresAt: Option<Float64>, residencyId: nat, nodeId: Option<nat>, refs: seq<Ref>)

  function SetBitIf(present: bool, n: nat, k: nat): nat {
    if present then SetBit(n, k) else n
  }

  /** The flags of an update; a metadata of -1 stays -1 whatever is added to it. */
  function OptionFlags(assignMetadata: Option<nat>, o: Options): Option<nat> {
    if assignMetadata.None? then None
    else
      var expiration := SetBitIf(o.expiresAt.Some?, assignMetadata.value, 4);
      var residency := SetBitIf(o.residencyId != 0, expiration, 5);
      var node := SetBitIf(o.nodeId.Some?, residency, 6);
      Some(SetBitIf(o.refs != [], node, 7))
  }

  /** What the updater hands to the encoder: it sets every variable. */
  function HandedOver(version: Option<Float64>, assignMetadata: Option<nat>, o: Options): Pending {
    Pending(version, OptionFlags(assignMetadata, o), o.expiresAt, o.residencyId, o.nodeId, o.refs)
  }

  lemma SetBitIfBits(present: bool, n: nat, k: nat)
    ensures forall j :: Bit(SetBitIf(present, n, k), j) == ((present && j == k) || Bit(n, j))
  {
    forall j: nat
      ensures Bit(SetBit(n, k), j) == (j == k || Bit(n, j))
    {
      BitOfSetBit(n, k, j);
    }
  }

  lemma OptionBits(assignMetadata: nat, o: Options)
    ensures var flags := OptionFlags(Some(assignMetadata), o).value;
            && Bit(flags, 4) == (o.expiresAt.Some? || Bit(assignMetadata, 4))
            && Bit(flags, 5) == (o.residencyId != 0 || Bit(assignMetadata, 5))
            && Bit(flags, 6) == (o.nodeId.Some? || Bit(assignMetadata, 6))
            && Bit(flags, 7) == (o.refs != [] || Bit(assignMetadata, 7))
  {
    var expiration := SetBitIf(o.expiresAt.Some?, assignMetadata, 4);
    var residency := SetBitIf(o.residencyId != 0, expiration, 5);
    var node := SetBitIf(o.nodeId.Some?, residency, 6);
    SetBitIfBits(o.expiresAt.Some?, assignMetadata, 4);
    SetBitIfBits(o.residencyId != 0, expiration, 5);
    SetBitIfBits(o.nodeId.Some?, residency, 6);
    SetBitIfBits(o.refs != [], node, 7);
  }

  /** An update never makes the encoder complain. */
  lemma UpdatesAreFlagged(version: Option<Float64>, assignMetadata: Option<nat>, o: Options)
    ensures AllFlagged(HandedOver(version, assignMetadata, o))
  {
    if assignMetadata.Some? {
      OptionBits(assignMetadata.value, o);
    }
  }

  /** An encoding is that of an update, which sets the variables before, or of anything else in the same store. */
  datatype Encoding = Update(given: Pending, blobs: bool, value: seq<Byte>) | Bare(blobs: bool, value: seq<Byte>)

  predicate AllStorable(encodings: seq<Encoding>) {
    forall i :: 0 <= i < |encodings| && encodings[i].Update? ==> Storable(encodings[i].given)
  }

  /** What the encoder gives with these variables: bytes, or nothing but a complaint. */
  function Written(p: Pending, blobs: bool, value: seq<Byte>): Option<seq<Byte>>
    requires Storable(p)
  {
    if AllFlagged(p) then Some(EncodedBytes(p, blobs, value)) else None
  }

  function WrittenInTurn(p: Pending, encodings: seq<Encoding>): (written: seq<Option<seq<Byte>>>)
    requires Storable(p) && AllStorable(encodings)
    ensures |written| == |encodings|
    decreases |encodings|
  {
    if encodings == [] then []
    else
      var e := encodings[0];
      var q := if e.Update? then e.given else p;
      [Written(q, e.blobs, e.value)] + WrittenInTurn(LeftPending(q), encodings[1..])
  }

  /** What is to be written for one record, whatever was encoded before. */
  function WrittenAlone(e: Encoding): Option<seq<Byte>>
    requires e.Update? ==> Storable(e.given)
  {
    match e
    case Update(given, blobs, value) => Written(given, blobs, value)
    case Bare(_, value) => Some(value)
  }

  /**
   Over any run of encodings, complaints included, every record is written as if it were alone: an update by what was
   handed over for it, and anything else without metadata.
   */
  lemma {:induction false} NothingLeaks(p: Pending, encodings: seq<Encoding>, i: nat)
    requires p.timestamp.None? && p.metadata.None? && Storable(p) && AllStorable(encodings) && i < |encodings|
    ensures WrittenInTurn(p, encodings)[i] == WrittenAlone(encodings[i])
    decreases i
  {
    var e := encodings[0];
    if i == 0 {
      assert e.Bare? ==> [] + ([] + e.value) == e.value;
    } else {
      NothingLeaks(LeftPending(if e.Update? then e.given else p), encodings[1..], i - 1);
    }
  }

  /**
   A record written by an update with metadata is read back with its version and all its options if and only if the
   version starts like a time, at most 255 references are given, and no flag was set for an option that is not there.
   */
  lemma UpdatesReadBackExactly(version: Float64, assignMetadata: nat, o: Options, blobs: bool, value: seq<Byte>, holder: Float64)
    requires Storable(HandedOver(Some(version), Some(assignMetadata), o))
    ensures var p := HandedOver(Some(version), Some(assignMetadata), o);
            DecodeRecord(EncodedBytes(p, blobs, value), holder) == Some(Expected(p, blobs, value))
            <==> (version[0] == 66 || version[0] < 32) && |o.refs| <= 255
                 && (Bit(assignMetadata, 4) ==> o.expiresAt.Some?) && (Bit(assignMetadata, 5) ==> o.residencyId != 0)
                 && (Bit(assignMetadata, 6) ==> o.nodeId.Some?) && (Bit(assignMetadata, 7) ==> o.refs != [])
  {
    DecodesExactly(HandedOver(Some(version), Some(assignMetadata), o), blobs, value, holder);
    OptionBits(assignMetadata, o);
  }
}
