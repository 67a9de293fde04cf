/**
 What readers get out of stored entries, and the bytes that have to stay as they are because files hold them: the flags,
 the order of the fields, and the order of the bytes in a number.
 */
module StoredBytes {
  import opened Wrappers
  import opened AuditFormat
  import RecordPrefix

  // ----- single bits

  lemma Sixteenths(n: nat)
    ensures n / 16 / 2 == n / 0x20 && n / 16 / 2 / 2 == n / 0x40 && n / 16 / 2 / 2 / 2 == n / 0x80
  {
  }

  lemma LowFour(n: nat)
    ensures Bit(n, 0) <==> n % 2 == 1
    ensures Bit(n, 1) <==> n / 2 % 2 == 1
    ensures Bit(n, 2) <==> n / 2 / 2 % 2 == 1
    ensures Bit(n, 3) <==> n / 2 / 2 / 2 % 2 == 1
  {
    assert Bit(n, 2) == Bit(n / 2, 1) == Bit(n / 2 / 2, 0);
    assert Bit(n, 3) == Bit(n / 2, 2) == Bit(n / 2 / 2, 1) == Bit(n / 2 / 2 / 2, 0);
  }

  lemma HighFour(n: nat, k: nat)
    requires 4 <= k < 8
    ensures Bit(n, k) <==> Bit(n / 16, k - 4)
  {
    BitOfHalved(n, 4, k);
    HalvedFourTimes(n);
  }

  lemma FlagAt(bits: nat)
    ensures Bit(bits, 4) <==> bits / 0x10 % 2 == 1
    ensures Bit(bits, 5) <==> bits / 0x20 % 2 == 1
    ensures Bit(bits, 6) <==> bits / 0x40 % 2 == 1
    ensures Bit(bits, 7) <==> bits / 0x80 % 2 == 1
  {
    HighFour(bits, 4);
    HighFour(bits, 5);
    HighFour(bits, 6);
    HighFour(bits, 7);
    LowFour(bits / 16);
    Sixteenths(bits);
  }

  lemma HighFlagAt(bits: nat, k: nat)
    requires k >= 8
    ensures Bit(bits, k) <==> Bit(bits / 256, k - 8)
  {
    BitOfHalved(bits, 8, k);
    LowByteHalved(bits);
  }

  lemma Bytes(n: nat)
    ensures n / 256 / 2 == n / 512 && n / 256 / 2 / 2 == n / 1024 && n / 256 / 2 / 2 / 2 == n / 2048
    ensures n / 256 / 0x10 == n / 0x1000 && n / 256 / 0x40 == n / 0x4000
  {
  }

  /** The flags of an extended type, by their values. */
  lemma FlagValues(bits: nat)
    ensures HasCurrentResidencyId(bits) <==> bits / 512 % 2 == 1
    ensures HasPreviousResidencyId(bits) <==> bits / 1024 % 2 == 1
    ensures HasOriginatingOperation(bits) <==> bits / 2048 % 2 == 1
    ensures HasExpiration(bits) <==> bits / 0x1000 % 2 == 1
    ensures HasAdditionalAuditRefs(bits) <==> bits / 0x4000 % 2 == 1
  {
    HighFlagAt(bits, 9);
    HighFlagAt(bits, 10);
    HighFlagAt(bits, 11);
    HighFlagAt(bits, 12);
    HighFlagAt(bits, 14);
    LowFour(bits / 256);
    FlagAt(bits / 256);
    Bytes(bits);
  }

  // ----- the value of an entry

  /** Where `getValue` takes a value from: the entry itself, the walk back from the current record, or nowhere. */
  datatype Value = InEntry(encoded: seq<Byte>) | WalkedBack | NoValue

  function GetValue(entry: AuditEntry, fullRecord: bool, auditTime: bool): Value {
    if Bit(entry.action, 4) || (Bit(entry.action, 5) && !fullRecord) then InEntry(entry.value)
    else if Bit(entry.action, 5) && auditTime then WalkedBack
    else NoValue
  }

  lemma CodeBit4(high: nat, code: nat)
    ensures (high * 256 + code) / 0x10 % 2 == code / 0x10 % 2
  {
    assert (high * 256 + code) / 0x10 == high * 16 + code / 0x10;
  }

  lemma CodeBit5(high: nat, code: nat)
    ensures (high * 256 + code) / 0x20 % 2 == code / 0x20 % 2
  {
    assert (high * 256 + code) / 0x20 == high * 8 + code / 0x20;
  }

  lemma CodeBits(high: nat, code: nat)
    requires code < 64
    ensures (high * 256 + code) / 0x10 % 2 == code / 0x10 % 2
    ensures (high * 256 + code) / 0x20 % 2 == code / 0x20 % 2
  {
    CodeBit4(high, code);
    CodeBit5(high, code);
  }

  lemma CodeFlags(kind: EventType)
    ensures Code(kind) / 0x10 % 2 == 1 <==> kind.Put? || kind.Message?
    ensures Code(kind) / 0x20 % 2 == 1 <==> kind.Invalidate? || kind.Patch?
  {
  }

  lemma RecordBits(extendedType: nat, kind: EventType)
    requires extendedType % 256 == 0
    ensures Bit(extendedType + Code(kind), 4) <==> kind.Put? || kind.Message?
    ensures Bit(extendedType + Code(kind), 5) <==> kind.Invalidate? || kind.Patch?
  {
    FlagAt(extendedType + Code(kind));
    CodeBits(extendedType / 256, Code(kind));
    CodeFlags(kind);
  }

  lemma EntryRecovered(e: AuditRecord)
    requires WellFormed(e) && e.kind != Unknown && !TooManyRefs(e) && RecognisedPrevious(e.previous)
    ensures var entry := Read(Encoded(e));
            entry.Some? && entry.value.action == e.extendedType + Code(e.kind) && entry.value.value == e.encodedRecord
  {
    ActionFirst(e);
    ReadWithPrevious(e.previous, EncodedAfterPrevious(e));
    AfterPreviousRoundTrip(e, e.previous);
  }

  /**
   Whatever else is written in an entry, its readers get the record of a put or a message, the changes of a patch or an
   invalidation unless they ask for a full record, which then has to be reconstructed for a time, and nothing for the
   other types.
   */
  lemma ReadersGet(e: AuditRecord, fullRecord: bool, auditTime: bool)
    requires WellFormed(e) && e.kind != Unknown && !TooManyRefs(e) && RecognisedPrevious(e.previous)
    ensures var entry := Read(Encoded(e));
            && entry.Some?
            && GetValue(entry.value, fullRecord, auditTime)
               == match e.kind
                  case Put => InEntry(e.encodedRecord)
                  case Message => InEntry(e.encodedRecord)
                  case Patch => if !fullRecord then InEntry(e.encodedRecord) else if auditTime then WalkedBack else NoValue
                  case Invalidate => if !fullRecord then InEntry(e.encodedRecord) else if auditTime then WalkedBack else NoValue
                  case _ => NoValue
  {
    EntryRecovered(e);
    RecordBits(e.extendedType, e.kind);
  }

  // ----- numbers

  lemma NumbersOnDisk()
    ensures U16(0x1234) == [0x12, 0x34] && U32(0x1234_5678) == [0x12, 0x34, 0x56, 0x78]
    ensures OperationCode(Insert) == 1 && OperationCode(Update) == 2 && OperationCode(Upsert) == 3
    ensures IntBytes(0) == [0] && IntBytes(0x7f) == [0x7f]
    ensures IntBytes(0x80) == [0x80, 0x80] && IntBytes(0x3fff) == [0xbf, 0xff]
    ensures IntBytes(0x4000) == [0xc0, 0, 0x40, 0] && IntBytes(0x3eff_ffff) == [0xfe, 0xff, 0xff, 0xff]
    ensures IntBytes(0x3f00_0000) == [0xff, 0x3f, 0, 0, 0] && IntBytes(0xffff_ffff) == [0xff, 0xff, 0xff, 0xff, 0xff]
  {
  }

  /** Each form is used for exactly the numbers that no shorter one can hold. */
  lemma LengthOfNumber(n: nat)
    requires n < 0x1_0000_0000
    ensures |IntBytes(n)| == (if n < 0x80 then 1 else if n < 0x4000 then 2 else if n < 0x3f00_0000 then 4 else 5)
  {
  }

  // ----- entries

  const TIME: Float64 := [66, 1, 2, 3, 4, 5, 6, 7]

  const BEFORE: Float64 := [66, 0, 0, 0, 0, 0, 0, 1]

  const EXPIRES: Float64 := [66, 9, 9, 9, 9, 9, 9, 9]

  const SIMPLE := AuditRecord(Put, NoPrevious, 0, 3, 300, [8, 9], TIME, 0, 0, TIME, Insert, [], Some([7]), [1, 2])

  lemma NoFlagsSet()
    ensures FlaggedBytes(SIMPLE) == [] && RefsBytes(SIMPLE) == []
  {
    FlagValues(0);
  }

  lemma SimpleEntry()
    ensures Encoded(SIMPLE) == [17] + (([3] + ([0x81, 0x2c] + ([2, 8, 9] + TIME))) + ([1, 7] + [1, 2]))
  {
    NoFlagsSet();
    assert IntBytes(3) == [3] && IntBytes(300) == [0x81, 0x2c];
    assert ValueBytes([8, 9]) == [2] + [8, 9] && ValueBytes([7]) == [1] + [7];
  }

  // A patch with a previous version and all the flags: 512, 1024, 2048, 0x1000 and 0x4000.
  const FULL := AuditRecord(Patch, At(BEFORE), 0x5e00, 1, 2, [8], TIME, 5, 6, EXPIRES, Upsert, [Ref(BEFORE, 0x1_1170)], None, [4])

  lemma AllFlagsSet()
    ensures FlaggedBytes(FULL) == [5] + ([6] + (EXPIRES + [3]))
    ensures RefsBytes(FULL) == [1] + (BEFORE + [0xc0, 1, 0x11, 0x70])
  {
    FlagValues(0x5e00);
    assert IntBytes(5) == [5] && IntBytes(6) == [6] && IntBytes(3) == [3];
    assert IntBytes(0x1_1170) == [0xc0, 1, 0x11, 0x70];
    assert FULL.refs[1..] == [];
    assert RefList([]) == [];
    assert RefList(FULL.refs) == BEFORE + ([0xc0, 1, 0x11, 0x70] + []);
  }

  lemma FullIds()
    ensures IdBytes(FULL) == [1] + ([2] + ([1, 8] + TIME))
  {
    assert IntBytes(1) == [1] && IntBytes(2) == [2] && ValueBytes([8]) == [1] + [8];
  }

  lemma FullEntry()
    ensures Encoded(FULL) == BEFORE + ([0xc0, 0, 0x5e, 37] + (([1] + ([2] + ([1, 8] + TIME)))
                             + (([5] + ([6] + (EXPIRES + [3]))) + (([1] + (BEFORE + [0xc0, 1, 0x11, 0x70])) + ([0] + [4])))))
  {
    AllFlagsSet();
    FullIds();
    assert ActionBytes(FULL) == [0xc0, 0, 0x5e, 37];
  }

  /** The first byte of a simple entry, for each type; a previous version that the store fills in comes before it. */
  lemma FirstBytes(e: AuditRecord)
    requires WellFormed(e) && e.extendedType == 0
    ensures var first := match e.kind
                         case Put => 17
                         case Delete => 2
                         case Message => 19
                         case Invalidate => 36
                         case Patch => 37
                         case Relocate => 6
                         case Structures => 7
                         case RemoteSequenceUpdate => 11
                         case Unknown => 0;
            e.previous.NoPrevious? ==> Encoded(e) != [] && Encoded(e)[0] == first
    ensures e.previous.Placeholder? ==> |Encoded(e)| > 8 && Encoded(e)[..8] == [1, 1, 1, 1, 3, 0x40, 0, 0]
  {
  }

  /** In the RocksDB log: the structure version with its two flags, the residency, and for once the node. */
  lemma LogEntryOnDisk()
    ensures LogBytes(FULL, 7, 0) == [0x60, 0, 0, 7] + ([0, 0, 0, 6] + Encoded(FULL))
    ensures LogBytes(SIMPLE, 7, 5) == [0, 0, 0, 7] + ([0, 0, 0, 5] + Encoded(SIMPLE))
  {
    assert LogFlags(FULL, 7) == 0x6000_0007 && LogFlags(SIMPLE, 7) == 7;
    assert U32(0x6000_0007) == [0x60, 0, 0, 7] && U32(7) == [0, 0, 0, 7] && U32(6) == [0, 0, 0, 6] && U32(5) == [0, 0, 0, 5];
    assert [] + Encoded(FULL) == Encoded(FULL);
    assert [] + ([0, 0, 0, 5] + Encoded(SIMPLE)) == [0, 0, 0, 5] + Encoded(SIMPLE);
  }

  // ----- records

  const PENDING := RecordPrefix.Pending(Some(TIME), Some(0x70), Some(EXPIRES), 5, Some(6), [Ref(BEFORE, 7)])

  lemma RecordFlags()
    ensures RecordPrefix.Flags(PENDING, true) == 0x20f0
  {
    assert RecordPrefix.SetBit(0x70, 13) == 0x2070;
    assert RecordPrefix.SetBit(0x2070, 7) == 0x20f0;
  }

  lemma RecordFields()
    ensures RecordPrefix.Storable(PENDING)
    ensures RecordPrefix.FieldBytes(PENDING) == EXPIRES + ([0, 0, 0, 5] + ([0, 0, 0, 6] + ([1] + (BEFORE + [0, 0, 0, 7]))))
  {
    assert U32(5) == [0, 0, 0, 5] && U32(6) == [0, 0, 0, 6] && U32(7) == [0, 0, 0, 7];
    assert PENDING.refs[1..] == [];
    assert RecordPrefix.WideRefs(PENDING.refs) == BEFORE + ([0, 0, 0, 7] + []);
  }

  /** The time, the flags behind the byte 14, the expiration, the residency, the node, and the counted references. */
  lemma RecordOnDisk()
    ensures RecordPrefix.Storable(PENDING)
    ensures RecordPrefix.EncodedBytes(PENDING, true, [1, 2])
         == TIME + (([14, 0, 0x20, 0xf0] + (EXPIRES + ([0, 0, 0, 5] + ([0, 0, 0, 6] + ([1] + (BEFORE + [0, 0, 0, 7])))))) + [1, 2])
  {
    RecordFlags();
    RecordFields();
    assert RecordPrefix.Tagged(0x20f0) == 0xe00_20f0 && U32(0xe00_20f0) == [14, 0, 0x20, 0xf0];
  }

  lemma ShortFlagBits()
    ensures Bit(16, 4) && !Bit(16, 5) && !Bit(16, 6) && !Bit(16, 7)
    ensures !Bit(64, 4) && !Bit(64, 5) && Bit(64, 6) && !Bit(64, 7)
  {
    FlagAt(16);
    FlagAt(64);
  }

  /** The old form of the flags, in two bytes of which the first has five bits: an expiration, and a node. */
  lemma ShortFlags(value: seq<Byte>)
    ensures RecordPrefix.DecodeAfterTime(TIME, [16, 0] + (EXPIRES + value))
         == Some(RecordPrefix.WithMetadata(TIME, 16, RecordPrefix.Fields(Some(EXPIRES), None, None, None), value))
    ensures RecordPrefix.DecodeAfterTime(TIME, [0, 2] + ([0, 0, 0, 6] + value))
         == Some(RecordPrefix.WithMetadata(TIME, 64, RecordPrefix.Fields(None, None, Some(6), None), value))
  {
    ShortFlagBits();
    var a, b := [16, 0] + (EXPIRES + value), [0, 2] + ([0, 0, 0, 6] + value);
    assert a[2..] == EXPIRES + value && b[2..] == [0, 0, 0, 6] + value;
    FloatRoundTrip(EXPIRES, value);
    U32Inverse(6, value);
    assert U32(6) == [0, 0, 0, 6] && ([0, 0, 0, 6] + value)[4..] == value;
  }

  /** Which buffers are read as a record with a time: those that begin with 66, or with less than 32 and have more than two bytes. */
  lemma TimeOrPlain(s: seq<Byte>, holder: Float64)
    ensures RecordPrefix.DecodeRecord(s, holder) == Some(RecordPrefix.Plain(s))
       <==> s == [] || (s[0] != 66 && (s[0] >= 32 || |s| <= 2))
  {
  }
}
