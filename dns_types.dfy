// DNS message header, resource-record header, KEY record flags, OPT record
// and Update Lease option, as packed byte layouts with their accessors.
module DnsTypes {
  import opened Common

  // ---------------------------------------------------------------------
  // Bit helpers on one byte (the ReadBits/WriteBits/GetBit/SetBit/ClearBit
  // helpers every packed accessor below is written with)
  // ---------------------------------------------------------------------

  function ReadBits(b: bv8, mask: bv8, offset: nat): bv8
    requires offset < 8
  {
    (b & mask) >> offset
  }

  function WriteBits(b: bv8, mask: bv8, offset: nat, v: bv8): bv8
    requires offset < 8
  {
    (b & !mask) | ((v << offset) & mask)
  }

  predicate GetBit(b: bv8, offset: nat)
    requires offset < 8
  {
    b & (1 << offset) != 0
  }

  function SetBit(b: bv8, offset: nat): bv8
    requires offset < 8
  {
    b | (1 << offset)
  }

  function ClearBit(b: bv8, offset: nat): bv8
    requires offset < 8
  {
    b & !(1 << offset)
  }

  /** The byte that stores a bool flag set or cleared at `offset`. */
  function UpdateBit(b: bv8, offset: nat, on: bool): bv8
    requires offset < 8
  {
    if on then SetBit(b, offset) else ClearBit(b, offset)
  }

  // Multi-byte fields are unsigned 16- and 32-bit values, written here
  // as bit-vectors.

  /** A big-endian 16-bit field (BigEndian::HostSwap16 on the stored bytes). */
  function BigEndian16(hi: bv8, lo: bv8): bv16
  {
    ((hi as bv16) << 8) | (lo as bv16)
  }

  function HighByte(v: bv16): bv8
  {
    (v >> 8) as bv8
  }

  function LowByte(v: bv16): bv8
  {
    (v & 0xff) as bv8
  }

  // ---------------------------------------------------------------------
  // Header: the 12-byte message header of section 4.1.1 of RFC 1035
  // ---------------------------------------------------------------------

  const HeaderSize := 12

  type HeaderBytes = s: seq<bv8> | |s| == HeaderSize witness seq(HeaderSize, _ => 0)

  const ClearedHeader: HeaderBytes := seq(HeaderSize, _ => 0)

  // Byte 2 holds QR, OpCode, AA, TC and RD; byte 3 holds RA, Z and RCODE.
  const FlagsByte0 := 2
  const FlagsByte1 := 3
  const QrFlagOffset := 7
  const QrFlagMask: bv8 := 0x80
  const OpCodeOffset := 3
  const OpCodeMask: bv8 := 0x78
  const ZOffset := 4
  const ZMask: bv8 := 0x70
  const RCodeOffset := 0
  const RCodeMask: bv8 := 0x0f

  datatype MessageType = Query | Response

  function MessageTypeValue(t: MessageType): bv8
  {
    if t == Query then 0 else 1
  }

  // Query types (OpCode values)
  const QueryTypeStandard: bv8 := 0
  const QueryTypeInverse: bv8 := 1
  const QueryTypeStatus: bv8 := 2
  const QueryTypeNotify: bv8 := 4
  const QueryTypeUpdate: bv8 := 5
  const QueryTypeDso: bv8 := 6

  datatype Flag = AuthoritativeAnswer | Truncation | RecursionDesired | RecursionAvailable

  function FlagByte(f: Flag): nat
  {
    if f == RecursionAvailable then FlagsByte1 else FlagsByte0
  }

  function FlagOffset(f: Flag): (n: nat)
    ensures n < 8
  {
    match f
    case AuthoritativeAnswer => 2
    case Truncation => 1
    case RecursionDesired => 0
    case RecursionAvailable => 7
  }

  /** The four section counts, in the order they follow the flags. */
  datatype Section = Question | Answer | Authority | Additional

  function CountIndex(s: Section): (i: nat)
    ensures 4 <= i && i + 1 < HeaderSize
  {
    match s
    case Question => 4
    case Answer => 6
    case Authority => 8
    case Additional => 10
  }

  /** Every field of a header, as its getters return it. */
  datatype HeaderFields = HeaderFields(
    messageId: bv16,
    messageType: MessageType,
    queryType: bv8,
    authoritativeAnswer: bool,
    truncation: bool,
    recursionDesired: bool,
    recursionAvailable: bool,
    z: bv8,
    responseCode: bv8,
    questionCount: bv16,
    answerCount: bv16,
    authorityCount: bv16,
    additionalCount: bv16)

  /** The fields a 12-byte header can hold: OpCode and RCODE are 4 bits, Z is 3. */
  predicate WellFormed(f: HeaderFields)
  {
    f.queryType < 16 && f.z < 8 && f.responseCode < 16
  }

  function MessageIdOf(h: HeaderBytes): bv16
  {
    BigEndian16(h[0], h[1])
  }

  function MessageTypeOf(h: HeaderBytes): MessageType
  {
    if ReadBits(h[FlagsByte0], QrFlagMask, QrFlagOffset) == 0 then Query else Response
  }

  function QueryTypeOf(h: HeaderBytes): bv8
  {
    ReadBits(h[FlagsByte0], OpCodeMask, OpCodeOffset)
  }

  predicate IsFlagSet(h: HeaderBytes, f: Flag)
  {
    GetBit(h[FlagByte(f)], FlagOffset(f))
  }

  function ZOf(h: HeaderBytes): bv8
  {
    ReadBits(h[FlagsByte1], ZMask, ZOffset)
  }

  function ResponseCodeOf(h: HeaderBytes): bv8
  {
    ReadBits(h[FlagsByte1], RCodeMask, RCodeOffset)
  }

  function CountOf(h: HeaderBytes, s: Section): bv16
  {
    BigEndian16(h[CountIndex(s)], h[CountIndex(s) + 1])
  }

  /** The header read field by field. */
  function Decode(h: HeaderBytes): HeaderFields
  {
    HeaderFields(
      MessageIdOf(h), MessageTypeOf(h), QueryTypeOf(h),
      IsFlagSet(h, AuthoritativeAnswer), IsFlagSet(h, Truncation),
      IsFlagSet(h, RecursionDesired), IsFlagSet(h, RecursionAvailable),
      ZOf(h), ResponseCodeOf(h),
      CountOf(h, Question), CountOf(h, Answer), CountOf(h, Authority), CountOf(h, Additional))
  }

  function FlagField(f: HeaderFields, flag: Flag): bool
  {
    match flag
    case AuthoritativeAnswer => f.authoritativeAnswer
    case Truncation => f.truncation
    case RecursionDesired => f.recursionDesired
    case RecursionAvailable => f.recursionAvailable
  }

  function WithFlagField(f: HeaderFields, flag: Flag, on: bool): HeaderFields
  {
    match flag
    case AuthoritativeAnswer => f.(authoritativeAnswer := on)
    case Truncation => f.(truncation := on)
    case RecursionDesired => f.(recursionDesired := on)
    case RecursionAvailable => f.(recursionAvailable := on)
  }

  function CountField(f: HeaderFields, s: Section): bv16
  {
    match s
    case Question => f.questionCount
    case Answer => f.answerCount
    case Authority => f.authorityCount
    case Additional => f.additionalCount
  }

  function WithCountField(f: HeaderFields, s: Section, c: bv16): HeaderFields
  {
    match s
    case Question => f.(questionCount := c)
    case Answer => f.(answerCount := c)
    case Authority => f.(authorityCount := c)
    case Additional => f.(additionalCount := c)
  }

  function FlagsByte0Of(f: HeaderFields): bv8
    requires WellFormed(f)
  {
    (MessageTypeValue(f.messageType) << QrFlagOffset)
    | (f.queryType << OpCodeOffset)
    | (if f.authoritativeAnswer then 4 else 0)
    | (if f.truncation then 2 else 0)
    | (if f.recursionDesired then 1 else 0)
  }

  function FlagsByte1Of(f: HeaderFields): bv8
    requires WellFormed(f)
  {
    (if f.recursionAvailable then 0x80 else 0)
    | (f.z << ZOffset)
    | f.responseCode
  }

  lemma BigEndian16RoundTrip(v: bv16)
    ensures BigEndian16(HighByte(v), LowByte(v)) == v
  {
  }

  lemma FlagsByte0ReadBack(f: HeaderFields)
    requires WellFormed(f)
    ensures var b := FlagsByte0Of(f);
      (ReadBits(b, QrFlagMask, QrFlagOffset) == 0 <==> f.messageType == Query)
      && ReadBits(b, OpCodeMask, OpCodeOffset) == f.queryType
      && GetBit(b, 2) == f.authoritativeAnswer
      && GetBit(b, 1) == f.truncation
      && GetBit(b, 0) == f.recursionDesired
  {
  }

  lemma FlagsByte1ReadBack(f: HeaderFields)
    requires WellFormed(f)
    ensures var b := FlagsByte1Of(f);
      GetBit(b, 7) == f.recursionAvailable
      && ReadBits(b, ZMask, ZOffset) == f.z
      && ReadBits(b, RCodeMask, RCodeOffset) == f.responseCode
  {
  }

  /** The wire bytes of a header. */
  function Encode(f: HeaderFields): HeaderBytes
    requires WellFormed(f)
  {
    [HighByte(f.messageId), LowByte(f.messageId), FlagsByte0Of(f), FlagsByte1Of(f),
     HighByte(f.questionCount), LowByte(f.questionCount),
     HighByte(f.answerCount), LowByte(f.answerCount),
     HighByte(f.authorityCount), LowByte(f.authorityCount),
     HighByte(f.additionalCount), LowByte(f.additionalCount)]
  }

  lemma EncodeCounts(f: HeaderFields)
    requires WellFormed(f)
    ensures var h := Encode(f);
      MessageIdOf(h) == f.messageId
      && CountOf(h, Question) == f.questionCount && CountOf(h, Answer) == f.answerCount
      && CountOf(h, Authority) == f.authorityCount && CountOf(h, Additional) == f.additionalCount
  {
    BigEndian16RoundTrip(f.messageId);
    BigEndian16RoundTrip(f.questionCount);
    BigEndian16RoundTrip(f.answerCount);
    BigEndian16RoundTrip(f.authorityCount);
    BigEndian16RoundTrip(f.additionalCount);
  }

  /** Decode inverts Encode: every field a header can hold is read back. */
  lemma DecodeEncode(f: HeaderFields)
    requires WellFormed(f)
    ensures Decode(Encode(f)) == f
  {
    EncodeCounts(f);
    EncodeFlags(f);
  }

  lemma EncodeFlags(f: HeaderFields)
    requires WellFormed(f)
    ensures var h := Encode(f);
      MessageTypeOf(h) == f.messageType && QueryTypeOf(h) == f.queryType
      && IsFlagSet(h, AuthoritativeAnswer) == f.authoritativeAnswer
      && IsFlagSet(h, Truncation) == f.truncation
      && IsFlagSet(h, RecursionDesired) == f.recursionDesired
      && IsFlagSet(h, RecursionAvailable) == f.recursionAvailable
      && ZOf(h) == f.z && ResponseCodeOf(h) == f.responseCode
  {
    var h := Encode(f);
    assert h[FlagsByte0] == FlagsByte0Of(f) && h[FlagsByte1] == FlagsByte1Of(f);
    FlagsByte0ReadBack(f);
    FlagsByte1ReadBack(f);
  }

  // Setters: each one rewrites the bytes of its own field and, read back
  // through Decode, changes that field and no other.

  function WithMessageId(h: HeaderBytes, id: bv16): (r: HeaderBytes)
    ensures Decode(r) == Decode(h).(messageId := id)
  {
    BigEndian16RoundTrip(id);
    h[0 := HighByte(id)][1 := LowByte(id)]
  }

  lemma WriteQr(b: bv8, t: MessageType)
    ensures var n := WriteBits(b, QrFlagMask, QrFlagOffset, MessageTypeValue(t));
      (ReadBits(n, QrFlagMask, QrFlagOffset) == 0 <==> t == Query)
      && ReadBits(n, OpCodeMask, OpCodeOffset) == ReadBits(b, OpCodeMask, OpCodeOffset)
      && GetBit(n, 0) == GetBit(b, 0) && GetBit(n, 1) == GetBit(b, 1) && GetBit(n, 2) == GetBit(b, 2)
  {
  }

  function WithMessageType(h: HeaderBytes, t: MessageType): (r: HeaderBytes)
    ensures Decode(r) == Decode(h).(messageType := t)
  {
    WriteQr(h[FlagsByte0], t);
    h[FlagsByte0 := WriteBits(h[FlagsByte0], QrFlagMask, QrFlagOffset, MessageTypeValue(t))]
  }

  lemma WriteOpCode(b: bv8, v: bv8)
    ensures var n := WriteBits(b, OpCodeMask, OpCodeOffset, v);
      ReadBits(n, OpCodeMask, OpCodeOffset) == v & 0x0f
      && ReadBits(n, QrFlagMask, QrFlagOffset) == ReadBits(b, QrFlagMask, QrFlagOffset)
      && GetBit(n, 0) == GetBit(b, 0) && GetBit(n, 1) == GetBit(b, 1) && GetBit(n, 2) == GetBit(b, 2)
  {
  }

  /** The OpCode field is 4 bits wide: a wider value loses its high bits. */
  function WithQueryType(h: HeaderBytes, v: bv8): (r: HeaderBytes)
    ensures Decode(r) == Decode(h).(queryType := v & 0x0f)
    ensures QueryTypeOf(r) == v <==> v < 16
  {
    WriteOpCode(h[FlagsByte0], v);
    h[FlagsByte0 := WriteBits(h[FlagsByte0], OpCodeMask, OpCodeOffset, v)]
  }

  /** Setting or clearing AA, TC or RD keeps QR, OpCode and the other two bits of byte 2. */
  lemma UpdateFlagsByte0Bit(b: bv8, offset: nat, on: bool)
    requires offset <= 2
    ensures var n := UpdateBit(b, offset, on);
      GetBit(n, offset) == on
      && ReadBits(n, QrFlagMask, QrFlagOffset) == ReadBits(b, QrFlagMask, QrFlagOffset)
      && ReadBits(n, OpCodeMask, OpCodeOffset) == ReadBits(b, OpCodeMask, OpCodeOffset)
      && (offset != 0 ==> GetBit(n, 0) == GetBit(b, 0))
      && (offset != 1 ==> GetBit(n, 1) == GetBit(b, 1))
      && (offset != 2 ==> GetBit(n, 2) == GetBit(b, 2))
  {
  }

  /** Setting or clearing RA keeps Z and RCODE in byte 3. */
  lemma UpdateFlagsByte1Bit(b: bv8, on: bool)
    ensures var n := UpdateBit(b, 7, on);
      GetBit(n, 7) == on
      && ReadBits(n, ZMask, ZOffset) == ReadBits(b, ZMask, ZOffset)
      && ReadBits(n, RCodeMask, RCodeOffset) == ReadBits(b, RCodeMask, RCodeOffset)
  {
  }

  function WithFlag(h: HeaderBytes, flag: Flag, on: bool): (r: HeaderBytes)
    ensures Decode(r) == WithFlagField(Decode(h), flag, on)
    ensures IsFlagSet(r, flag) == on
  {
    var i := FlagByte(flag);
    var n := UpdateBit(h[i], FlagOffset(flag), on);
    if flag == RecursionAvailable then
      UpdateFlagsByte1Bit(h[i], on);
      h[i := n]
    else
      UpdateFlagsByte0Bit(h[i], FlagOffset(flag), on);
      h[i := n]
  }

  /** The RCODE field is 4 bits wide: a code above 15 loses its high bits. */
  lemma WriteRCode(b: bv8, code: bv8)
    ensures var n := WriteBits(b, RCodeMask, RCodeOffset, code);
      ReadBits(n, RCodeMask, RCodeOffset) == code & 0x0f
      && ReadBits(n, ZMask, ZOffset) == ReadBits(b, ZMask, ZOffset)
      && GetBit(n, 7) == GetBit(b, 7)
  {
  }

  function WithResponseCode(h: HeaderBytes, code: bv8): (r: HeaderBytes)
    ensures Decode(r) == Decode(h).(responseCode := code & 0x0f)
    ensures ResponseCodeOf(r) == code & 0x0f
    ensures ResponseCodeOf(r) == code <==> code < 16
  {
    WriteRCode(h[FlagsByte1], code);
    h[FlagsByte1 := WriteBits(h[FlagsByte1], RCodeMask, RCodeOffset, code)]
  }

  function WithCount(h: HeaderBytes, s: Section, c: bv16): (r: HeaderBytes)
    ensures Decode(r) == WithCountField(Decode(h), s, c)
    ensures CountOf(r, s) == c
  {
    CountWritten(h, s, c);
    WriteCount(h, s, c)
  }

  function WriteCount(h: HeaderBytes, s: Section, c: bv16): HeaderBytes
  {
    h[CountIndex(s) := HighByte(c)][CountIndex(s) + 1 := LowByte(c)]
  }

  lemma CountWritten(h: HeaderBytes, s: Section, c: bv16)
    ensures Decode(WriteCount(h, s, c)) == WithCountField(Decode(h), s, c)
  {
    var r := WriteCount(h, s, c);
    BigEndian16RoundTrip(c);
    SameIdAndFlags(h, r);
    match s
    case Question =>
      assert r[6..] == h[6..];
    case Answer =>
      assert r[4..6] == h[4..6] && r[8..] == h[8..];
    case Authority =>
      assert r[4..8] == h[4..8] && r[10..] == h[10..];
    case Additional =>
      assert r[4..10] == h[4..10];
  }

  /** Headers that agree on their first four bytes agree on the ID and every flag field. */
  lemma SameIdAndFlags(h: HeaderBytes, r: HeaderBytes)
    requires r[..4] == h[..4]
    ensures MessageIdOf(r) == MessageIdOf(h) && MessageTypeOf(r) == MessageTypeOf(h)
    ensures QueryTypeOf(r) == QueryTypeOf(h) && ZOf(r) == ZOf(h) && ResponseCodeOf(r) == ResponseCodeOf(h)
    ensures forall flag :: IsFlagSet(r, flag) == IsFlagSet(h, flag)
  {
    assert r[0] == h[0] && r[1] == h[1] && r[2] == h[2] && r[3] == h[3];
  }

  /** A header whose every field is clear. */
  lemma ClearedHeaderFields()
    ensures Decode(ClearedHeader) == HeaderFields(0, Query, 0, false, false, false, false, 0, 0, 0, 0, 0, 0)
  {
    assert ClearedHeader[FlagsByte0] == 0 && ClearedHeader[FlagsByte1] == 0;
    assert forall i | 0 <= i < HeaderSize :: ClearedHeader[i] == 0;
  }

  /** The packed header, updated in place by its setters. */
  class Header {
    var bytes: HeaderBytes

    /** A new header has every field clear. */
    constructor ()
      ensures bytes == ClearedHeader
    {
      bytes := ClearedHeader;
    }

    /** An update message header: cleared, then with query type Update. */
    constructor Update()
      ensures bytes == WithQueryType(ClearedHeader, QueryTypeUpdate)
    {
      bytes := ClearedHeader;
      new;
      SetQueryType(QueryTypeUpdate);
    }

    method SetMessageId(id: bv16)
      modifies this
      ensures bytes == WithMessageId(old(bytes), id)
    {
      bytes := WithMessageId(bytes, id);
    }

    method SetType(t: MessageType)
      modifies this
      ensures bytes == WithMessageType(old(bytes), t)
    {
      bytes := WithMessageType(bytes, t);
    }

    method SetQueryType(v: bv8)
      modifies this
      ensures bytes == WithQueryType(old(bytes), v)
    {
      bytes := WithQueryType(bytes, v);
    }

    /** SetAuthoritativeAnswerFlag, SetTruncationFlag, SetRecursionDesiredFlag, SetRecursionAvailableFlag. */
    method SetFlag(flag: Flag)
      modifies this
      ensures bytes == WithFlag(old(bytes), flag, true)
    {
      bytes := WithFlag(bytes, flag, true);
    }

    /** The four Clear...Flag methods. */
    method ClearFlag(flag: Flag)
      modifies this
      ensures bytes == WithFlag(old(bytes), flag, false)
    {
      bytes := WithFlag(bytes, flag, false);
    }

    method SetResponseCode(code: bv8)
      modifies this
      ensures bytes == WithResponseCode(old(bytes), code)
    {
      bytes := WithResponseCode(bytes, code);
    }

    /** SetQuestionCount, SetAnswerCount, SetAuthorityRecordCount, SetAdditionalRecordCount. */
    method SetCount(section: Section, c: bv16)
      modifies this
      ensures bytes == WithCount(old(bytes), section, c)
    {
      bytes := WithCount(bytes, section, c);
    }

    /** SetZoneRecordCount, SetPrerequisiteRecordCount, SetUpdateRecordCount. */
    method SetUpdateCount(section: UpdateSection, c: bv16)
      modifies this
      ensures bytes == WithCount(old(bytes), Aliased(section), c)
    {
      SetCount(Aliased(section), c);
    }
  }

  // ---------------------------------------------------------------------
  // Update message sections (section 2.2 of RFC 2136): the Zone,
  // Prerequisite and Update counts reuse the Question, Answer and
  // Authority counts of the header.
  // ---------------------------------------------------------------------

  datatype UpdateSection = Zone | Prerequisite | UpdateRecords

  function Aliased(u: UpdateSection): (s: Section)
    ensures s != Additional
  {
    match u
    case Zone => Question
    case Prerequisite => Answer
    case UpdateRecords => Authority
  }

  function UpdateCountOf(h: HeaderBytes, u: UpdateSection): bv16
  {
    CountOf(h, Aliased(u))
  }

  /** Distinct update sections have distinct counts: setting one keeps the others. */
  lemma UpdateCountsIndependent(h: HeaderBytes, u: UpdateSection, v: UpdateSection, c: bv16)
    ensures UpdateCountOf(WithCount(h, Aliased(u), c), v) == if u == v then c else UpdateCountOf(h, v)
  {
    var r := WithCount(h, Aliased(u), c);
    assert Decode(r) == WithCountField(Decode(h), Aliased(u), c);
    assert UpdateCountOf(r, v) == CountField(Decode(r), Aliased(v));
  }

  /** A new update header carries the Update query type and nothing else. */
  lemma UpdateHeaderFields()
    ensures Decode(WithQueryType(ClearedHeader, QueryTypeUpdate))
         == HeaderFields(0, Query, QueryTypeUpdate, false, false, false, false, 0, 0, 0, 0, 0, 0)
  {
    ClearedHeaderFields();
  }

  // ---------------------------------------------------------------------
  // Response codes and the errors they map to
  // ---------------------------------------------------------------------

  const ResponseSuccess: bv8 := 0
  const ResponseFormatError: bv8 := 1
  const ResponseServerFailure: bv8 := 2
  const ResponseNameError: bv8 := 3
  const ResponseNotImplemented: bv8 := 4
  const ResponseRefused: bv8 := 5
  const ResponseNameExists: bv8 := 6
  const ResponseRecordExists: bv8 := 7
  const ResponseRecordNotExists: bv8 := 8
  const ResponseNotAuth: bv8 := 9
  const ResponseNotZone: bv8 := 10
  const DsoTypeNotImplemented: bv8 := 11
  const ResponseBadName: bv8 := 20
  const ResponseBadAlg: bv8 := 21
  const ResponseBadTruncation: bv8 := 22

  predicate ListedResponseCode(code: bv8)
  {
    code <= DsoTypeNotImplemented || ResponseBadName <= code <= ResponseBadTruncation
  }

  function ResponseCodeToError(code: bv8): (e: Error)
    ensures e == NoError <==> code == ResponseSuccess
    ensures !ListedResponseCode(code) ==> e == Failed
    ensures e in {NoError, Parse, Failed, NotFound, NotImplemented, Security, Duplicated}
  {
    if code == ResponseSuccess then NoError
    else if code == ResponseFormatError then Parse
    else if code == ResponseServerFailure then Failed
    else if code == ResponseNameError then NotFound
    else if code == ResponseNotImplemented then NotImplemented
    else if code == ResponseRefused then Security
    else if code == ResponseNameExists then Duplicated
    else if code == ResponseRecordExists then Duplicated
    else if code == ResponseRecordNotExists then NotFound
    else if code == ResponseNotAuth then Security
    else if code == ResponseNotZone then Parse
    else if code == DsoTypeNotImplemented then NotImplemented
    else if code == ResponseBadName then Parse
    else if code == ResponseBadAlg then Security
    else if code == ResponseBadTruncation then Parse
    else Failed
  }

  /**
   * The header's RCODE field holds 4 bits, so the extended codes BADNAME and
   * BADTRUNC set through the header read back as NotImp and YXDomain and map
   * to a different error; BADALG reads back as Refused, which maps to the
   * same error.
   */
  lemma ExtendedCodesInHeader(h: HeaderBytes)
    ensures ResponseCodeOf(WithResponseCode(h, ResponseBadName)) == ResponseNotImplemented
    ensures ResponseCodeOf(WithResponseCode(h, ResponseBadTruncation)) == ResponseNameExists
    ensures ResponseCodeOf(WithResponseCode(h, ResponseBadAlg)) == ResponseRefused
  {
    assert ResponseBadName & 0x0f == ResponseNotImplemented;
    assert ResponseBadTruncation & 0x0f == ResponseNameExists;
    assert ResponseBadAlg & 0x0f == ResponseRefused;
  }

  /** BADNAME and BADTRUNC map to a different error than the codes they read back as. */
  lemma ExtendedCodesErrors()
    ensures ResponseCodeToError(ResponseBadName) == Parse && ResponseCodeToError(ResponseNotImplemented) == NotImplemented
    ensures ResponseCodeToError(ResponseBadTruncation) == Parse && ResponseCodeToError(ResponseNameExists) == Duplicated
    ensures ResponseCodeToError(ResponseBadAlg) == ResponseCodeToError(ResponseRefused) == Security
  {
  }

  // ---------------------------------------------------------------------
  // Resource record header: TYPE, CLASS, TTL and RDLENGTH, big-endian
  // (section 4.1.3 of RFC 1035); the record data follows it
  // ---------------------------------------------------------------------

  const RecordHeaderSize := 10
  const TypeKey: bv16 := 25
  const TypeOpt: bv16 := 41
  const ClassInternet: bv16 := 1

  type RecordBytes = s: seq<bv8> | |s| == RecordHeaderSize witness seq(RecordHeaderSize, _ => 0)

  // Byte offsets of the record header fields
  const TypeIndex := 0
  const ClassIndex := 2
  const TtlIndex := 4
  const LengthIndex := 8

  function BigEndian32(b0: bv8, b1: bv8, b2: bv8, b3: bv8): bv32
  {
    ((BigEndian16(b0, b1) as bv32) << 16) | (BigEndian16(b2, b3) as bv32)
  }

  function RecordTypeOf(r: RecordBytes): bv16
  {
    BigEndian16(r[TypeIndex], r[TypeIndex + 1])
  }

  function ClassOf(r: RecordBytes): bv16
  {
    BigEndian16(r[ClassIndex], r[ClassIndex + 1])
  }

  function TtlOf(r: RecordBytes): bv32
  {
    BigEndian32(r[TtlIndex], r[TtlIndex + 1], r[TtlIndex + 2], r[TtlIndex + 3])
  }

  function LengthOf(r: RecordBytes): bv16
  {
    BigEndian16(r[LengthIndex], r[LengthIndex + 1])
  }

  /** Writes a big-endian 16-bit field at byte `i`. */
  function With16(r: RecordBytes, i: nat, v: bv16): (n: RecordBytes)
    requires i + 1 < RecordHeaderSize
    ensures BigEndian16(n[i], n[i + 1]) == v
    ensures forall j | 0 <= j < RecordHeaderSize && j != i && j != i + 1 :: n[j] == r[j]
  {
    BigEndian16RoundTrip(v);
    r[i := HighByte(v)][i + 1 := LowByte(v)]
  }

  function WithRecordType(r: RecordBytes, t: bv16): (n: RecordBytes)
    ensures RecordTypeOf(n) == t
    ensures ClassOf(n) == ClassOf(r) && TtlOf(n) == TtlOf(r) && LengthOf(n) == LengthOf(r)
  {
    With16(r, TypeIndex, t)
  }

  function WithClass(r: RecordBytes, c: bv16): (n: RecordBytes)
    ensures ClassOf(n) == c
    ensures RecordTypeOf(n) == RecordTypeOf(r) && TtlOf(n) == TtlOf(r) && LengthOf(n) == LengthOf(r)
  {
    With16(r, ClassIndex, c)
  }

  /** SetLength: the record size then covers the header and `length` bytes of data. */
  function WithLength(r: RecordBytes, length: bv16): (n: RecordBytes)
    ensures LengthOf(n) == length && RecordSize(n) == RecordHeaderSize + length as int
    ensures RecordTypeOf(n) == RecordTypeOf(r) && ClassOf(n) == ClassOf(r) && TtlOf(n) == TtlOf(r)
  {
    With16(r, LengthIndex, length)
  }

  function WithTtl(r: RecordBytes, ttl: bv32): (n: RecordBytes)
    ensures TtlOf(n) == ttl
    ensures RecordTypeOf(n) == RecordTypeOf(r) && ClassOf(n) == ClassOf(r) && LengthOf(n) == LengthOf(r)
  {
    var hi: bv16 := (ttl >> 16) as bv16;
    var lo: bv16 := (ttl & 0xffff) as bv16;
    With16(With16(r, TtlIndex, hi), TtlIndex + 2, lo)
  }

  /** GetSize: the record header and its data, without the name. */
  function RecordSize(r: RecordBytes): uint32
  {
    RecordHeaderSize + LengthOf(r) as int
  }

  // ---------------------------------------------------------------------
  // OPT pseudo-record (section 6.1.3 of RFC 6891): CLASS carries the UDP
  // payload size; the TTL bytes carry EXTENDED-RCODE, VERSION and the
  // flags, with DO the top bit of the third byte
  // ---------------------------------------------------------------------

  const ExtRCodeByteIndex := 0
  const VersionByteIndex := 1
  const FlagByteIndex := 2
  const DnsSecFlagOffset := 7

  function TtlByte(r: RecordBytes, index: nat): bv8
    requires index < 4
  {
    r[TtlIndex + index]
  }

  function ExtendedResponseCodeOf(r: RecordBytes): bv8
  {
    TtlByte(r, ExtRCodeByteIndex)
  }

  function VersionOf(r: RecordBytes): bv8
  {
    TtlByte(r, VersionByteIndex)
  }

  predicate IsDnsSecurityFlagSet(r: RecordBytes)
  {
    GetBit(TtlByte(r, FlagByteIndex), DnsSecFlagOffset)
  }

  /** Writes one TTL byte and no other byte of the record. */
  function WithTtlByte(r: RecordBytes, index: nat, b: bv8): (n: RecordBytes)
    requires index < 4
    ensures TtlByte(n, index) == b
    ensures forall j | 0 <= j < RecordHeaderSize && j != TtlIndex + index :: n[j] == r[j]
  {
    r[TtlIndex + index := b]
  }

  lemma UpdateDnsSecBit(b: bv8, on: bool)
    ensures GetBit(UpdateBit(b, DnsSecFlagOffset, on), DnsSecFlagOffset) == on
    ensures UpdateBit(b, DnsSecFlagOffset, on) & 0x7f == b & 0x7f
  {
  }

  /** SetDnsSecurityFlag / ClearDnsSecurityFlag: only bit 7 of the flag byte changes. */
  function WithDnsSecurityFlag(r: RecordBytes, on: bool): (n: RecordBytes)
    ensures IsDnsSecurityFlagSet(n) == on
    ensures TtlByte(n, FlagByteIndex) & 0x7f == TtlByte(r, FlagByteIndex) & 0x7f
    ensures forall j | 0 <= j < RecordHeaderSize && j != TtlIndex + FlagByteIndex :: n[j] == r[j]
  {
    UpdateDnsSecBit(TtlByte(r, FlagByteIndex), on);
    WithTtlByte(r, FlagByteIndex, UpdateBit(TtlByte(r, FlagByteIndex), DnsSecFlagOffset, on))
  }

  /**
   * The byte view and the TTL value agree: EXTENDED-RCODE is the top byte
   * of the TTL, VERSION the next one, and DO is bit 15.
   */
  lemma OptTtlLayout(r: RecordBytes)
    ensures ExtendedResponseCodeOf(r) == (TtlOf(r) >> 24) as bv8
    ensures VersionOf(r) == ((TtlOf(r) >> 16) & 0xff) as bv8
    ensures IsDnsSecurityFlagSet(r) <==> (TtlOf(r) >> 15) & 1 == 1
  {
  }

  /** The OPT record, updated in place by its setters. */
  class OptRecord {
    var record: RecordBytes

    constructor (record: RecordBytes)
      ensures this.record == record
    {
      this.record := record;
    }

    /** Init: the OPT type, and a TTL of zero (no extended code, version 0, no flags). */
    method Init()
      modifies this
      ensures record == WithTtl(WithRecordType(old(record), TypeOpt), 0)
      ensures ExtendedResponseCodeOf(record) == 0 && VersionOf(record) == 0 && !IsDnsSecurityFlagSet(record)
    {
      record := WithTtl(WithRecordType(record, TypeOpt), 0);
      OptTtlLayout(record);
    }

    method SetUdpPayloadSize(size: bv16)
      modifies this
      ensures record == WithClass(old(record), size)
    {
      record := WithClass(record, size);
    }

    method SetExtendedResponseCode(code: bv8)
      modifies this
      ensures record == WithTtlByte(old(record), ExtRCodeByteIndex, code)
    {
      record := WithTtlByte(record, ExtRCodeByteIndex, code);
    }

    method SetVersion(version: bv8)
      modifies this
      ensures record == WithTtlByte(old(record), VersionByteIndex, version)
    {
      record := WithTtlByte(record, VersionByteIndex, version);
    }

    method SetDnsSecurityFlag()
      modifies this
      ensures record == WithDnsSecurityFlag(old(record), true)
    {
      record := WithDnsSecurityFlag(record, true);
    }

    method ClearDnsSecurityFlag()
      modifies this
      ensures record == WithDnsSecurityFlag(old(record), false)
    {
      record := WithDnsSecurityFlag(record, false);
    }
  }

  // ---------------------------------------------------------------------
  // KEY record flags (section 3.1.2 of RFC 2535): the use flags are the
  // top two bits and the owner flags the low two bits of the first byte;
  // the signatory flags of RFC 2137 are the low four bits of the second
  // ---------------------------------------------------------------------

  datatype UseFlags = AuthConfidPermitted | AuthPermitted | ConfidPermitted | NoKey
  datatype OwnerFlags = OwnerUser | OwnerZone | OwnerNonZone | OwnerReserved

  const UseFlagsMask: bv8 := 0xc0
  const OwnerFlagsMask: bv8 := 0x03
  const SignatoryFlagsMask: bv8 := 0x0f

  function UseFlagsValue(u: UseFlags): bv8
  {
    match u
    case AuthConfidPermitted => 0x00
    case AuthPermitted => 0x40
    case ConfidPermitted => 0x80
    case NoKey => 0xc0
  }

  function OwnerFlagsValue(o: OwnerFlags): bv8
  {
    match o
    case OwnerUser => 0x00
    case OwnerZone => 0x01
    case OwnerNonZone => 0x02
    case OwnerReserved => 0x03
  }

  /** GetUseFlags: the 0xc0 field of the first flag byte. */
  function UseFlagsOf(flags0: bv8): (u: UseFlags)
    ensures UseFlagsValue(u) == flags0 & UseFlagsMask
  {
    var v := flags0 & UseFlagsMask;
    if v == 0x00 then AuthConfidPermitted
    else if v == 0x40 then AuthPermitted
    else if v == 0x80 then ConfidPermitted
    else NoKey
  }

  /** GetOwnerFlags: the 0x03 field of the first flag byte. */
  function OwnerFlagsOf(flags0: bv8): (o: OwnerFlags)
    ensures OwnerFlagsValue(o) == flags0 & OwnerFlagsMask
  {
    var v := flags0 & OwnerFlagsMask;
    if v == 0x00 then OwnerUser
    else if v == 0x01 then OwnerZone
    else if v == 0x02 then OwnerNonZone
    else OwnerReserved
  }

  function SignatoryFlagsOf(flags1: bv8): bv8
  {
    flags1 & SignatoryFlagsMask
  }

  /**
   * SetFlags: the two flag bytes. The use and owner flags read back, every
   * other bit of the first byte is clear, and only the low four signatory
   * bits are kept.
   */
  function KeyFlags(use: UseFlags, owner: OwnerFlags, signatory: bv8): (flags: (bv8, bv8))
    ensures UseFlagsOf(flags.0) == use && OwnerFlagsOf(flags.0) == owner
    ensures flags.0 & !(UseFlagsMask | OwnerFlagsMask) == 0
    ensures SignatoryFlagsOf(flags.1) == signatory & SignatoryFlagsMask
    ensures flags.1 & !SignatoryFlagsMask == 0
  {
    (UseFlagsValue(use) | OwnerFlagsValue(owner), signatory & SignatoryFlagsMask)
  }

  /** The KEY record's fixed fields, updated in place by its setters. */
  class KeyRecord {
    var flags0: bv8
    var flags1: bv8
    var protocol: uint8
    var algorithm: uint8

    constructor (flags0: bv8, flags1: bv8, protocol: uint8, algorithm: uint8)
      ensures this.flags0 == flags0 && this.flags1 == flags1
      ensures this.protocol == protocol && this.algorithm == algorithm
    {
      this.flags0 := flags0;
      this.flags1 := flags1;
      this.protocol := protocol;
      this.algorithm := algorithm;
    }

    method SetFlags(use: UseFlags, owner: OwnerFlags, signatory: bv8)
      modifies this
      ensures (flags0, flags1) == KeyFlags(use, owner, signatory)
      ensures protocol == old(protocol) && algorithm == old(algorithm)
    {
      var flags := KeyFlags(use, owner, signatory);
      flags0 := flags.0;
      flags1 := flags.1;
    }
  }

  // ---------------------------------------------------------------------
  // OPT options and the Update Lease option
  // ---------------------------------------------------------------------

  const OptionHeaderSize := 4
  const UpdateLeaseOptionCode: uint16 := 2
  const LeaseShortLength: uint16 := 4
  const LeaseLongLength: uint16 := 8

  /** Option::GetSize: the code and length fields and the option data. */
  function OptionSize(optionLength: uint16): uint32
  {
    OptionHeaderSize + optionLength
  }

  /** The Update Lease option body, updated in place by its initialisers. */
  class LeaseOption {
    var optionCode: uint16
    var optionLength: uint16
    var leaseInterval: uint32
    var keyLeaseInterval: uint32

    constructor (optionCode: uint16, optionLength: uint16, leaseInterval: uint32, keyLeaseInterval: uint32)
      ensures this.optionCode == optionCode && this.optionLength == optionLength
      ensures this.leaseInterval == leaseInterval && this.keyLeaseInterval == keyLeaseInterval
    {
      this.optionCode := optionCode;
      this.optionLength := optionLength;
      this.leaseInterval := leaseInterval;
      this.keyLeaseInterval := keyLeaseInterval;
    }

    predicate IsShortVariant()
      reads this
    {
      optionLength == LeaseShortLength
    }

    /** The short variant has no key lease of its own and reports the lease interval. */
    function KeyLeaseInterval(): uint32
      reads this
    {
      if IsShortVariant() then leaseInterval else keyLeaseInterval
    }

    /** Short variant: the lease interval only; the key lease field is left as it was. */
    method InitAsShortVariant(lease: uint32)
      modifies this
      ensures optionCode == UpdateLeaseOptionCode && optionLength == LeaseShortLength
      ensures leaseInterval == lease && keyLeaseInterval == old(keyLeaseInterval)
      ensures IsShortVariant() && KeyLeaseInterval() == lease
      ensures OptionSize(optionLength) == OptionHeaderSize + 4
    {
      optionCode := UpdateLeaseOptionCode;
      optionLength := LeaseShortLength;
      leaseInterval := lease;
    }

    method InitAsLongVariant(lease: uint32, keyLease: uint32)
      modifies this
      ensures optionCode == UpdateLeaseOptionCode && optionLength == LeaseLongLength
      ensures leaseInterval == lease && keyLeaseInterval == keyLease
      ensures !IsShortVariant() && KeyLeaseInterval() == keyLease
      ensures OptionSize(optionLength) == OptionHeaderSize + 8
    {
      optionCode := UpdateLeaseOptionCode;
      optionLength := LeaseLongLength;
      leaseInterval := lease;
      keyLeaseInterval := keyLease;
    }
  }

  /** GetKeyLeaseInterval on an option of the given length. */
  function KeyLeaseIntervalFor(optionLength: uint16, lease: uint32, keyLease: uint32): (k: uint32)
    ensures optionLength == LeaseShortLength ==> k == lease
    ensures optionLength != LeaseShortLength ==> k == keyLease
  {
    if optionLength == LeaseShortLength then lease else keyLease
  }

  // ---------------------------------------------------------------------
  // NSEC type bit map window (section 4.1.2 of RFC 4034)
  // ---------------------------------------------------------------------

  /** TypeBitMap::GetSize: the block number and length bytes and the bitmap. */
  function TypeBitMapSize(bitmapLength: bv8): uint16
  {
    2 + bitmapLength as int
  }

  /** The window as bytes: its length is what GetSize reports. */
  function TypeBitMapBytes(blockNumber: bv8, bitmapLength: bv8, bitmap: seq<bv8>): (r: seq<bv8>)
    requires |bitmap| == bitmapLength as int
    ensures |r| == TypeBitMapSize(bitmapLength)
    ensures r[0] == blockNumber && r[1] == bitmapLength && r[2..] == bitmap
  {
    [blockNumber, bitmapLength] + bitmap
  }
}
