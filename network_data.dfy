/**
 * Thread Network Data: the TLVs a leader keeps (as typed values whose encoded
 * size is computed), the MutableNetworkData length bookkeeping, the range
 * constructor, and the three-byte NetworkDataIterator.
 *
 * TLV layouts follow the Thread specification's Network Data TLVs: a
 * two-byte header (type shifted left by one with the stable bit, then the
 * value length), Has Route entries of three bytes, Border Router entries of
 * four, a Context TLV of two value bytes, a Server TLV holding the two-byte
 * Server16 and its data.
 */
module NetworkData {
  import opened Common

  /** NetworkData::kMaxSize. */
  const MaxSize: nat := 254

  const TlvHeaderSize: nat := 2
  const HasRouteEntrySize: nat := 3
  const BorderRouterEntrySize: nat := 4
  /** A Context TLV: header, flags with the context ID, context length. */
  const ContextTlvSize: nat := 4
  /** Service TLVs with this enterprise number carry the T flag and no number field. */
  const ThreadEnterpriseNumber: uint32 := 44970

  datatype HasRouteEntry = HasRouteEntry(rloc16: uint16, flags: uint8)
  datatype BorderRouterEntry = BorderRouterEntry(rloc16: uint16, flags: uint16)

  datatype SubTlv =
    | HasRoute(stable: bool, routes: seq<HasRouteEntry>)
    | BorderRouter(stable: bool, routers: seq<BorderRouterEntry>)
    | Context(stable: bool, compress: bool, contextId: uint8, contextLength: uint8)
    | Server(stable: bool, server16: uint16, serverData: seq<uint8>)
    | OtherSubTlv(subType: uint8, stable: bool, value: seq<uint8>)

  datatype Tlv =
    | Prefix(stable: bool, domainId: uint8, prefixLength: uint8, prefix: seq<uint8>, subTlvs: seq<SubTlv>)
    | Service(stable: bool, serviceId: uint8, enterpriseNumber: uint32, serviceData: seq<uint8>, subTlvs: seq<SubTlv>)
    | CommissioningData(stable: bool, data: seq<uint8>)
    | OtherTlv(tlvType: uint8, stable: bool, value: seq<uint8>)

  /**
   * RoutePreferenceFromValue: a two-bit route preference as in section 2.1
   * of RFC 4191, 01 high (1), 00 medium (0), 11 low (-1); the reserved 10
   * reads as medium.
   */
  function RoutePreferenceFromValue(v: nat): (p: int)
    ensures -1 <= p <= 1
    ensures v % 4 == 2 ==> p == 0
  {
    var bits := v % 4;
    if bits == 1 then 1 else if bits == 3 then -1 else 0
  }

  /** RoutePreferenceToValue: the preference's two low bits in two's complement. */
  function RoutePreferenceToValue(p: int): (v: uint8)
    ensures v < 4
  {
    p % 4
  }

  /** Every valid preference survives the two-bit encoding. */
  lemma RoutePreferenceRoundTrip(p: int)
    requires -1 <= p <= 1
    ensures RoutePreferenceFromValue(RoutePreferenceToValue(p)) == p
  {
  }

  /** The reserved value is the only two-bit value that does not round-trip. */
  lemma RoutePreferenceValueRoundTrip(v: uint8)
    requires v < 4
    ensures RoutePreferenceToValue(RoutePreferenceFromValue(v)) == v <==> v != 2
  {
  }

  /** The bytes that hold a prefix of the given length in bits. */
  function PrefixBytes(prefixLength: nat): nat
  {
    (prefixLength + 7) / 8
  }

  /** The top `bits` bits of two prefixes agree. */
  predicate PrefixBitsMatch(p: seq<uint8>, q: seq<uint8>, bits: nat)
    requires |p| == |q| == PrefixBytes(bits)
  {
    p[..bits / 8] == q[..bits / 8]
    && (bits % 8 == 0 || p[bits / 8] as nat / Pow2(8 - bits % 8) == q[bits / 8] as nat / Pow2(8 - bits % 8))
  }

  function SubTlvSize(sub: SubTlv): nat
  {
    match sub
    case HasRoute(_, routes) => TlvHeaderSize + HasRouteEntrySize * |routes|
    case BorderRouter(_, routers) => TlvHeaderSize + BorderRouterEntrySize * |routers|
    case Context(_, _, _, _) => ContextTlvSize
    case Server(_, _, data) => TlvHeaderSize + 2 + |data|
    case OtherSubTlv(_, _, value) => TlvHeaderSize + |value|
  }

  function SubTlvsSize(subs: seq<SubTlv>): nat
  {
    if subs == [] then 0 else SubTlvSize(subs[0]) + SubTlvsSize(subs[1..])
  }

  /** ServiceTlv::CalculateSize without the sub-TLVs. */
  function ServiceHeaderSize(enterpriseNumber: uint32, serviceDataLength: nat): nat
  {
    TlvHeaderSize + 1 + (if enterpriseNumber == ThreadEnterpriseNumber then 0 else 4) + 1 + serviceDataLength
  }

  function TlvSize(tlv: Tlv): nat
  {
    match tlv
    case Prefix(_, _, _, prefix, subs) => TlvHeaderSize + 2 + |prefix| + SubTlvsSize(subs)
    case Service(_, _, enterprise, data, subs) => ServiceHeaderSize(enterprise, |data|) + SubTlvsSize(subs)
    case CommissioningData(_, data) => TlvHeaderSize + |data|
    case OtherTlv(_, _, value) => TlvHeaderSize + |value|
  }

  /** The encoded length of the Network Data: GetLength(). */
  function TlvsSize(tlvs: seq<Tlv>): nat
  {
    if tlvs == [] then 0 else TlvSize(tlvs[0]) + TlvsSize(tlvs[1..])
  }

  /** Prefix and Service TLVs carry sub-TLVs. */
  predicate HasSubTlvs(tlv: Tlv)
  {
    tlv.Prefix? || tlv.Service?
  }

  function WithSubTlvs(tlv: Tlv, subs: seq<SubTlv>): (r: Tlv)
    requires HasSubTlvs(tlv)
    ensures HasSubTlvs(r) && r.subTlvs == subs && r.stable == tlv.stable
  {
    tlv.(subTlvs := subs)
  }

  function WithStable(tlv: Tlv, stable: bool): Tlv
  {
    tlv.(stable := stable)
  }

  /** The size of a TLV changes exactly as the size of its sub-TLVs does. */
  lemma WithSubTlvsSize(tlv: Tlv, subs: seq<SubTlv>)
    requires HasSubTlvs(tlv)
    ensures TlvSize(WithSubTlvs(tlv, subs)) + SubTlvsSize(tlv.subTlvs) == TlvSize(tlv) + SubTlvsSize(subs)
  {
  }

  // ---------------------------------------------------------------------
  // Sizes of edited sequences
  // ---------------------------------------------------------------------

  lemma {:induction false} SubTlvsSizeConcat(a: seq<SubTlv>, b: seq<SubTlv>)
    ensures SubTlvsSize(a + b) == SubTlvsSize(a) + SubTlvsSize(b)
  {
    if a == [] {
      assert a + b == b;
    } else {
      assert (a + b)[0] == a[0] && (a + b)[1..] == a[1..] + b;
      SubTlvsSizeConcat(a[1..], b);
    }
  }

  lemma SubTlvsSizeAppend(subs: seq<SubTlv>, sub: SubTlv)
    ensures SubTlvsSize(subs + [sub]) == SubTlvsSize(subs) + SubTlvSize(sub)
  {
    SubTlvsSizeConcat(subs, [sub]);
  }

  lemma SubTlvsSizeSplit(subs: seq<SubTlv>, i: nat)
    requires i < |subs|
    ensures SubTlvsSize(subs) == SubTlvsSize(subs[..i]) + SubTlvSize(subs[i]) + SubTlvsSize(subs[i + 1..])
  {
    assert subs == subs[..i] + subs[i..];
    SubTlvsSizeConcat(subs[..i], subs[i..]);
    assert subs[i..][1..] == subs[i + 1..];
  }

  lemma SubTlvsSizeUpdate(subs: seq<SubTlv>, i: nat, sub: SubTlv)
    requires i < |subs|
    ensures SubTlvsSize(subs[i := sub]) + SubTlvSize(subs[i]) == SubTlvsSize(subs) + SubTlvSize(sub)
  {
    SubTlvsSizeSplit(subs, i);
    SubTlvsSizeSplit(subs[i := sub], i);
    assert subs[i := sub][..i] == subs[..i];
    assert subs[i := sub][i + 1..] == subs[i + 1..];
  }

  lemma SubTlvsSizeRemove(subs: seq<SubTlv>, i: nat)
    requires i < |subs|
    ensures SubTlvsSize(RemoveAt(subs, i)) + SubTlvSize(subs[i]) == SubTlvsSize(subs)
  {
    SubTlvsSizeSplit(subs, i);
    SubTlvsSizeConcat(subs[..i], subs[i + 1..]);
  }

  lemma {:induction false} TlvsSizeConcat(a: seq<Tlv>, b: seq<Tlv>)
    ensures TlvsSize(a + b) == TlvsSize(a) + TlvsSize(b)
  {
    if a == [] {
      assert a + b == b;
    } else {
      assert (a + b)[0] == a[0] && (a + b)[1..] == a[1..] + b;
      TlvsSizeConcat(a[1..], b);
    }
  }

  lemma TlvsSizeAppend(tlvs: seq<Tlv>, tlv: Tlv)
    ensures TlvsSize(tlvs + [tlv]) == TlvsSize(tlvs) + TlvSize(tlv)
  {
    TlvsSizeConcat(tlvs, [tlv]);
  }

  lemma TlvsSizeSplit(tlvs: seq<Tlv>, i: nat)
    requires i < |tlvs|
    ensures TlvsSize(tlvs) == TlvsSize(tlvs[..i]) + TlvSize(tlvs[i]) + TlvsSize(tlvs[i + 1..])
  {
    assert tlvs == tlvs[..i] + tlvs[i..];
    TlvsSizeConcat(tlvs[..i], tlvs[i..]);
    assert tlvs[i..][1..] == tlvs[i + 1..];
  }

  lemma TlvsSizeUpdate(tlvs: seq<Tlv>, i: nat, tlv: Tlv)
    requires i < |tlvs|
    ensures TlvsSize(tlvs[i := tlv]) + TlvSize(tlvs[i]) == TlvsSize(tlvs) + TlvSize(tlv)
  {
    TlvsSizeSplit(tlvs, i);
    TlvsSizeSplit(tlvs[i := tlv], i);
    assert tlvs[i := tlv][..i] == tlvs[..i];
    assert tlvs[i := tlv][i + 1..] == tlvs[i + 1..];
  }

  lemma TlvsSizeRemove(tlvs: seq<Tlv>, i: nat)
    requires i < |tlvs|
    ensures TlvsSize(RemoveAt(tlvs, i)) + TlvSize(tlvs[i]) == TlvsSize(tlvs)
  {
    TlvsSizeSplit(tlvs, i);
    TlvsSizeConcat(tlvs[..i], tlvs[i + 1..]);
  }

  // ---------------------------------------------------------------------
  // MutableNetworkData and the range constructor
  // ---------------------------------------------------------------------

  /** A Network Data over a caller's buffer: `length` bytes in use out of `size`. */
  class MutableNetworkData {
    const bytes: array<uint8>
    var length: uint8
    const size: uint8

    ghost predicate Valid()
      reads this
    {
      length <= size && size as int <= bytes.Length
    }

    constructor (buffer: array<uint8>, initialLength: uint8, bufferSize: uint8)
      requires initialLength <= bufferSize && bufferSize as int <= buffer.Length
      ensures Valid() && bytes == buffer && length == initialLength && size == bufferSize
    {
      bytes := buffer;
      length := initialLength;
      size := bufferSize;
    }

    /** CanInsert: the insertion fits in what is left of the buffer. */
    predicate CanInsert(insertSize: uint16)
      reads this
    {
      length as int + insertSize as int <= size as int
    }

    /** Clear: the length drops to zero; the buffer and its size stay. */
    method Clear()
      requires Valid()
      modifies this`length
      ensures Valid() && length == 0
      ensures CanInsert(size as uint16)
    {
      length := 0;
    }

    method SetLength(newLength: uint8)
      requires newLength <= size
      modifies this`length
      ensures length == newLength
    {
      length := newLength;
    }
  }

  /** A read-only Network Data: where its TLVs start in a buffer and its length. */
  datatype NetworkDataView = NetworkDataView(start: nat, length: uint8)

  /**
   * The constructor from a start and an end TLV in one buffer: the length is
   * the distance between them, cast to uint8.
   */
  function FromRange(start: nat, end: nat): (view: NetworkDataView)
    requires start <= end
    ensures view.start == start
    ensures end - start <= 0xFF ==> view.start + view.length == end
  {
    NetworkDataView(start, Wrap8(end - start))
  }

  // ---------------------------------------------------------------------
  // NetworkDataIterator
  // ---------------------------------------------------------------------

  const TlvPosition: nat := 0
  const SubTlvPosition: nat := 1
  const EntryPosition: nat := 2

  /** The next TLV's offset: past the two header bytes and the value. */
  function NextOffset(tlvs: seq<uint8>, offset: nat): nat
    requires offset + 1 < |tlvs|
  {
    offset + TlvHeaderSize + tlvs[offset + 1]
  }

  /**
   * NetworkDataIterator: the bytes of an otNetworkDataIterator read as a TLV
   * offset, a sub-TLV offset and an entry index.
   */
  class NetworkDataIterator {
    const buffer: array<uint8>

    constructor (storage: array<uint8>)
      requires storage.Length >= 3
      ensures buffer == storage
    {
      buffer := storage;
    }

    function TlvOffset(): uint8
      reads this, buffer
      requires buffer.Length >= 3
    {
      buffer[TlvPosition]
    }

    function SubTlvOffset(): uint8
      reads this, buffer
      requires buffer.Length >= 3
    {
      buffer[SubTlvPosition]
    }

    function EntryIndex(): uint8
      reads this, buffer
      requires buffer.Length >= 3
    {
      buffer[EntryPosition]
    }

    predicate IsNewEntry()
      reads this, buffer
      requires buffer.Length >= 3
    {
      EntryIndex() == 0
    }

    /** AdvanceTlv: move to the next TLV and restart its sub-TLVs and entries. */
    method AdvanceTlv(tlvs: seq<uint8>)
      requires buffer.Length >= 3 && buffer[TlvPosition] as int + 1 < |tlvs|
      modifies buffer
      ensures buffer[..] == old(buffer[..])[TlvPosition := Wrap8(NextOffset(tlvs, old(TlvOffset())))]
                                            [SubTlvPosition := 0][EntryPosition := 0]
      ensures SubTlvOffset() == 0 && IsNewEntry()
    {
      var next := NextOffset(tlvs, buffer[TlvPosition]);
      buffer[TlvPosition] := Wrap8(next);
      buffer[SubTlvPosition] := 0;
      buffer[EntryPosition] := 0;
    }

    /** AdvanceSubTlv: move to the next sub-TLV and restart its entries; the TLV offset stays. */
    method AdvanceSubTlv(subTlvs: seq<uint8>)
      requires buffer.Length >= 3 && buffer[SubTlvPosition] as int + 1 < |subTlvs|
      modifies buffer
      ensures buffer[..] == old(buffer[..])[SubTlvPosition := Wrap8(NextOffset(subTlvs, old(SubTlvOffset())))]
                                            [EntryPosition := 0]
      ensures TlvOffset() == old(TlvOffset()) && IsNewEntry()
    {
      var next := NextOffset(subTlvs, buffer[SubTlvPosition]);
      buffer[SubTlvPosition] := Wrap8(next);
      buffer[EntryPosition] := 0;
    }

    /** GetAndAdvanceIndex: the entry index before a uint8 post-increment. */
    method GetAndAdvanceIndex() returns (index: uint8)
      requires buffer.Length >= 3
      modifies buffer
      ensures index == old(EntryIndex())
      ensures buffer[..] == old(buffer[..])[EntryPosition := Wrap8(index + 1)]
    {
      index := buffer[EntryPosition];
      buffer[EntryPosition] := Wrap8(index + 1);
    }

    method MarkEntryAsNotNew()
      requires buffer.Length >= 3
      modifies buffer
      ensures buffer[..] == old(buffer[..])[EntryPosition := 1]
      ensures !IsNewEntry()
    {
      buffer[EntryPosition] := 1;
    }
  }
}
