/**
 * Neighbor Discovery options (Ip6::Nd in src/core/net/nd6.cpp): the option
 * iterator over a received message, the validity rules of the Prefix
 * Information and Route Information options, the option lengths the code
 * computes, the route-preference bits, and the transmit buffer that
 * options are appended to.
 *
 * Option layout follows section 4.6 of RFC 4861: a type byte and a length
 * byte counting units of eight octets. The Route Information option is
 * that of section 2.3 of RFC 4191, the Recursive DNS Server option that of
 * section 5.1 of RFC 8106.
 */
module Nd6 {
  import opened Common
  import NetworkData

  /** Option::kLengthUnit. */
  const LengthUnit: nat := 8
  /** sizeof(Option): the type and length bytes. */
  const OptionHeaderSize: nat := 2
  /** Prefix::kMaxLength. */
  const MaxPrefixLength: nat := 128

  /** DivideAndRoundUp. */
  function DivideAndRoundUp(x: nat, d: nat): (r: nat)
    requires d > 0
    ensures r * d >= x && (r == 0 || (r - 1) * d < x)
  {
    (x + d - 1) / d
  }

  /** ClampToUint8. */
  function ClampToUint8(x: nat): (r: uint8)
    ensures r == if x < 0x100 then x else 0xff
  {
    if x < 0x100 then x else 0xff
  }

  // ---------------------------------------------------------------------
  // Option::Iterator over the bytes of a message
  // ---------------------------------------------------------------------

  /** Option::GetSize: the length byte in units of eight octets. */
  function OptionSize(bytes: seq<uint8>, pos: nat): nat
    requires pos + OptionHeaderSize <= |bytes|
  {
    bytes[pos + 1] * LengthUnit
  }

  /**
   * Option::Iterator::Validate: the option at `pos` if its header fits
   * before `end`, its length is not zero (Option::IsValid) and its end is
   * not past `end`; otherwise null.
   */
  function Validate(bytes: seq<uint8>, pos: nat, end: nat): (r: Option<nat>)
    requires end <= |bytes|
    ensures r.Some? <==> pos + OptionHeaderSize <= end && bytes[pos + 1] != 0 && pos + OptionSize(bytes, pos) <= end
    ensures r.Some? ==> r.value == pos && OptionSize(bytes, pos) >= LengthUnit
  {
    if pos + OptionHeaderSize <= end && bytes[pos + 1] != 0 && pos + OptionSize(bytes, pos) <= end then Some(pos) else None
  }

  /** An iterator: the current option, or null at the end, and the end of the options. */
  datatype Iterator = Iterator(option: Option<nat>, end: nat)

  /** Option::Iterator(aStart, aEnd): validates the first option. */
  function Begin(bytes: seq<uint8>, start: nat, end: nat): Iterator
    requires end <= |bytes|
  {
    Iterator(Validate(bytes, start, end), end)
  }

  predicate Sound(bytes: seq<uint8>, it: Iterator)
  {
    it.end <= |bytes| && (it.option.Some? ==> it.option.value + OptionHeaderSize <= it.end)
  }

  /** Option::Iterator::Advance: validate the next option, or stay null. */
  function Advance(bytes: seq<uint8>, it: Iterator): (r: Iterator)
    requires Sound(bytes, it)
    ensures Sound(bytes, r) && r.end == it.end
  {
    if it.option.None? then it
    else Iterator(Validate(bytes, it.option.value + OptionSize(bytes, it.option.value), it.end), it.end)
  }

  /**
   * A valid option lies wholly before the end; the next one starts where it
   * ends, at least eight bytes on, so iteration ends; and a null iterator
   * stays null.
   */
  lemma AdvanceSteps(bytes: seq<uint8>, it: Iterator)
    requires Sound(bytes, it)
    ensures it.option.None? ==> Advance(bytes, it) == it
    ensures Advance(bytes, it).option.Some? ==>
              it.option.Some? &&
              Advance(bytes, it).option.value == it.option.value + OptionSize(bytes, it.option.value) &&
              Advance(bytes, it).option.value >= it.option.value + LengthUnit &&
              Advance(bytes, it).option.value + OptionSize(bytes, Advance(bytes, it).option.value) <= it.end
  {
  }

  /** The positions the iterator visits from `pos` to `end`, in order. */
  function Walk(bytes: seq<uint8>, pos: nat, end: nat): (r: seq<nat>)
    requires end <= |bytes|
    decreases end - pos
    ensures forall k | 0 <= k < |r| :: pos <= r[k] && r[k] + OptionHeaderSize <= end && r[k] + OptionSize(bytes, r[k]) <= end
  {
    match Validate(bytes, pos, end)
    case None => []
    case Some(p) => [p] + Walk(bytes, p + OptionSize(bytes, p), end)
  }

  /**
   * The options the iterator visits tile the bytes: the first starts at the
   * start, and each one starts where the previous one ends.
   */
  lemma {:induction false} WalkTiles(bytes: seq<uint8>, pos: nat, end: nat)
    requires end <= |bytes|
    decreases end - pos
    ensures var w := Walk(bytes, pos, end);
            (|w| > 0 ==> w[0] == pos) &&
            forall k | 0 < k < |w| :: w[k] == w[k - 1] + OptionSize(bytes, w[k - 1])
  {
    if Validate(bytes, pos, end).Some? {
      var next := pos + OptionSize(bytes, pos);
      WalkTiles(bytes, next, end);
      var rest := Walk(bytes, next, end);
      var w := Walk(bytes, pos, end);
      assert w == [pos] + rest;
      forall k | 0 < k < |w|
        ensures w[k] == w[k - 1] + OptionSize(bytes, w[k - 1])
      {
        assert w[k] == rest[k - 1];
        if k > 1 {
          assert w[k - 1] == rest[k - 2];
        }
      }
    }
  }

  // ---------------------------------------------------------------------
  // Route preference bits (section 2.2 and 2.3 of RFC 4191)
  // ---------------------------------------------------------------------

  /** kPreferenceMask is 0x18 and kPreferenceOffset 3: bits 3 and 4. */
  const PreferenceOffsetUnit: nat := 8

  /** `(bits & kPreferenceMask) >> kPreferenceOffset`. */
  function PreferenceField(bits: uint8): (v: nat)
    ensures v < 4
  {
    (bits / PreferenceOffsetUnit) % 4
  }

  /**
   * RouteInfoOption::SetPreference and
   * RouterAdvert::Header::SetDefaultRouterPreference: the preference bits
   * cleared and the two-bit encoding of the preference put in.
   */
  function WithPreference(bits: uint8, preference: int): (r: uint8)
  {
    bits - PreferenceField(bits) * PreferenceOffsetUnit + NetworkData.RoutePreferenceToValue(preference) * PreferenceOffsetUnit
  }

  /** RouteInfoOption::GetPreference and RouterAdvert::Header::GetDefaultRouterPreference. */
  function GetPreference(bits: uint8): int
  {
    NetworkData.RoutePreferenceFromValue(PreferenceField(bits))
  }

  /** A preference that is set is read back, and no other bit changes. */
  lemma PreferenceRoundTrip(bits: uint8, preference: int)
    requires -1 <= preference <= 1
    ensures GetPreference(WithPreference(bits, preference)) == preference
    ensures WithPreference(bits, preference) % 8 == bits % 8
    ensures WithPreference(bits, preference) / 32 == bits / 32
  {
    var v := NetworkData.RoutePreferenceToValue(preference);
    var high, low := bits / 32, bits % 8;
    assert bits == 32 * high + 8 * PreferenceField(bits) + low;
    var r := WithPreference(bits, preference);
    assert r == 32 * high + 8 * v + low;
    assert r / 8 == 4 * high + v;
    assert PreferenceField(r) == v;
    NetworkData.RoutePreferenceRoundTrip(preference);
  }

  /** NetworkData::IsRoutePreferenceValid: high, medium or low. */
  predicate IsRoutePreferenceValid(preference: int)
  {
    -1 <= preference <= 1
  }

  // ---------------------------------------------------------------------
  // Prefix Information and Route Information options
  // ---------------------------------------------------------------------

  /** An IPv6 prefix: its bytes and its length in bits. */
  datatype Prefix = Prefix(bytes: seq<uint8>, length: uint8)

  /** sizeof(PrefixInfoOption) (section 4.6.2 of RFC 4861). */
  const PrefixInfoOptionSize: nat := 32

  /** A Prefix Information option's fields that its validity reads. */
  datatype PrefixInfoOption = PrefixInfoOption(
    length: uint8,
    prefixLength: uint8,
    onLink: bool,
    autoAddrConfig: bool,
    validLifetime: uint32,
    preferredLifetime: uint32,
    prefix: seq<uint8>)

  /** PrefixInfoOption::IsValid. */
  predicate PrefixInfoValid(o: PrefixInfoOption)
  {
    o.length * LengthUnit >= PrefixInfoOptionSize && o.prefixLength <= MaxPrefixLength &&
    o.preferredLifetime <= o.validLifetime
  }

  /**
   * The option RouterAdvert::TxMessage::AppendPrefixInfoOption writes: the
   * fixed size, the on-link and autonomous flags, the lifetimes and the
   * prefix.
   */
  function PrefixInfoFor(prefix: Prefix, validLifetime: uint32, preferredLifetime: uint32): PrefixInfoOption
  {
    PrefixInfoOption(PrefixInfoOptionSize / LengthUnit as uint8, prefix.length, true, true,
                     validLifetime, preferredLifetime, prefix.bytes)
  }

  /** An appended Prefix Information option is valid exactly when its lifetimes are ordered. */
  lemma PrefixInfoForValid(prefix: Prefix, validLifetime: uint32, preferredLifetime: uint32)
    requires prefix.length <= MaxPrefixLength
    ensures PrefixInfoValid(PrefixInfoFor(prefix, validLifetime, preferredLifetime)) <==> preferredLifetime <= validLifetime
  {
  }

  /** RouteInfoOption::kMinSize: the option without its prefix. */
  const RouteInfoMinSize: nat := 8

  /** A Route Information option's fields. */
  datatype RouteInfoOption = RouteInfoOption(
    length: uint8,
    prefixLength: uint8,
    resvdPrf: uint8,
    routeLifetime: uint32,
    prefix: seq<uint8>)

  /**
   * RouteInfoOption::OptionLengthForPrefix: one unit for a zero-length
   * prefix, two for at most 64 bits, three otherwise.
   */
  function OptionLengthForPrefix(prefixLength: uint8): (length: uint8)
    ensures 1 <= length <= 3
  {
    if prefixLength == 0 then 1 else if prefixLength <= 64 then 2 else 3
  }

  /** The bytes a prefix of the given length occupies. */
  function PrefixBytes(prefixLength: nat): nat
  {
    (prefixLength + 7) / 8
  }

  /**
   * The computed length is the shortest that holds the prefix: its units
   * after the first hold the prefix bytes, and one unit fewer would not.
   */
  lemma OptionLengthFitsPrefix(prefixLength: uint8)
    requires prefixLength <= MaxPrefixLength
    ensures (OptionLengthForPrefix(prefixLength) - 1) * LengthUnit >= PrefixBytes(prefixLength)
    ensures OptionLengthForPrefix(prefixLength) > 1 ==> (OptionLengthForPrefix(prefixLength) - 2) * LengthUnit < PrefixBytes(prefixLength)
  {
  }

  /**
   * RouteInfoOption::IsValid as written: large enough, a prefix length of
   * at most 128 that its length accommodates, and a valid preference as
   * read through GetPreference.
   */
  predicate RouteInfoValid(o: RouteInfoOption)
  {
    o.length * LengthUnit >= RouteInfoMinSize && o.prefixLength <= MaxPrefixLength &&
    o.length >= OptionLengthForPrefix(o.prefixLength) && IsRoutePreferenceValid(GetPreference(o.resvdPrf))
  }

  /**
   * GetPreference reads the reserved value 10 as medium, so the preference
   * check of RouteInfoValid holds for every option.
   */
  lemma RouteInfoPreferenceCheckVacuous(o: RouteInfoOption)
    ensures IsRoutePreferenceValid(GetPreference(o.resvdPrf))
  {
  }

  /** A Route Information option with the reserved preference 10 passes as valid. */
  lemma ReservedPreferenceAccepted()
    ensures PreferenceField(0x10) == 2
    ensures RouteInfoValid(RouteInfoOption(2, 64, 0x10, 1800, seq(8, _ => 0)))
  {
  }

  /**
   * RouteInfoOption::IsValid as section 2.3 of RFC 4191 asks: an option whose
   * preference bits hold the reserved value is ignored.
   */
  predicate RouteInfoValidCorrected(o: RouteInfoOption)
  {
    o.length * LengthUnit >= RouteInfoMinSize && o.prefixLength <= MaxPrefixLength &&
    o.length >= OptionLengthForPrefix(o.prefixLength) && PreferenceField(o.resvdPrf) != 2
  }

  /**
   * The corrected rule rejects exactly the options with the reserved
   * preference, and every option it accepts reads back the preference its
   * bits encode.
   */
  lemma RouteInfoCorrectedRejectsReserved(o: RouteInfoOption)
    ensures RouteInfoValidCorrected(o) <==> RouteInfoValid(o) && PreferenceField(o.resvdPrf) != 2
    ensures RouteInfoValidCorrected(o) ==> NetworkData.RoutePreferenceToValue(GetPreference(o.resvdPrf)) == PreferenceField(o.resvdPrf)
  {
    NetworkData.RoutePreferenceValueRoundTrip(PreferenceField(o.resvdPrf));
  }

  /**
   * The option RouterAdvert::TxMessage::AppendRouteInfoOption writes: sized
   * for the prefix, the lifetime, the preference bits and the prefix bytes.
   */
  function RouteInfoFor(prefix: Prefix, routeLifetime: uint32, preference: int): RouteInfoOption
  {
    RouteInfoOption(OptionLengthForPrefix(prefix.length), prefix.length, WithPreference(0, preference),
                    routeLifetime, prefix.bytes)
  }

  /**
   * An appended Route Information option is valid under either rule, reads
   * back its preference, and its prefix bytes fit after its fixed part.
   */
  lemma RouteInfoForValid(prefix: Prefix, routeLifetime: uint32, preference: int)
    requires prefix.length <= MaxPrefixLength && IsRoutePreferenceValid(preference)
    ensures var o := RouteInfoFor(prefix, routeLifetime, preference);
            RouteInfoValid(o) && RouteInfoValidCorrected(o) && GetPreference(o.resvdPrf) == preference &&
            RouteInfoMinSize + PrefixBytes(prefix.length) <= o.length * LengthUnit
  {
    PreferenceRoundTrip(0, preference);
    OptionLengthFitsPrefix(prefix.length);
    NetworkData.RoutePreferenceRoundTrip(preference);
  }

  // ---------------------------------------------------------------------
  // Recursive DNS Server option (section 5.1 of RFC 8106)
  // ---------------------------------------------------------------------

  /** sizeof(RecursiveDnsServerOption): header, reserved bytes and lifetime. */
  const RdnssHeaderSize: nat := 8
  const AddressSize: nat := 16

  /**
   * RecursiveDnsServerOption::OptionLengthFor: the units for the header and
   * the addresses, computed in 16 bits, rounded up and clamped to eight
   * bits.
   */
  function RdnssOptionLengthFor(numAddresses: uint8): uint8
  {
    ClampToUint8(DivideAndRoundUp(Wrap16(RdnssHeaderSize + numAddresses * AddressSize), LengthUnit))
  }

  /**
   * Up to 127 addresses the option is one unit for the header and two per
   * address, exactly their size; from 127 on the length saturates at 255.
   */
  lemma RdnssOptionLength(numAddresses: uint8)
    ensures numAddresses <= 127 ==> RdnssOptionLengthFor(numAddresses) == 1 + 2 * numAddresses
    ensures numAddresses <= 127 ==> RdnssOptionLengthFor(numAddresses) * LengthUnit == RdnssHeaderSize + numAddresses * AddressSize
    ensures numAddresses >= 127 ==> RdnssOptionLengthFor(numAddresses) == 0xff
  {
    assert Wrap16(RdnssHeaderSize + numAddresses * AddressSize) == 8 + 16 * numAddresses;
    assert (8 + 16 * numAddresses + 7) / 8 == 1 + 2 * numAddresses;
  }

  // ---------------------------------------------------------------------
  // TxMessage: the buffer options are appended to
  // ---------------------------------------------------------------------

  /** `aLength` bytes from the source, or zeros for a null source. */
  function SourceBytes(source: Option<seq<uint8>>, length: nat): (r: seq<uint8>)
    requires source.Some? ==> |source.value| >= length
    ensures |r| == length
  {
    if source.None? then seq(length, _ => 0) else source.value[..length]
  }

  /** The first `n` bytes of `s`, or all of it when it is shorter. */
  function Prefixed(s: seq<uint8>, n: nat): (r: seq<uint8>)
    ensures |r| == if |s| <= n then |s| else n
  {
    if |s| <= n then s else s[..n]
  }

  /**
   * The bytes AppendLinkLayerOption writes: the type, the length in units
   * (Option::SetSize rounds the size up), the link-layer address and the
   * zero padding to the end of the option.
   */
  function LinkLayerOptionBytes(optionType: uint8, address: seq<uint8>): (r: seq<uint8>)
    requires |address| < 0x100
  {
    var units := LinkLayerUnits(|address|);
    [optionType, units] + (address + seq(units * LengthUnit - OptionHeaderSize - |address|, _ => 0))
  }

  /** Option::SetSize for the link-layer option: its size in units, rounded up. */
  function LinkLayerUnits(addressLength: nat): (units: uint8)
    requires addressLength < 0x100
    ensures OptionHeaderSize + addressLength <= units * LengthUnit < OptionHeaderSize + addressLength + LengthUnit
  {
    DivideAndRoundUp(OptionHeaderSize + addressLength, LengthUnit)
  }

  /**
   * The link-layer option ends on an eight-byte boundary, with fewer than
   * eight bytes of padding, and its length byte counts its units.
   */
  lemma LinkLayerOptionSize(optionType: uint8, address: seq<uint8>)
    requires |address| < 0x100
    ensures var r := LinkLayerOptionBytes(optionType, address);
            |r| % LengthUnit == 0 && OptionHeaderSize + |address| <= |r| < OptionHeaderSize + |address| + LengthUnit &&
            r[1] * LengthUnit == |r| && r[0] == optionType && r[OptionHeaderSize..OptionHeaderSize + |address|] == address
  {
    var units := DivideAndRoundUp(OptionHeaderSize + |address|, LengthUnit);
    assert units * 8 % 8 == 0;
  }

  /** An appended link-layer option is the option the iterator finds where it was put. */
  lemma LinkLayerOptionIterates(before: seq<uint8>, optionType: uint8, address: seq<uint8>)
    requires |address| < 0x100
    ensures var bytes := before + LinkLayerOptionBytes(optionType, address);
            Validate(bytes, |before|, |bytes|) == Some(|before|) &&
            |before| + OptionSize(bytes, |before|) == |bytes|
  {
    LinkLayerOptionSize(optionType, address);
    var bytes := before + LinkLayerOptionBytes(optionType, address);
    assert bytes[|before| + 1] == LinkLayerOptionBytes(optionType, address)[1];
  }

  /**
   * Ip6::Nd::TxMessage: a byte array (mArray) with a fixed capacity that options are
   * pushed into one byte at a time.
   */
  class TxMessage {
    const capacity: nat
    var buffer: seq<uint8>

    ghost predicate Valid()
      reads this
    {
      |buffer| <= capacity
    }

    constructor (capacity: nat)
      ensures Valid() && this.capacity == capacity && buffer == []
    {
      this.capacity := capacity;
      buffer := [];
    }

    /** Array::PushBack: fails with NoBufs when full. */
    method PushBack(byte: uint8) returns (error: Error)
      requires Valid()
      modifies this
      ensures Valid()
      ensures if |old(buffer)| < capacity then error == NoError && buffer == old(buffer) + [byte]
              else error == NoBufs && buffer == old(buffer)
    {
      if |buffer| == capacity {
        return NoBufs;
      }
      buffer := buffer + [byte];
      return NoError;
    }

    /**
     * TxMessage::AppendBytes: pushes the bytes, or zeros for a null source,
     * one at a time; when the buffer fills, NoBufs, with the bytes that fitted
     * left in place.
     */
    method AppendBytes(source: Option<seq<uint8>>, length: uint16) returns (error: Error)
      requires Valid() && (source.Some? ==> |source.value| >= length)
      modifies this
      ensures Valid()
      ensures buffer == old(buffer) + Prefixed(SourceBytes(source, length), capacity - |old(buffer)|)
      ensures error == NoError <==> |old(buffer)| + length <= capacity
      ensures error != NoError ==> error == NoBufs
    {
      ghost var bytes := SourceBytes(source, length);
      ghost var array0 := buffer;
      var i := 0;
      while i < length
        invariant 0 <= i <= length && Valid()
        invariant buffer == array0 + bytes[..i]
      {
        var byte := if source.None? then 0 else source.value[i];
        assert byte == bytes[i];
        error := PushBack(byte);
        if error != NoError {
          assert |array0| + i == capacity;
          assert bytes[..i] == Prefixed(bytes, capacity - |array0|);
          return;
        }
        assert bytes[..i + 1] == bytes[..i] + [byte];
        i := i + 1;
      }
      assert bytes[..i] == bytes;
      error := NoError;
    }

    /**
     * TxMessage::AppendOption: reserves `size` zero bytes and returns where
     * they start, or null when they do not fit.
     */
    method AppendOption(size: uint16) returns (option: Option<nat>)
      requires Valid()
      modifies this
      ensures Valid()
      ensures buffer == old(buffer) + Prefixed(seq(size, _ => 0), capacity - |old(buffer)|)
      ensures option.Some? <==> |old(buffer)| + size <= capacity
      ensures option.Some? ==> option.value == |old(buffer)|
    {
      var oldLength := |buffer|;
      var error := AppendBytes(None, size);
      if error != NoError {
        return None;
      }
      return Some(oldLength);
    }

    /**
     * TxMessage::AppendLinkLayerOption: the option header, the address and
     * zero padding to the eight-byte boundary, each byte pushed in turn;
     * NoBufs when the array fills, with what fitted left in place.
     */
    method AppendLinkLayerOption(address: seq<uint8>, optionType: uint8) returns (error: Error)
      requires Valid() && |address| < 0x100
      modifies this
      ensures Valid()
      ensures buffer == old(buffer) + Prefixed(LinkLayerOptionBytes(optionType, address), capacity - |old(buffer)|)
      ensures error == NoError <==> |old(buffer)| + |LinkLayerOptionBytes(optionType, address)| <= capacity
      ensures error != NoError ==> error == NoBufs
    {
      ghost var buffer0 := buffer;
      ghost var room := capacity - |buffer0|;
      var size := OptionHeaderSize + |address|;
      var units := LinkLayerUnits(|address|);
      var optionSize := units * LengthUnit;
      var header := [optionType, units];
      ghost var padding := seq(optionSize - size, _ => 0);
      ghost var full := LinkLayerOptionBytes(optionType, address);
      assert full == header + (address + padding);
      PrefixedConcat(header, address + padding, room);
      error := AppendBytes(Some(header), OptionHeaderSize as uint16);
      assert SourceBytes(Some(header), OptionHeaderSize) == header;
      if error != NoError {
        return;
      }
      PrefixedConcat(address, padding, room - 2);
      error := AppendBytes(Some(address), |address| as uint16);
      assert SourceBytes(Some(address), |address|) == address;
      if error != NoError {
        ConcatAssociates(buffer0, header, Prefixed(address, room - 2));
        return;
      }
      error := AppendPadding(size, optionSize);
      ConcatAssociates(buffer0, header, address);
      ConcatAssociates(buffer0 + header, address, Prefixed(padding, room - 2 - |address|));
      ConcatAssociates(buffer0, header, address + Prefixed(padding, room - 2 - |address|));
    }

    /**
     * The padding loop of AppendLinkLayerOption: one zero byte per step from
     * `size` up to the option's rounded size.
     */
    method AppendPadding(size: nat, optionSize: nat) returns (error: Error)
      requires Valid() && size <= optionSize
      modifies this
      ensures Valid()
      ensures buffer == old(buffer) + Prefixed(seq(optionSize - size, _ => 0), capacity - |old(buffer)|)
      ensures error == NoError <==> |old(buffer)| + optionSize - size <= capacity
      ensures error != NoError ==> error == NoBufs
    {
      ghost var buffer0 := buffer;
      ghost var padding: seq<uint8> := seq(optionSize - size, _ => 0);
      var next := size;
      while next < optionSize
        invariant size <= next <= optionSize && Valid()
        invariant buffer == buffer0 + padding[..next - size]
      {
        error := PushBack(0);
        if error != NoError {
          assert padding[..next - size] == Prefixed(padding, capacity - |buffer0|);
          return;
        }
        assert padding[..next + 1 - size] == padding[..next - size] + [0];
        next := next + 1;
      }
      assert padding[..next - size] == padding;
      error := NoError;
    }
  }

  /** Appending what fits of a + b is appending what fits of a, then what fits of b after it. */
  lemma PrefixedConcat(a: seq<uint8>, b: seq<uint8>, room: nat)
    ensures Prefixed(a + b, room) == if |a| <= room then a + Prefixed(b, room - |a|) else Prefixed(a, room)
  {
    if |a| <= room && |a + b| > room {
      assert (a + b)[..room] == a + b[..room - |a|];
    } else if |a| > room {
      assert (a + b)[..room] == a[..room];
    }
  }
}
