/**
 * The leader's check of Network Data that a device registers: a read-only
 * scan over the TLV bytes (Leader::Validate, ValidatePrefix and
 * ValidateService). Each scan is proved equal to a declarative condition
 * on the TLV sequence that the bytes split into.
 */
module NetworkDataValidation {
  import opened Common
  import opened NetworkData

  /** Network Data TLV and sub-TLV type codes. */
  const TypeHasRoute: nat := 0
  const TypePrefix: nat := 1
  const TypeBorderRouter: nat := 2
  const TypeService: nat := 5
  const TypeServer: nat := 6

  /** One TLV as it sits in the bytes: seven-bit type, stable bit and value. */
  datatype RawTlv = RawTlv(tlvType: nat, stable: bool, value: seq<uint8>)

  // ---------------------------------------------------------------------
  // Splitting bytes into TLVs
  // ---------------------------------------------------------------------

  /** The header and the value of the TLV at `cur` lie before `end`. */
  predicate FitsAt(bytes: seq<uint8>, cur: nat, end: nat)
    requires end <= |bytes|
  {
    cur + TlvHeaderSize <= end && cur + TlvHeaderSize + bytes[cur + 1] as nat <= end
  }

  /** GetNext: the offset just past the TLV at `cur`. */
  function NextAt(bytes: seq<uint8>, cur: nat): nat
    requires cur + 1 < |bytes|
  {
    cur + TlvHeaderSize + bytes[cur + 1] as nat
  }

  function TlvAt(bytes: seq<uint8>, cur: nat): RawTlv
    requires cur + 1 < |bytes| && NextAt(bytes, cur) <= |bytes|
  {
    RawTlv(bytes[cur] as nat / 2, bytes[cur] % 2 == 1, bytes[cur + TlvHeaderSize..NextAt(bytes, cur)])
  }

  function Prepend(first: seq<RawTlv>, rest: Option<seq<RawTlv>>): Option<seq<RawTlv>>
  {
    if rest.None? then None else Some(first + rest.value)
  }

  /**
   * The TLVs of the Network Data that runs from `cur` to `end` in a buffer,
   * or None when one of them overruns `end`.
   */
  function SplitRange(bytes: seq<uint8>, cur: nat, end: nat): Option<seq<RawTlv>>
    requires cur <= end <= |bytes|
    decreases end - cur
  {
    if cur == end then Some([])
    else if !FitsAt(bytes, cur, end) then None
    else Prepend([TlvAt(bytes, cur)], SplitRange(bytes, NextAt(bytes, cur), end))
  }

  /** The TLVs the bytes hold, or None when one overruns the end. */
  function SplitTlvs(bytes: seq<uint8>): Option<seq<RawTlv>>
  {
    SplitRange(bytes, 0, |bytes|)
  }

  /** A TLV that a header can describe. */
  predicate Encodable(raw: RawTlv)
  {
    raw.tlvType < 128 && |raw.value| <= 0xFF
  }

  /** The header and value of a TLV; the header fields are cut to their widths. */
  function EncodeTlv(raw: RawTlv): (bytes: seq<uint8>)
    ensures |bytes| == TlvHeaderSize + |raw.value|
  {
    [Wrap8(raw.tlvType * 2 + if raw.stable then 1 else 0), Wrap8(|raw.value|)] + raw.value
  }

  function EncodeTlvs(raws: seq<RawTlv>): seq<uint8>
  {
    if raws == [] then [] else EncodeTlv(raws[0]) + EncodeTlvs(raws[1..])
  }

  lemma PrependPrepend(x: seq<RawTlv>, y: seq<RawTlv>, r: Option<seq<RawTlv>>)
    ensures Prepend(x, Prepend(y, r)) == Prepend(x + y, r)
    ensures Prepend([], r) == r
  {
    if r.Some? {
      assert x + (y + r.value) == (x + y) + r.value;
      assert [] + r.value == r.value;
    }
  }

  lemma HeaderByteRoundTrip(tlvType: nat, stable: bool, b: uint8)
    ensures tlvType < 128 ==>
              Wrap8(tlvType * 2 + if stable then 1 else 0) as nat / 2 == tlvType
              && (Wrap8(tlvType * 2 + if stable then 1 else 0) % 2 == 1) == stable
    ensures Wrap8(b as nat / 2 * 2 + if b % 2 == 1 then 1 else 0) == b
  {
  }

  /** The encoding of one TLV, wherever it sits in a buffer, reads back as that TLV. */
  lemma EncodedTlvAt(bytes: seq<uint8>, cur: nat, raw: RawTlv)
    requires Encodable(raw)
    requires cur + |EncodeTlv(raw)| <= |bytes| && bytes[cur..cur + |EncodeTlv(raw)|] == EncodeTlv(raw)
    ensures cur + 1 < |bytes| && NextAt(bytes, cur) == cur + |EncodeTlv(raw)| && TlvAt(bytes, cur) == raw
  {
    var head := EncodeTlv(raw);
    assert bytes[cur] == head[0] && bytes[cur + 1] == head[1];
    HeaderByteRoundTrip(raw.tlvType, raw.stable, 0);
    assert bytes[cur + TlvHeaderSize..cur + |head|] == head[TlvHeaderSize..] == raw.value;
  }

  /** Splitting the encoding of TLVs, wherever it sits in a buffer, gives those TLVs back. */
  lemma {:induction false} SplitEncodeAt(bytes: seq<uint8>, cur: nat, raws: seq<RawTlv>, end: nat)
    requires forall raw | raw in raws :: Encodable(raw)
    requires cur <= end <= |bytes| && bytes[cur..end] == EncodeTlvs(raws)
    ensures SplitRange(bytes, cur, end) == Some(raws)
    decreases |raws|
  {
    if raws != [] {
      var head, tail := EncodeTlv(raws[0]), EncodeTlvs(raws[1..]);
      var next := cur + |head|;
      assert EncodeTlvs(raws) == head + tail;
      SliceSplit(bytes, cur, next, end, head, tail);
      assert raws[0] in raws;
      EncodedTlvAt(bytes, cur, raws[0]);
      SplitEncodeAt(bytes, next, raws[1..], end);
      SplitRangeStep(bytes, cur, end, next, raws[0], Some(raws[1..]));
      assert [raws[0]] + raws[1..] == raws;
    } else {
      assert |bytes[cur..end]| == 0;
    }
  }

  lemma SliceSplit<T>(s: seq<T>, lo: nat, mid: nat, hi: nat, a: seq<T>, b: seq<T>)
    requires lo <= hi <= |s| && s[lo..hi] == a + b && mid == lo + |a|
    ensures mid <= hi && s[lo..mid] == a && s[mid..hi] == b
  {
    assert s[lo..mid] == s[lo..hi][..|a|];
    assert s[mid..hi] == s[lo..hi][|a|..];
  }

  lemma SplitRangeStep(bytes: seq<uint8>, cur: nat, end: nat, next: nat, tlv: RawTlv, rest: Option<seq<RawTlv>>)
    requires cur < end <= |bytes| && cur + 1 < |bytes| && FitsAt(bytes, cur, end)
    requires NextAt(bytes, cur) == next && TlvAt(bytes, cur) == tlv && SplitRange(bytes, next, end) == rest
    ensures SplitRange(bytes, cur, end) == Prepend([tlv], rest)
  {
  }

  /** Splitting the encoding of TLVs gives those TLVs back. */
  lemma SplitEncodeTlvs(raws: seq<RawTlv>)
    requires forall raw | raw in raws :: Encodable(raw)
    ensures SplitTlvs(EncodeTlvs(raws)) == Some(raws)
  {
    var encoded := EncodeTlvs(raws);
    assert encoded[0..|encoded|] == encoded;
    SplitEncodeAt(encoded, 0, raws, |encoded|);
  }

  /** A range that splits into TLVs is exactly their encoding. */
  lemma {:induction false} EncodeSplitAt(bytes: seq<uint8>, cur: nat, end: nat)
    requires cur <= end <= |bytes| && SplitRange(bytes, cur, end).Some?
    ensures EncodeTlvs(SplitRange(bytes, cur, end).value) == bytes[cur..end]
    decreases end - cur
  {
    if cur < end {
      var raws := SplitRange(bytes, cur, end).value;
      var next := NextAt(bytes, cur);
      EncodeSplitAt(bytes, next, end);
      assert raws[0] == TlvAt(bytes, cur) && raws[1..] == SplitRange(bytes, next, end).value;
      HeaderByteRoundTrip(0, false, bytes[cur]);
      var head := EncodeTlv(raws[0]);
      assert head[0] == bytes[cur] && head[1] == bytes[cur + 1];
      assert head == bytes[cur..next];
      assert bytes[cur..end] == bytes[cur..next] + bytes[next..end];
    }
  }

  /** Bytes that split into TLVs are exactly the encoding of those TLVs. */
  lemma EncodeSplitTlvs(bytes: seq<uint8>)
    requires SplitTlvs(bytes).Some?
    ensures EncodeTlvs(SplitTlvs(bytes).value) == bytes
  {
    EncodeSplitAt(bytes, 0, |bytes|);
    assert bytes[0..|bytes|] == bytes;
  }

  /** Splitting up to `c` splits up to `b` and then from `b` on. */
  lemma {:induction false} SplitRangeConcat(bytes: seq<uint8>, a: nat, b: nat, c: nat)
    requires a <= b <= c <= |bytes| && SplitRange(bytes, a, b).Some?
    ensures SplitRange(bytes, a, c) == Prepend(SplitRange(bytes, a, b).value, SplitRange(bytes, b, c))
    decreases b - a
  {
    if a == b {
      PrependPrepend([], [], SplitRange(bytes, b, c));
    } else {
      var next := NextAt(bytes, a);
      assert FitsAt(bytes, a, c);
      SplitRangeConcat(bytes, next, b, c);
      PrependPrepend([TlvAt(bytes, a)], SplitRange(bytes, next, b).value, SplitRange(bytes, b, c));
    }
  }

  /**
   * One step of a scan at offset `cur`: either the TLV there overruns the
   * end and the bytes do not split, or it is the next TLV of the split.
   */
  lemma SplitStep(bytes: seq<uint8>, cur: nat, seen: seq<RawTlv>)
    requires cur < |bytes| && SplitRange(bytes, 0, cur) == Some(seen)
    ensures !FitsAt(bytes, cur, |bytes|) ==> SplitTlvs(bytes).None?
    ensures FitsAt(bytes, cur, |bytes|) ==>
              SplitRange(bytes, 0, NextAt(bytes, cur)) == Some(seen + [TlvAt(bytes, cur)])
    ensures FitsAt(bytes, cur, |bytes|) && SplitTlvs(bytes).Some? ==>
              |SplitTlvs(bytes).value| > |seen| && SplitTlvs(bytes).value[..|seen|] == seen
              && SplitTlvs(bytes).value[|seen|] == TlvAt(bytes, cur)
  {
    SplitRangeConcat(bytes, 0, cur, |bytes|);
    if FitsAt(bytes, cur, |bytes|) {
      var next := NextAt(bytes, cur);
      assert FitsAt(bytes, cur, next) && SplitRange(bytes, next, next) == Some([]);
      assert SplitRange(bytes, cur, next) == Prepend([TlvAt(bytes, cur)], SplitRange(bytes, next, next));
      assert [TlvAt(bytes, cur)] + [] == [TlvAt(bytes, cur)];
      SplitRangeConcat(bytes, 0, cur, next);
      var r := SplitRange(bytes, cur, |bytes|);
      assert r == Prepend([TlvAt(bytes, cur)], SplitRange(bytes, next, |bytes|));
      if r.Some? {
        var all := seen + r.value;
        assert all[..|seen|] == seen;
        assert all[|seen|] == r.value[0];
      }
    }
  }

  // ---------------------------------------------------------------------
  // Prefix and Service TLV values
  // ---------------------------------------------------------------------

  /** PrefixTlv::IsValid: domain ID, prefix length (at most 128) and the prefix bytes fit. */
  predicate PrefixValueIsValid(value: seq<uint8>)
  {
    |value| >= 2 && value[1] <= 128 && |value| >= 2 + PrefixBytes(value[1] as nat)
  }

  function PrefixOf(value: seq<uint8>): seq<uint8>
    requires PrefixValueIsValid(value)
  {
    value[2..2 + PrefixBytes(value[1] as nat)]
  }

  function PrefixSubTlvArea(value: seq<uint8>): seq<uint8>
    requires PrefixValueIsValid(value)
  {
    value[2 + PrefixBytes(value[1] as nat)..]
  }

  /** PrefixTlv::IsEqual: the same prefix length and the same prefix bits. */
  predicate SamePrefix(a: seq<uint8>, b: seq<uint8>)
    requires PrefixValueIsValid(a) && PrefixValueIsValid(b)
  {
    a[1] == b[1] && PrefixBitsMatch(PrefixOf(a), PrefixOf(b), a[1] as nat)
  }

  /** The T flag: a Thread enterprise number that is not written out. */
  predicate ThreadEnterpriseFlag(value: seq<uint8>)
    requires |value| >= 1
  {
    value[0] >= 0x80
  }

  function ServiceDataLengthPosition(value: seq<uint8>): nat
    requires |value| >= 1
  {
    if ThreadEnterpriseFlag(value) then 1 else 5
  }

  /** ServiceTlv::IsValid: the flags, the enterprise number and the service data fit. */
  predicate ServiceValueIsValid(value: seq<uint8>)
  {
    |value| >= 1 && |value| > ServiceDataLengthPosition(value)
    && |value| >= ServiceDataLengthPosition(value) + 1 + value[ServiceDataLengthPosition(value)] as nat
  }

  function EnterpriseNumberOf(value: seq<uint8>): uint32
    requires ServiceValueIsValid(value)
  {
    if ThreadEnterpriseFlag(value) then ThreadEnterpriseNumber
    else ((value[1] as nat * 0x100 + value[2] as nat) * 0x100 + value[3] as nat) * 0x100 + value[4] as nat
  }

  function ServiceDataOf(value: seq<uint8>): seq<uint8>
    requires ServiceValueIsValid(value)
  {
    var at := ServiceDataLengthPosition(value) + 1;
    value[at..at + value[at - 1] as nat]
  }

  function ServiceSubTlvArea(value: seq<uint8>): seq<uint8>
    requires ServiceValueIsValid(value)
  {
    var at := ServiceDataLengthPosition(value) + 1;
    value[at + value[at - 1] as nat..]
  }

  // ---------------------------------------------------------------------
  // What a valid registration is
  // ---------------------------------------------------------------------

  predicate IsRouteSubTlv(sub: RawTlv)
  {
    sub.tlvType == TypeHasRoute || sub.tlvType == TypeBorderRouter
  }

  function EntrySizeOf(sub: RawTlv): nat
  {
    if sub.tlvType == TypeHasRoute then HasRouteEntrySize else BorderRouterEntrySize
  }

  /** A big-endian RLOC16 at the start of a value. */
  function Rloc16At(value: seq<uint8>): nat
    requires |value| >= 2
  {
    value[0] as nat * 0x100 + value[1] as nat
  }

  /** A Has Route or Border Router sub-TLV whose one entry is the registering device's. */
  predicate SingleEntryOf(sub: RawTlv, rloc16: uint16)
  {
    |sub.value| == EntrySizeOf(sub) && Rloc16At(sub.value) == rloc16 as nat
  }

  /**
   * Every Has Route and Border Router sub-TLV has a single entry for
   * `rloc16`, and no two of them share both type and stable flag.
   */
  predicate RouteSubTlvsUnique(subs: seq<RawTlv>, rloc16: uint16)
  {
    (forall i | 0 <= i < |subs| && IsRouteSubTlv(subs[i]) :: SingleEntryOf(subs[i], rloc16))
    && (forall i, j | 0 <= i < j < |subs| && IsRouteSubTlv(subs[i]) ::
          !(subs[j].tlvType == subs[i].tlvType && subs[j].stable == subs[i].stable))
  }

  /** The sub-TLVs of a registered Prefix TLV: as above, and at least one Has Route or Border Router. */
  predicate PrefixSubTlvsValid(subs: seq<RawTlv>, rloc16: uint16)
  {
    RouteSubTlvsUnique(subs, rloc16) && exists i | 0 <= i < |subs| :: IsRouteSubTlv(subs[i])
  }

  /** ServerTlv::IsValid and the server is the registering device. */
  predicate ServerFor(sub: RawTlv, rloc16: uint16)
  {
    |sub.value| >= 2 && Rloc16At(sub.value) == rloc16 as nat
  }

  /** Every Server sub-TLV is for `rloc16`, and there is at most one. */
  predicate ServerSubTlvsUnique(subs: seq<RawTlv>, rloc16: uint16)
  {
    (forall i, j | 0 <= i < j < |subs| && subs[i].tlvType == TypeServer :: subs[j].tlvType != TypeServer)
    && (forall i | 0 <= i < |subs| && subs[i].tlvType == TypeServer :: ServerFor(subs[i], rloc16))
  }

  /** The sub-TLVs of a registered Service TLV: exactly one Server sub-TLV, and it is for `rloc16`. */
  predicate ServiceSubTlvsValid(subs: seq<RawTlv>, rloc16: uint16)
  {
    ServerSubTlvsUnique(subs, rloc16) && exists i | 0 <= i < |subs| :: subs[i].tlvType == TypeServer
  }

  predicate HasPrefix(earlier: seq<RawTlv>, value: seq<uint8>)
    requires PrefixValueIsValid(value)
  {
    exists k | 0 <= k < |earlier| ::
      earlier[k].tlvType == TypePrefix && PrefixValueIsValid(earlier[k].value) && SamePrefix(earlier[k].value, value)
  }

  predicate HasService(earlier: seq<RawTlv>, value: seq<uint8>)
    requires ServiceValueIsValid(value)
  {
    exists k | 0 <= k < |earlier| ::
      earlier[k].tlvType == TypeService && ServiceValueIsValid(earlier[k].value)
      && EnterpriseNumberOf(earlier[k].value) == EnterpriseNumberOf(value)
      && ServiceDataOf(earlier[k].value) == ServiceDataOf(value)
  }

  predicate PrefixSubTlvsOk(value: seq<uint8>, rloc16: uint16)
    requires PrefixValueIsValid(value)
  {
    var subs := SplitTlvs(PrefixSubTlvArea(value));
    subs.Some? && PrefixSubTlvsValid(subs.value, rloc16)
  }

  predicate ServiceSubTlvsOk(value: seq<uint8>, rloc16: uint16)
    requires ServiceValueIsValid(value)
  {
    var subs := SplitTlvs(ServiceSubTlvArea(value));
    subs.Some? && ServiceSubTlvsValid(subs.value, rloc16)
  }

  /** One TLV of a registration, given the TLVs before it. */
  predicate TlvValid(earlier: seq<RawTlv>, raw: RawTlv, rloc16: uint16)
  {
    if raw.tlvType == TypePrefix then
      PrefixValueIsValid(raw.value) && !HasPrefix(earlier, raw.value) && PrefixSubTlvsOk(raw.value, rloc16)
    else if raw.tlvType == TypeService then
      ServiceValueIsValid(raw.value) && !HasService(earlier, raw.value) && ServiceSubTlvsOk(raw.value, rloc16)
    else true
  }

  predicate AllTlvsValid(raws: seq<RawTlv>, rloc16: uint16)
  {
    forall i | 0 <= i < |raws| :: TlvValid(raws[..i], raws[i], rloc16)
  }

  /** A registration the leader accepts from `rloc16`. */
  predicate WellFormed(bytes: seq<uint8>, rloc16: uint16)
  {
    SplitTlvs(bytes).Some? && AllTlvsValid(SplitTlvs(bytes).value, rloc16)
  }

  // ---------------------------------------------------------------------
  // The scans
  // ---------------------------------------------------------------------

  /** NetworkData::FindPrefix over the TLVs from the start of the buffer to `end`. */
  function FindPrefix(bytes: seq<uint8>, end: nat, value: seq<uint8>): bool
    requires end <= |bytes| && PrefixValueIsValid(value)
  {
    match SplitRange(bytes, 0, end)
    case None => false
    case Some(raws) => HasPrefix(raws, value)
  }

  /** NetworkData::FindService with an exact match over the TLVs from the start of the buffer to `end`. */
  function FindService(bytes: seq<uint8>, end: nat, value: seq<uint8>): bool
    requires end <= |bytes| && ServiceValueIsValid(value)
  {
    match SplitRange(bytes, 0, end)
    case None => false
    case Some(raws) => HasService(raws, value)
  }

  /** Some sub-TLV seen so far has this type and stable flag. */
  predicate Found(seen: seq<RawTlv>, tlvType: nat, stable: bool)
  {
    exists k | 0 <= k < |seen| :: seen[k].tlvType == tlvType && seen[k].stable == stable
  }

  lemma FoundAppend(seen: seq<RawTlv>, sub: RawTlv, tlvType: nat, stable: bool)
    ensures Found(seen + [sub], tlvType, stable)
            == (Found(seen, tlvType, stable) || (sub.tlvType == tlvType && sub.stable == stable))
  {
    var s := seen + [sub];
    assert s[|seen|] == sub;
    if Found(seen, tlvType, stable) {
      var k :| 0 <= k < |seen| && seen[k].tlvType == tlvType && seen[k].stable == stable;
      assert s[k] == seen[k];
    }
  }

  /** A repeated or badly filled Has Route or Border Router sub-TLV spoils every continuation. */
  lemma RouteSubTlvsUniqueBroken(subs: seq<RawTlv>, seen: seq<RawTlv>, sub: RawTlv, rloc16: uint16)
    requires |seen| < |subs| && subs[..|seen|] == seen && subs[|seen|] == sub && IsRouteSubTlv(sub)
    requires Found(seen, sub.tlvType, sub.stable) || !SingleEntryOf(sub, rloc16)
    ensures !RouteSubTlvsUnique(subs, rloc16)
  {
    if Found(seen, sub.tlvType, sub.stable) {
      var k :| 0 <= k < |seen| && seen[k].tlvType == sub.tlvType && seen[k].stable == sub.stable;
      assert subs[k] == seen[k];
    }
  }

  lemma RouteSubTlvsUniqueAppend(seen: seq<RawTlv>, sub: RawTlv, rloc16: uint16)
    requires RouteSubTlvsUnique(seen, rloc16)
    requires IsRouteSubTlv(sub) ==> SingleEntryOf(sub, rloc16) && !Found(seen, sub.tlvType, sub.stable)
    ensures RouteSubTlvsUnique(seen + [sub], rloc16)
    ensures forall t, st | t in {TypeHasRoute, TypeBorderRouter} && st in {false, true} ::
              Found(seen + [sub], t, st) == (Found(seen, t, st) || (sub.tlvType == t && sub.stable == st))
  {
    FoundAppend(seen, sub, TypeHasRoute, false);
    FoundAppend(seen, sub, TypeHasRoute, true);
    FoundAppend(seen, sub, TypeBorderRouter, false);
    FoundAppend(seen, sub, TypeBorderRouter, true);
    var s := seen + [sub];
    forall i, j | 0 <= i < j < |s| && IsRouteSubTlv(s[i])
      ensures !(s[j].tlvType == s[i].tlvType && s[j].stable == s[i].stable)
    {
      if j == |seen| {
        assert s[i] == seen[i];
      } else {
        assert s[i] == seen[i] && s[j] == seen[j];
      }
    }
  }

  lemma AnyRouteSubTlvFound(seen: seq<RawTlv>)
    ensures (exists i | 0 <= i < |seen| :: IsRouteSubTlv(seen[i]))
            == (Found(seen, TypeHasRoute, false) || Found(seen, TypeHasRoute, true)
                || Found(seen, TypeBorderRouter, false) || Found(seen, TypeBorderRouter, true))
  {
    if exists i | 0 <= i < |seen| :: IsRouteSubTlv(seen[i]) {
      var i :| 0 <= i < |seen| && IsRouteSubTlv(seen[i]);
      assert Found(seen, seen[i].tlvType, seen[i].stable);
    }
  }

  predicate HasServer(seen: seq<RawTlv>)
  {
    exists k | 0 <= k < |seen| :: seen[k].tlvType == TypeServer
  }

  /** A second Server sub-TLV, or one for another device, spoils every continuation. */
  lemma ServerSubTlvsUniqueBroken(subs: seq<RawTlv>, seen: seq<RawTlv>, sub: RawTlv, rloc16: uint16)
    requires |seen| < |subs| && subs[..|seen|] == seen && subs[|seen|] == sub && sub.tlvType == TypeServer
    requires HasServer(seen) || !ServerFor(sub, rloc16)
    ensures !ServerSubTlvsUnique(subs, rloc16)
  {
    if HasServer(seen) {
      var k :| 0 <= k < |seen| && seen[k].tlvType == TypeServer;
      assert subs[k] == seen[k];
    }
  }

  lemma ServerSubTlvsUniqueAppend(seen: seq<RawTlv>, sub: RawTlv, rloc16: uint16)
    requires ServerSubTlvsUnique(seen, rloc16)
    requires sub.tlvType == TypeServer ==> ServerFor(sub, rloc16) && !HasServer(seen)
    ensures ServerSubTlvsUnique(seen + [sub], rloc16)
    ensures HasServer(seen + [sub]) == (HasServer(seen) || sub.tlvType == TypeServer)
  {
    var s := seen + [sub];
    assert s[|seen|] == sub;
    assert forall k | 0 <= k < |seen| :: s[k] == seen[k];
  }

  /** Leader::ValidatePrefix over the sub-TLV bytes of a valid Prefix TLV. */
  method ValidatePrefix(value: seq<uint8>, rloc16: uint16) returns (error: Error)
    requires PrefixValueIsValid(value)
    ensures error == NoError || error == Parse
    ensures error == NoError <==> PrefixSubTlvsOk(value, rloc16)
  {
    var area := PrefixSubTlvArea(value);
    var foundTempHasRoute, foundStableHasRoute := false, false;
    var foundTempBorderRouter, foundStableBorderRouter := false, false;
    ghost var seen: seq<RawTlv> := [];
    var cur := 0;
    while cur < |area|
      invariant cur <= |area| && SplitRange(area, 0, cur) == Some(seen)
      invariant RouteSubTlvsUnique(seen, rloc16)
      invariant foundTempHasRoute == Found(seen, TypeHasRoute, false)
      invariant foundStableHasRoute == Found(seen, TypeHasRoute, true)
      invariant foundTempBorderRouter == Found(seen, TypeBorderRouter, false)
      invariant foundStableBorderRouter == Found(seen, TypeBorderRouter, true)
    {
      SplitStep(area, cur, seen);
      if !FitsAt(area, cur, |area|) {
        return Parse;
      }
      var sub := TlvAt(area, cur);
      var next := NextAt(area, cur);
      ghost var whole := SplitTlvs(area);
      if sub.tlvType == TypeBorderRouter || sub.tlvType == TypeHasRoute {
        var already := if sub.tlvType == TypeBorderRouter then
                         (if sub.stable then foundStableBorderRouter else foundTempBorderRouter)
                       else (if sub.stable then foundStableHasRoute else foundTempHasRoute);
        if already {
          if whole.Some? {
            RouteSubTlvsUniqueBroken(whole.value, seen, sub, rloc16);
          }
          return Parse;
        }
        if sub.tlvType == TypeBorderRouter {
          if sub.stable { foundStableBorderRouter := true; } else { foundTempBorderRouter := true; }
        } else {
          if sub.stable { foundStableHasRoute := true; } else { foundTempHasRoute := true; }
        }
        if !(|sub.value| == EntrySizeOf(sub) && Rloc16At(sub.value) == rloc16 as nat) {
          if whole.Some? {
            RouteSubTlvsUniqueBroken(whole.value, seen, sub, rloc16);
          }
          return Parse;
        }
      }
      RouteSubTlvsUniqueAppend(seen, sub, rloc16);
      seen := seen + [sub];
      cur := next;
    }
    AnyRouteSubTlvFound(seen);
    if foundStableBorderRouter || foundTempBorderRouter || foundStableHasRoute || foundTempHasRoute {
      error := NoError;
    } else {
      error := Parse;
    }
  }

  /** Leader::ValidateService over the sub-TLV bytes of a valid Service TLV. */
  method ValidateService(value: seq<uint8>, rloc16: uint16) returns (error: Error)
    requires ServiceValueIsValid(value)
    ensures error == NoError || error == Parse
    ensures error == NoError <==> ServiceSubTlvsOk(value, rloc16)
  {
    var area := ServiceSubTlvArea(value);
    var foundServer := false;
    ghost var seen: seq<RawTlv> := [];
    var cur := 0;
    while cur < |area|
      invariant cur <= |area| && SplitRange(area, 0, cur) == Some(seen)
      invariant ServerSubTlvsUnique(seen, rloc16)
      invariant foundServer == HasServer(seen)
    {
      SplitStep(area, cur, seen);
      if !FitsAt(area, cur, |area|) {
        return Parse;
      }
      var sub := TlvAt(area, cur);
      var next := NextAt(area, cur);
      ghost var whole := SplitTlvs(area);
      if sub.tlvType == TypeServer {
        if foundServer {
          if whole.Some? {
            ServerSubTlvsUniqueBroken(whole.value, seen, sub, rloc16);
          }
          return Parse;
        }
        foundServer := true;
        if !(|sub.value| >= 2 && Rloc16At(sub.value) == rloc16 as nat) {
          if whole.Some? {
            ServerSubTlvsUniqueBroken(whole.value, seen, sub, rloc16);
          }
          return Parse;
        }
      }
      ServerSubTlvsUniqueAppend(seen, sub, rloc16);
      seen := seen + [sub];
      cur := next;
    }
    error := if foundServer then NoError else Parse;
  }

  /**
   * Leader::Validate: the bytes are accepted from `rloc16` exactly when they
   * split into TLVs, no Prefix or Service TLV repeats an earlier one, and
   * each one's sub-TLVs are the device's own.
   */
  method Validate(bytes: seq<uint8>, rloc16: uint16) returns (error: Error)
    ensures error == NoError || error == Parse
    ensures error == NoError <==> WellFormed(bytes, rloc16)
  {
    ghost var seen: seq<RawTlv> := [];
    var cur := 0;
    while cur < |bytes|
      invariant cur <= |bytes| && SplitRange(bytes, 0, cur) == Some(seen)
      invariant AllTlvsValid(seen, rloc16)
    {
      SplitStep(bytes, cur, seen);
      if !FitsAt(bytes, cur, |bytes|) {
        return Parse;
      }
      var tlv := TlvAt(bytes, cur);
      var next := NextAt(bytes, cur);
      if tlv.tlvType == TypePrefix {
        if !PrefixValueIsValid(tlv.value) || FindPrefix(bytes, cur, tlv.value) {
          InvalidTlvSpoils(bytes, seen, tlv, rloc16);
          return Parse;
        }
        error := ValidatePrefix(tlv.value, rloc16);
        if error != NoError {
          InvalidTlvSpoils(bytes, seen, tlv, rloc16);
          return;
        }
      } else if tlv.tlvType == TypeService {
        if !ServiceValueIsValid(tlv.value) || FindService(bytes, cur, tlv.value) {
          InvalidTlvSpoils(bytes, seen, tlv, rloc16);
          return Parse;
        }
        error := ValidateService(tlv.value, rloc16);
        if error != NoError {
          InvalidTlvSpoils(bytes, seen, tlv, rloc16);
          return;
        }
      }
      AllTlvsValidAppend(seen, tlv, rloc16);
      seen := seen + [tlv];
      cur := next;
    }
    error := NoError;
  }

  lemma InvalidTlvSpoils(bytes: seq<uint8>, seen: seq<RawTlv>, tlv: RawTlv, rloc16: uint16)
    requires SplitTlvs(bytes).Some? ==>
               |SplitTlvs(bytes).value| > |seen| && SplitTlvs(bytes).value[..|seen|] == seen
               && SplitTlvs(bytes).value[|seen|] == tlv
    requires !TlvValid(seen, tlv, rloc16)
    ensures !WellFormed(bytes, rloc16)
  {
  }

  lemma AllTlvsValidAppend(seen: seq<RawTlv>, tlv: RawTlv, rloc16: uint16)
    requires AllTlvsValid(seen, rloc16) && TlvValid(seen, tlv, rloc16)
    ensures AllTlvsValid(seen + [tlv], rloc16)
  {
    var s := seen + [tlv];
    assert s[..|seen|] == seen;
    forall i | 0 <= i < |s|
      ensures TlvValid(s[..i], s[i], rloc16)
    {
      if i < |seen| {
        assert s[..i] == seen[..i] && s[i] == seen[i];
      }
    }
  }

  // ---------------------------------------------------------------------
  // Consequences
  // ---------------------------------------------------------------------

  /** An accepted registration has no two Prefix TLVs for the same prefix. */
  lemma WellFormedHasNoDuplicatePrefix(bytes: seq<uint8>, rloc16: uint16, i: nat, j: nat)
    requires WellFormed(bytes, rloc16)
    requires var raws := SplitTlvs(bytes).value;
             i < j < |raws| && raws[i].tlvType == TypePrefix && raws[j].tlvType == TypePrefix
    ensures var raws := SplitTlvs(bytes).value;
            PrefixValueIsValid(raws[i].value) && PrefixValueIsValid(raws[j].value)
            && !SamePrefix(raws[i].value, raws[j].value)
  {
    var raws := SplitTlvs(bytes).value;
    assert TlvValid(raws[..i], raws[i], rloc16);
    assert TlvValid(raws[..j], raws[j], rloc16);
    assert raws[..j][i] == raws[i];
  }

  /** An empty registration is accepted; one whose first TLV overruns the end is not. */
  lemma WellFormedEdges(bytes: seq<uint8>, rloc16: uint16)
    ensures WellFormed([], rloc16)
    ensures |bytes| > 0 && !FitsAt(bytes, 0, |bytes|) ==> !WellFormed(bytes, rloc16)
  {
  }
}
