/**
 * The IPv6 layer's own decisions (Ip6 in src/core/net/ip6.cpp): the mapping
 * between DSCP class selectors and message priorities, the hop-limit and
 * ICMPv6 filter applied before a datagram is forwarded into the mesh,
 * fragmentation of an outgoing datagram, reassembly of incoming fragments,
 * and source-address selection.
 *
 * Header parsing, message buffers and the collaborators the code asks (MLE,
 * the time ticker, the mesh forwarder) are represented by the values the
 * code reads from them.
 */
module Ip6 {
  import opened Common
  import opened Ip6Address

  // ---------------------------------------------------------------------
  // Priorities and DSCP class selectors (section 4.2.2.1 of RFC 2474)
  // ---------------------------------------------------------------------

  /** Message::Priority. */
  datatype Priority = Low | Normal | High | Net

  /** The class-selector code point CSn is n << 3; the mask keeps those three bits. */
  function ClassSelector(n: nat): uint8
    requires n < 8
  {
    n * 8
  }

  const DscpCsMask: uint8 := 0x38

  /** `aDscp & kDscpCsMask`: the class-selector bits of a DSCP value. */
  function DscpClass(dscp: uint8): (cs: uint8)
    ensures cs % 8 == 0 && cs <= DscpCsMask
  {
    (dscp / 8) % 8 * 8
  }

  /**
   * Ip6::DscpToPriority: CS1 and CS2 are low, CS0 and CS3 normal, CS4 to
   * CS7 high, and anything else normal.
   */
  function DscpToPriority(dscp: uint8): (p: Priority)
    ensures p != Net
  {
    var cs := DscpClass(dscp);
    if cs == ClassSelector(1) || cs == ClassSelector(2) then Low
    else if cs == ClassSelector(0) || cs == ClassSelector(3) then Normal
    else if cs == ClassSelector(4) || cs == ClassSelector(5) || cs == ClassSelector(6) || cs == ClassSelector(7) then High
    else Normal
  }

  /** Ip6::PriorityToDscp: low is CS1, normal and net are CS0, high is CS4. */
  function PriorityToDscp(p: Priority): (dscp: uint8)
    ensures DscpClass(dscp) == dscp
  {
    match p
    case Low => ClassSelector(1)
    case Normal => ClassSelector(0)
    case Net => ClassSelector(0)
    case High => ClassSelector(4)
  }

  /** A priority written into the traffic class is read back, except net, which reads as normal. */
  lemma PriorityRoundTrip(p: Priority)
    ensures DscpToPriority(PriorityToDscp(p)) == if p == Net then Normal else p
  {
  }

  /** The priority of a DSCP value depends on its class selector alone, and the selector it yields reads back the same. */
  lemma DscpClassDecides(dscp: uint8)
    ensures DscpToPriority(dscp) == DscpToPriority(DscpClass(dscp))
    ensures DscpToPriority(PriorityToDscp(DscpToPriority(dscp))) == DscpToPriority(dscp)
  {
  }

  // ---------------------------------------------------------------------
  // Forwarding into the Thread mesh (Ip6::HandleDatagram)
  // ---------------------------------------------------------------------

  const ProtoUdp: uint8 := 17
  const ProtoIcmp6: uint8 := 58

  /** The Thread management framework's UDP port (Tmf::kUdpPort). */
  const TmfUdpPort: uint16 := 61631

  /**
   * kForwardIcmpTypes: destination unreachable, packet too big, time
   * exceeded, parameter problem, echo request and echo reply (section 2.1
   * of RFC 4443).
   */
  const ForwardIcmpTypes: set<uint8> := {1, 2, 3, 4, 128, 129}

  /**
   * What the forwarding step of HandleDatagram sees: where the message came
   * from, whether this device is a router or leader, the hop limit of the
   * IPv6 header, the final next-header value, and the bytes that follow
   * the IPv6 headers.
   */
  datatype Forwarding = Forwarding(
    originThread: bool,
    originHostUntrusted: bool,
    isRouterOrLeader: bool,
    hopLimit: uint8,
    nextHeader: uint8,
    transport: seq<uint8>)

  /**
   * The outcome: handed to the mesh forwarder with a hop limit, silently not
   * forwarded (a Thread-origin message at a device that is not a router),
   * or rejected with an error.
   */
  datatype ForwardVerdict = Forwarded(hopLimit: uint8) | NotRouted | Rejected(error: Error)

  /** The destination port of a UDP header, big-endian in bytes 2 and 3. */
  function UdpDestinationPort(transport: seq<uint8>): uint16
    requires |transport| >= 8
  {
    transport[2] as int * 0x100 + transport[3] as int
  }

  /**
   * The filters after the hop limit: forwarded ICMPv6 must be one of the
   * listed types, and UDP to the TMF port from an untrusted host is dropped.
   * A header that cannot be read is a parse error.
   */
  function TransportFilter(fw: Forwarding, hopLimit: uint8): (v: ForwardVerdict)
    requires hopLimit > 0
    ensures v.Forwarded? || v.Rejected?
  {
    if fw.nextHeader == ProtoIcmp6 && |fw.transport| < 1 then Rejected(Parse)
    else if fw.nextHeader == ProtoIcmp6 && fw.transport[0] !in ForwardIcmpTypes then Rejected(Drop)
    else if fw.originHostUntrusted && fw.nextHeader == ProtoUdp && |fw.transport| < 8 then Rejected(Parse)
    else if fw.originHostUntrusted && fw.nextHeader == ProtoUdp && UdpDestinationPort(fw.transport) == TmfUdpPort then Rejected(Drop)
    else Forwarded(hopLimit)
  }

  /**
   * The forwarding step as written: a Thread-origin message is forwarded
   * only by a router or leader, with its hop limit less one truncated to
   * eight bits; a hop limit of zero after that is dropped.
   */
  function ForwardThread(fw: Forwarding): (v: ForwardVerdict)
    ensures v.Forwarded? ==> v.hopLimit > 0
    ensures v.NotRouted? <==> fw.originThread && !fw.isRouterOrLeader
  {
    if fw.originThread && !fw.isRouterOrLeader then NotRouted
    else
      var hopLimit := if fw.originThread then Wrap8(fw.hopLimit - 1) else fw.hopLimit;
      if hopLimit == 0 then Rejected(Drop) else TransportFilter(fw, hopLimit)
  }

  /**
   * Forwarded ICMPv6 is one of the six listed types, and a message the
   * filters accept is forwarded whatever its ICMPv6 type when it is not
   * ICMPv6.
   */
  lemma ForwardedIcmpListed(fw: Forwarding)
    ensures ForwardThread(fw).Forwarded? && fw.nextHeader == ProtoIcmp6 ==>
              |fw.transport| >= 1 && fw.transport[0] in ForwardIcmpTypes
    ensures ForwardThread(fw).Forwarded? && fw.originHostUntrusted && fw.nextHeader == ProtoUdp ==>
              |fw.transport| >= 8 && UdpDestinationPort(fw.transport) != TmfUdpPort
  {
  }

  /**
   * A Thread-origin message that arrives with a hop limit of at least one is
   * forwarded with one less, and dropped when that is zero; a host-origin
   * message keeps its hop limit.
   */
  lemma ForwardDecrements(fw: Forwarding)
    requires ForwardThread(fw).Forwarded?
    ensures fw.originThread && fw.hopLimit >= 1 ==> ForwardThread(fw).hopLimit == fw.hopLimit - 1
    ensures !fw.originThread ==> ForwardThread(fw).hopLimit == fw.hopLimit
    ensures fw.originThread ==> fw.hopLimit != 1
  {
  }

  /**
   * The truncation lets a Thread-origin datagram that arrives with hop limit
   * zero through with hop limit 255.
   */
  lemma ZeroHopLimitForwarded()
    ensures ForwardThread(Forwarding(true, false, true, 0, ProtoUdp, [])) == Forwarded(255)
  {
  }

  /**
   * The forwarding step as section 3 of RFC 8200 asks: a datagram whose hop
   * limit is zero when received is discarded, before any decrement.
   */
  function ForwardThreadCorrected(fw: Forwarding): (v: ForwardVerdict)
    ensures v.Forwarded? ==> v.hopLimit > 0
  {
    if fw.originThread && !fw.isRouterOrLeader then NotRouted
    else if fw.originThread && fw.hopLimit == 0 then Rejected(Drop)
    else
      var hopLimit := if fw.originThread then fw.hopLimit - 1 else fw.hopLimit;
      if hopLimit == 0 then Rejected(Drop) else TransportFilter(fw, hopLimit)
  }

  /**
   * With the correction a Thread-origin datagram always leaves with a lower
   * hop limit than it came with, and otherwise nothing changes.
   */
  lemma ForwardCorrectedDecrements(fw: Forwarding)
    ensures ForwardThreadCorrected(fw).Forwarded? && fw.originThread ==>
              ForwardThreadCorrected(fw).hopLimit == fw.hopLimit - 1
    ensures fw.hopLimit > 0 || !fw.originThread ==> ForwardThreadCorrected(fw) == ForwardThread(fw)
  {
  }

  // ---------------------------------------------------------------------
  // Fragmentation (Ip6::FragmentDatagram, section 4.5 of RFC 8200)
  // ---------------------------------------------------------------------

  /** kMinimalMtu: the IPv6 minimum link MTU (section 5 of RFC 8200). */
  const MinimalMtu: int := 1280
  const Ip6HeaderSize: int := 40
  const FragmentHeaderSize: int := 8

  /** FragmentHeader::MakeDivisibleByEight: the 16-bit value with its low three bits cleared. */
  function MakeDivisibleByEight(x: uint16): (r: uint16)
    ensures r % 8 == 0 && r <= x < r + 8
  {
    x - x % 8
  }

  /** FragmentHeader::FragmentOffsetToBytes: 8-octet units to bytes, in 16 bits. */
  function FragmentOffsetToBytes(units: uint16): uint16
  {
    Wrap16(units * 8)
  }

  /**
   * maxPayloadFragment: what is left of the minimum MTU after the headers
   * and the fragment header, computed in 16 bits and rounded down to a
   * multiple of eight.
   */
  function MaxPayloadFragment(headerLength: uint16): (max: uint16)
    ensures max % 8 == 0
  {
    MakeDivisibleByEight(Wrap16(MinimalMtu - headerLength - FragmentHeaderSize))
  }

  /**
   * With headers that leave room in the minimum MTU, every fragment fits the
   * MTU and carries at least eight payload bytes when the room allows.
   */
  lemma MaxPayloadFits(headerLength: uint16)
    requires headerLength + FragmentHeaderSize <= MinimalMtu
    ensures headerLength + FragmentHeaderSize + MaxPayloadFragment(headerLength) <= MinimalMtu
    ensures MinimalMtu - headerLength - FragmentHeaderSize < MaxPayloadFragment(headerLength) + 8
    ensures headerLength + FragmentHeaderSize + 8 <= MinimalMtu ==> MaxPayloadFragment(headerLength) >= 8
  {
  }

  /**
   * The offset field of fragment number `index`: the count times the
   * maximum in 8-octet units (FragmentHeader::BytesToFragmentOffset), in
   * 16 bits.
   */
  function OffsetField(index: nat, max: nat): uint16
  {
    Wrap16(index * (max / 8))
  }

  /** One fragment sent: its offset field in 8-octet units, its M flag and its payload length. */
  datatype FragmentPlan = FragmentPlan(offset: uint16, more: bool, length: nat)

  /** The fragments sent, and whether the buffer pool ran out before the last. */
  datatype Plan = Plan(fragments: seq<FragmentPlan>, outOfBuffers: bool)

  /**
   * The fragments FragmentDatagram sends for `left` payload bytes from
   * fragment number `index` on, when the pool can provide `budget` more
   * fragment messages. As written, M is cleared only on a fragment shorter
   * than the maximum.
   */
  function Planned(left: nat, max: nat, index: nat, budget: nat): (p: Plan)
    decreases budget
    ensures |p.fragments| <= budget
  {
    if left == 0 then Plan([], false)
    else if budget == 0 then Plan([], true)
    else
      var length := if left < max then left else max;
      var rest := Planned(left - length, max, index + 1, budget - 1);
      Plan([FragmentPlan(OffsetField(index, max), !(left < max), length)] + rest.fragments, rest.outOfBuffers)
  }

  /** The total payload carried by a list of fragments. */
  function TotalLength(fragments: seq<FragmentPlan>): nat
  {
    if |fragments| == 0 then 0 else fragments[0].length + TotalLength(fragments[1..])
  }

  /**
   * Ip6::FragmentDatagram for a message of `length` bytes whose headers take
   * `headerLength`, when the pool can provide `buffers` fragment messages.
   * The IPv6 header must be readable; a pool that runs dry ends with NoBufs
   * after the fragments already sent. The last fragment is recognised with
   * `<=`, so that it clears M even when it is full (PlannedCorrected);
   * Planned is the loop with the source's `<`.
   */
  method FragmentDatagram(headerLength: uint16, length: uint16, buffers: nat) returns (error: Error, fragments: seq<FragmentPlan>)
    requires headerLength <= length
    ensures length < Ip6HeaderSize ==> error == Parse && fragments == []
    ensures length >= Ip6HeaderSize ==>
              var p := PlannedCorrected(length - headerLength, MaxPayloadFragment(headerLength), 0, buffers);
              fragments == p.fragments && (if p.outOfBuffers then error == NoBufs else error == NoError)
  {
    var maxPayloadFragment := MaxPayloadFragment(headerLength);
    var payloadLeft: uint16 := length - headerLength;
    if length < Ip6HeaderSize {
      return Parse, [];
    }
    ghost var total := PlannedCorrected(payloadLeft, maxPayloadFragment, 0, buffers);
    var more := true;
    var fragmentCnt := 0;
    fragments := [];
    while payloadLeft != 0
      invariant fragmentCnt <= buffers
      invariant more || payloadLeft == 0
      invariant fragments + PlannedCorrected(payloadLeft, maxPayloadFragment, fragmentCnt, buffers - fragmentCnt).fragments == total.fragments
      invariant PlannedCorrected(payloadLeft, maxPayloadFragment, fragmentCnt, buffers - fragmentCnt).outOfBuffers == total.outOfBuffers
      decreases buffers - fragmentCnt
    {
      ghost var before := payloadLeft;
      var payloadFragment;
      if payloadLeft <= maxPayloadFragment {
        more := false;
        payloadFragment := payloadLeft;
        payloadLeft := 0;
      } else {
        payloadLeft := payloadLeft - maxPayloadFragment;
        payloadFragment := maxPayloadFragment;
      }
      var offset := OffsetField(fragmentCnt, maxPayloadFragment);
      if fragmentCnt == buffers {
        return NoBufs, fragments;
      }
      ghost var rest := PlannedCorrected(payloadLeft, maxPayloadFragment, fragmentCnt + 1, buffers - fragmentCnt - 1);
      assert PlannedCorrected(before, maxPayloadFragment, fragmentCnt, buffers - fragmentCnt).fragments
          == [FragmentPlan(offset, more, payloadFragment)] + rest.fragments;
      ConcatAssociates(fragments, [FragmentPlan(offset, more, payloadFragment)], rest.fragments);
      fragments := fragments + [FragmentPlan(offset, more, payloadFragment)];
      fragmentCnt := fragmentCnt + 1;
    }
    error := NoError;
  }

  /** When the pool does not run dry, the fragments carry exactly the payload. */
  lemma {:induction false} PlanCoversPayload(left: nat, max: nat, index: nat, budget: nat)
    requires !Planned(left, max, index, budget).outOfBuffers
    ensures TotalLength(Planned(left, max, index, budget).fragments) == left
    decreases budget
  {
    if left != 0 {
      var length := if left < max then left else max;
      var rest := Planned(left - length, max, index + 1, budget - 1);
      PlanCoversPayload(left - length, max, index + 1, budget - 1);
      var fragments := Planned(left, max, index, budget).fragments;
      assert fragments[1..] == rest.fragments;
    }
  }

  /** Fragment k of the list carries the offset field of fragment number index + k. */
  predicate OffsetsFrom(f: seq<FragmentPlan>, index: nat, max: nat)
  {
    forall k | 0 <= k < |f| :: f[k].offset == OffsetField(index + k, max)
  }

  /**
   * The lengths as written: no fragment is longer than the maximum, every
   * fragment but the last is exactly the maximum, and M is set exactly on
   * the fragments of maximum length.
   */
  predicate LengthsAsWritten(f: seq<FragmentPlan>, max: nat)
  {
    forall k | 0 <= k < |f| ::
      f[k].length <= max && (f[k].more <==> f[k].length == max) && (k + 1 < |f| ==> f[k].length == max)
  }

  lemma {:induction false} PlanOffsets(left: nat, max: nat, index: nat, budget: nat)
    ensures OffsetsFrom(Planned(left, max, index, budget).fragments, index, max)
    decreases budget
  {
    if left != 0 && budget != 0 {
      var length := if left < max then left else max;
      PlanOffsets(left - length, max, index + 1, budget - 1);
      var rest := Planned(left - length, max, index + 1, budget - 1).fragments;
      var head := FragmentPlan(OffsetField(index, max), !(left < max), length);
      assert Planned(left, max, index, budget).fragments == [head] + rest;
      forall k | 0 <= k < |[head] + rest|
        ensures ([head] + rest)[k].offset == OffsetField(index + k, max)
      {
        if k > 0 {
          assert ([head] + rest)[k] == rest[k - 1];
          assert rest[k - 1].offset == OffsetField(index + 1 + (k - 1), max);
          assert index + 1 + (k - 1) == index + k;
        }
      }
    }
  }

  lemma {:induction false} PlanLengths(left: nat, max: nat, index: nat, budget: nat)
    ensures LengthsAsWritten(Planned(left, max, index, budget).fragments, max)
    decreases budget
  {
    if left != 0 && budget != 0 {
      var length := if left < max then left else max;
      PlanLengths(left - length, max, index + 1, budget - 1);
      var rest := Planned(left - length, max, index + 1, budget - 1).fragments;
      var head := FragmentPlan(OffsetField(index, max), !(left < max), length);
      assert Planned(left, max, index, budget).fragments == [head] + rest;
      assert rest != [] ==> length == max;
      forall k | 0 <= k < |[head] + rest|
        ensures var f := [head] + rest;
                f[k].length <= max && (f[k].more <==> f[k].length == max) && (k + 1 < |f| ==> f[k].length == max)
      {
        if k > 0 {
          assert ([head] + rest)[k] == rest[k - 1];
        }
      }
    }
  }

  /** The first k fragments are full, so k maximum payloads fit in what is left. */
  lemma {:induction false} PlanPrefixFits(left: nat, max: nat, index: nat, budget: nat)
    ensures var f := Planned(left, max, index, budget).fragments;
            forall k | 0 <= k < |f| :: k * max <= left
    decreases budget
  {
    if left != 0 && budget != 0 {
      var length := if left < max then left else max;
      PlanPrefixFits(left - length, max, index + 1, budget - 1);
      var f := Planned(left, max, index, budget).fragments;
      var rest := Planned(left - length, max, index + 1, budget - 1).fragments;
      forall k | 0 <= k < |f|
        ensures k * max <= left
      {
        if k > 0 {
          assert f[k] == rest[k - 1];
          assert (k - 1) * max <= left - length;
          assert k * max == (k - 1) * max + max;
        }
      }
    }
  }

  /**
   * Fragment k's offset field names exactly the byte where its payload
   * starts in the original datagram, k times the maximum.
   */
  lemma FragmentOffsetsContiguous(headerLength: uint16, length: uint16, buffers: nat)
    requires headerLength <= length
    ensures var f := PlannedCorrected(length - headerLength, MaxPayloadFragment(headerLength), 0, buffers).fragments;
            forall k | 0 <= k < |f| :: FragmentOffsetToBytes(f[k].offset) == k * MaxPayloadFragment(headerLength)
  {
    var max := MaxPayloadFragment(headerLength);
    var left := length - headerLength;
    PlanOffsets(left, max, 0, buffers);
    PlanPrefixFits(left, max, 0, buffers);
    CorrectedSameShape(left, max, 0, buffers);
    var p := Planned(left, max, 0, buffers).fragments;
    var f := PlannedCorrected(left, max, 0, buffers).fragments;
    forall k | 0 <= k < |f|
      ensures FragmentOffsetToBytes(f[k].offset) == k * max
    {
      assert f[k].offset == p[k].offset == OffsetField(0 + k, max);
      assert k * max <= left;
      OffsetFieldBytes(k, max);
    }
  }

  /** An offset field read back in bytes is the count times the maximum, while that fits 16 bits. */
  lemma OffsetFieldBytes(k: nat, max: nat)
    requires max % 8 == 0 && k * max < 0x1_0000
    ensures FragmentOffsetToBytes(OffsetField(k, max)) == k * max
  {
    var q := max / 8;
    assert max == 8 * q;
    assert k * max == 8 * (k * q) by {
      assert k * (8 * q) == 8 * (k * q);
    }
    assert OffsetField(k, max) == k * q;
  }

  /**
   * As written, a payload that is an exact multiple of the maximum is sent
   * with M set on every fragment, so no fragment marks the end.
   */
  lemma ExactMultipleNeverEnds(left: nat, max: nat, index: nat, budget: nat)
    requires max > 0 && left % max == 0
    ensures forall k | 0 <= k < |Planned(left, max, index, budget).fragments| :: Planned(left, max, index, budget).fragments[k].more
  {
    var n := left / max;
    assert left == n * max;
    MultipleNeverEnds(n, max, index, budget);
  }

  lemma {:induction false} MultipleNeverEnds(n: nat, max: nat, index: nat, budget: nat)
    requires max > 0
    ensures forall k | 0 <= k < |Planned(n * max, max, index, budget).fragments| :: Planned(n * max, max, index, budget).fragments[k].more
    decreases budget
  {
    if n != 0 && budget != 0 {
      var left := n * max;
      assert left - max == (n - 1) * max;
      MultipleNeverEnds(n - 1, max, index + 1, budget - 1);
      var f := Planned(left, max, index, budget).fragments;
      var rest := Planned((n - 1) * max, max, index + 1, budget - 1).fragments;
      assert f == [FragmentPlan(OffsetField(index, max), true, max)] + rest;
      forall k | 0 <= k < |f|
        ensures f[k].more
      {
        if k > 0 {
          assert f[k] == rest[k - 1];
        }
      }
    }
  }

  /**
   * The concrete case: behind a bare 40-byte IPv6 header the maximum is 1232
   * bytes, and a 2464-byte payload goes out as two fragments that both
   * have M set.
   */
  lemma TwoFullFragmentsBothMore()
    ensures Planned(2464, 1232, 0, 2) == Plan([FragmentPlan(0, true, 1232), FragmentPlan(154, true, 1232)], false)
  {
    assert OffsetField(0, 1232) == 0;
    assert OffsetField(1, 1232) == 154;
    assert Planned(0, 1232, 2, 0) == Plan([], false);
    assert Planned(1232, 1232, 1, 1) == Plan([FragmentPlan(154, true, 1232)], false);
  }

  /** Behind a bare IPv6 header a fragment carries at most 1232 payload bytes. */
  lemma BareHeaderMaximum()
    ensures MaxPayloadFragment(Ip6HeaderSize) == 1232
  {
    assert Wrap16(1232) == 1232;
  }

  /**
   * The fragments as section 4.5 of RFC 8200 intends: the fragment that
   * carries the rest of the payload, full or not, is the last and clears M.
   */
  function PlannedCorrected(left: nat, max: nat, index: nat, budget: nat): (p: Plan)
    decreases budget
    ensures |p.fragments| <= budget
  {
    if left == 0 then Plan([], false)
    else if budget == 0 then Plan([], true)
    else
      var length := if left <= max then left else max;
      var rest := PlannedCorrected(left - length, max, index + 1, budget - 1);
      Plan([FragmentPlan(OffsetField(index, max), !(left <= max), length)] + rest.fragments, rest.outOfBuffers)
  }

  /**
   * With the correction, when the pool does not run dry, M is clear on the
   * last fragment and set on every other.
   */
  lemma {:induction false} CorrectedLastClearsMore(left: nat, max: nat, index: nat, budget: nat)
    requires max > 0 && !PlannedCorrected(left, max, index, budget).outOfBuffers
    ensures var f := PlannedCorrected(left, max, index, budget).fragments;
            forall k | 0 <= k < |f| :: (f[k].more <==> k + 1 < |f|)
    decreases budget
  {
    if left != 0 {
      var length := if left <= max then left else max;
      CorrectedLastClearsMore(left - length, max, index + 1, budget - 1);
      var f := PlannedCorrected(left, max, index, budget).fragments;
      var rest := PlannedCorrected(left - length, max, index + 1, budget - 1).fragments;
      assert left - length == 0 ==> rest == [];
      assert left - length != 0 ==> |rest| > 0;
      forall k | 0 <= k < |f|
        ensures f[k].more <==> k + 1 < |f|
      {
        if k > 0 {
          assert f[k] == rest[k - 1];
        }
      }
    }
  }

  /** The correction sends the same payload in the same number of bytes. */
  lemma {:induction false} CorrectedCoversPayload(left: nat, max: nat, index: nat, budget: nat)
    requires !PlannedCorrected(left, max, index, budget).outOfBuffers
    ensures TotalLength(PlannedCorrected(left, max, index, budget).fragments) == left
    decreases budget
  {
    if left != 0 {
      var length := if left <= max then left else max;
      var rest := PlannedCorrected(left - length, max, index + 1, budget - 1);
      CorrectedCoversPayload(left - length, max, index + 1, budget - 1);
      var fragments := PlannedCorrected(left, max, index, budget).fragments;
      assert fragments[1..] == rest.fragments;
    }
  }

  /**
   * The correction changes only M flags: as many fragments, each with the
   * same offset and length, and the same outcome for the pool.
   */
  lemma {:induction false} CorrectedSameShape(left: nat, max: nat, index: nat, budget: nat)
    ensures var p := Planned(left, max, index, budget);
            var c := PlannedCorrected(left, max, index, budget);
            |c.fragments| == |p.fragments| && c.outOfBuffers == p.outOfBuffers &&
            forall k | 0 <= k < |c.fragments| ::
              c.fragments[k].offset == p.fragments[k].offset && c.fragments[k].length == p.fragments[k].length
    decreases budget
  {
    if left != 0 && budget != 0 {
      var length := if left < max then left else max;
      assert length == if left <= max then left else max;
      CorrectedSameShape(left - length, max, index + 1, budget - 1);
      var p := Planned(left, max, index, budget).fragments;
      var c := PlannedCorrected(left, max, index, budget).fragments;
      var pRest := Planned(left - length, max, index + 1, budget - 1).fragments;
      var cRest := PlannedCorrected(left - length, max, index + 1, budget - 1).fragments;
      forall k | 0 < k < |c|
        ensures c[k].offset == p[k].offset && c[k].length == p[k].length
      {
        assert c[k] == cRest[k - 1] && p[k] == pRest[k - 1];
      }
    }
  }

  // ---------------------------------------------------------------------
  // Reassembly (Ip6::HandleFragment)
  // ---------------------------------------------------------------------

  /**
   * kMaxAssembledDatagramLength: the largest datagram the reassembly buffer
   * holds (the default of the build configuration, the minimum MTU).
   */
  const MaxAssembledDatagramLength: int := 1280

  /** A fragment-header offset: thirteen bits of 8-octet units. */
  type FragmentOffset = x: int | 0 <= x < 0x2000

  /**
   * A received message whose next header is a fragment header: the
   * addresses of its IPv6 header, where its headers end (the message
   * offset), its length, and the fields of the fragment header.
   */
  datatype ReceivedFragment = ReceivedFragment(
    source: Address,
    destination: Address,
    headerLength: uint16,
    length: uint16,
    fragmentOffset: FragmentOffset,
    more: bool,
    identification: uint32,
    nextHeader: uint8)

  /**
   * A datagram being reassembled: its tag (the fragment identification),
   * the addresses of the header it was started with, and the length of the
   * buffer so far.
   */
  datatype Reassembly = Reassembly(tag: uint32, source: Address, destination: Address, length: nat)

  /**
   * A completed datagram handed back to HandleDatagram: its addresses, its
   * length, the offset where its payload ends, the payload length written
   * into its header and the next header taken from the fragment header.
   */
  datatype Reassembled = Reassembled(
    source: Address,
    destination: Address,
    length: nat,
    offset: nat,
    payloadLength: uint16,
    nextHeader: uint8)

  /** Both headers can be read: the IPv6 header at the front and the fragment header at the offset. */
  predicate HeadersReadable(f: ReceivedFragment)
  {
    f.length >= Ip6HeaderSize && f.length >= f.headerLength + FragmentHeaderSize
  }

  /** Offset zero with M clear: a fragment header on a datagram that was never fragmented. */
  predicate Unfragmented(f: ReceivedFragment)
  {
    HeadersReadable(f) && f.fragmentOffset == 0 && !f.more
  }

  /** The buffer length this fragment needs: headers, offset and its payload. */
  function Needed(f: ReceivedFragment): int
    requires HeadersReadable(f)
  {
    f.fragmentOffset * 8 + (f.length - f.headerLength - FragmentHeaderSize) + f.headerLength
  }

  predicate SameDatagram(r: Reassembly, f: ReceivedFragment)
  {
    r.tag == f.identification && r.source == f.source && r.destination == f.destination
  }

  /** The position of the first reassembly with the fragment's tag and addresses. */
  function FirstMatch(list: seq<Reassembly>, f: ReceivedFragment): (r: Option<nat>)
    ensures r.Some? ==> r.value < |list| && SameDatagram(list[r.value], f)
    ensures r.Some? ==> forall j | 0 <= j < r.value :: !SameDatagram(list[j], f)
    ensures r.None? ==> forall j | 0 <= j < |list| :: !SameDatagram(list[j], f)
  {
    if |list| == 0 then None
    else if SameDatagram(list[0], f) then Some(0)
    else
      var rest := FirstMatch(list[1..], f);
      assert forall j | 1 <= j < |list| :: list[j] == list[1..][j - 1];
      if rest.None? then None else Some(rest.value + 1)
  }

  /** The list without the entry at the position, if there is one. */
  function Without(list: seq<Reassembly>, position: Option<nat>): seq<Reassembly>
    requires position.Some? ==> position.value < |list|
  {
    if position.None? then list else RemoveAt(list, position.value)
  }

  /** The search loop of HandleFragment over the reassembly list. */
  method FindReassembly(list: seq<Reassembly>, f: ReceivedFragment) returns (position: Option<nat>)
    ensures position == FirstMatch(list, f)
  {
    var i := 0;
    while i < |list|
      invariant 0 <= i <= |list|
      invariant forall j | 0 <= j < i :: !SameDatagram(list[j], f)
    {
      if SameDatagram(list[i], f) {
        return Some(i);
      }
      i := i + 1;
    }
    return None;
  }

  /**
   * The reassembly list of Ip6. Every buffered datagram is within
   * kMaxAssembledDatagramLength.
   */
  class Reassembler {
    var reassemblyList: seq<Reassembly>

    ghost predicate Valid()
      reads this
    {
      forall i | 0 <= i < |reassemblyList| :: reassemblyList[i].length <= MaxAssembledDatagramLength
    }

    constructor ()
      ensures Valid() && reassemblyList == []
    {
      reassemblyList := [];
    }

    /**
     * Ip6::HandleFragment. An unfragmented datagram passes with its offset
     * moved past the fragment header and NoError; every other message is
     * dropped, a real fragment's payload kept in the reassembly list.
     * `canAllocate` says whether the pool can provide or grow a buffer.
     */
    method HandleFragment(f: ReceivedFragment, canAllocate: bool) returns (error: Error, offset: uint16, delivered: Option<Reassembled>)
      requires Valid() && f.headerLength <= f.length
      modifies this
      ensures Valid()
      ensures error == NoError <==> Unfragmented(f)
      ensures error != NoError ==> error == Drop
      ensures offset == if Unfragmented(f) then f.headerLength + FragmentHeaderSize else f.headerLength
      ensures !HeadersReadable(f) || Unfragmented(f) ==> reassemblyList == old(reassemblyList) && delivered.None?
      ensures HeadersReadable(f) && !Unfragmented(f) ==> AfterFragment(old(reassemblyList), f, canAllocate, reassemblyList, delivered)
      ensures delivered.Some? ==> delivered.value.length <= MaxAssembledDatagramLength && !f.more
      ensures |reassemblyList| <= |old(reassemblyList)| + 1
    {
      if f.length < Ip6HeaderSize || f.length < f.headerLength + FragmentHeaderSize {
        return Drop, f.headerLength, None;
      }
      if f.fragmentOffset == 0 && !f.more {
        return NoError, f.headerLength + FragmentHeaderSize, None;
      }
      delivered := AddFragment(f, canAllocate);
      return Drop, f.headerLength, delivered;
    }

    /**
     * A real fragment. One that would take the datagram past
     * kMaxAssembledDatagramLength ends its datagram's reassembly; so does
     * one that needs a buffer the pool cannot give.
     */
    method AddFragment(f: ReceivedFragment, canAllocate: bool) returns (delivered: Option<Reassembled>)
      requires Valid() && HeadersReadable(f) && !Unfragmented(f)
      modifies this
      ensures Valid()
      ensures AfterFragment(old(reassemblyList), f, canAllocate, reassemblyList, delivered)
      ensures delivered.Some? ==> delivered.value.length <= MaxAssembledDatagramLength && !f.more
      ensures |reassemblyList| <= |old(reassemblyList)| + 1
    {
      var position := FindReassembly(reassemblyList, f);
      var fragmentOffset := f.fragmentOffset * 8;
      var payloadFragment := f.length - f.headerLength - FragmentHeaderSize;
      if fragmentOffset + payloadFragment + f.headerLength > MaxAssembledDatagramLength {
        reassemblyList := Without(reassemblyList, position);
        return None;
      }
      delivered := StoreFragment(f, canAllocate, position);
    }

    /**
     * A fragment that fits: its buffer is found or started, grown to take
     * the payload, and, when M is clear, the datagram is complete and leaves
     * the list.
     */
    method StoreFragment(f: ReceivedFragment, canAllocate: bool, position: Option<nat>) returns (delivered: Option<Reassembled>)
      requires Valid() && HeadersReadable(f) && Needed(f) <= MaxAssembledDatagramLength
      requires position == FirstMatch(reassemblyList, f)
      modifies this
      ensures Valid()
      ensures if !canAllocate && (position.None? || old(reassemblyList)[position.value].length < Needed(f)) then
                reassemblyList == Without(old(reassemblyList), position) && delivered.None?
              else
                var entry := Grown(old(reassemblyList), position, f);
                if f.more then reassemblyList == Placed(old(reassemblyList), position, entry) && delivered.None?
                else reassemblyList == Without(old(reassemblyList), position) && delivered == Some(Completed(entry, f))
      ensures |reassemblyList| <= |old(reassemblyList)| + 1
    {
      var needed := f.fragmentOffset * 8 + (f.length - f.headerLength - FragmentHeaderSize) + f.headerLength;
      ghost var list0 := reassemblyList;
      var index: nat;
      if position.None? {
        if !canAllocate {
          return None;
        }
        reassemblyList := reassemblyList + [Reassembly(f.identification, f.source, f.destination, f.headerLength)];
        index := |reassemblyList| - 1;
      } else {
        index := position.value;
      }
      if reassemblyList[index].length < needed {
        if !canAllocate {
          reassemblyList := RemoveAt(reassemblyList, index);
          return None;
        }
        reassemblyList := reassemblyList[index := reassemblyList[index].(length := needed)];
      }
      assert reassemblyList[index] == Grown(list0, position, f);
      delivered := None;
      if !f.more {
        delivered := Some(Completed(reassemblyList[index], f));
        reassemblyList := RemoveAt(reassemblyList, index);
        assert reassemblyList == Without(list0, position);
      }
    }
  }

  /**
   * The reassembly list and the delivered datagram after a real fragment,
   * from the list before: the datagram's buffer is the first with the
   * fragment's tag and addresses. A fragment past
   * kMaxAssembledDatagramLength, or one that needs a buffer the pool cannot
   * give, ends that reassembly. Otherwise the buffer (new at the end of the
   * list if none matched) is grown to take the payload; M set keeps it in
   * the list, M clear completes the datagram and removes it.
   */
  ghost predicate AfterFragment(list0: seq<Reassembly>, f: ReceivedFragment, canAllocate: bool,
                                list: seq<Reassembly>, delivered: Option<Reassembled>)
    requires HeadersReadable(f)
  {
    var position := FirstMatch(list0, f);
    if Needed(f) > MaxAssembledDatagramLength then
      list == Without(list0, position) && delivered.None?
    else if !canAllocate && (position.None? || list0[position.value].length < Needed(f)) then
      list == Without(list0, position) && delivered.None?
    else
      var entry := Grown(list0, position, f);
      if f.more then list == Placed(list0, position, entry) && delivered.None?
      else list == Without(list0, position) && delivered == Some(Completed(entry, f))
  }

  /** The reassembly buffer after this fragment: started from the headers if new, grown to what it needs. */
  function Grown(list: seq<Reassembly>, position: Option<nat>, f: ReceivedFragment): (r: Reassembly)
    requires position.Some? ==> position.value < |list|
    requires HeadersReadable(f)
    ensures r.length >= Needed(f)
    ensures position.Some? ==> r.length >= list[position.value].length
  {
    var start := if position.None? then Reassembly(f.identification, f.source, f.destination, f.headerLength)
                 else list[position.value];
    if start.length < Needed(f) then start.(length := Needed(f)) else start
  }

  /** The list with the buffer put back in its place, or added at the end when new. */
  function Placed(list: seq<Reassembly>, position: Option<nat>, entry: Reassembly): seq<Reassembly>
    requires position.Some? ==> position.value < |list|
  {
    if position.None? then list + [entry] else list[position.value := entry]
  }

  /**
   * The completed datagram: its payload ends where the last fragment's
   * payload ends, and its header's payload length is the buffer less the
   * IPv6 header.
   */
  function Completed(entry: Reassembly, f: ReceivedFragment): Reassembled
    requires HeadersReadable(f)
  {
    Reassembled(entry.source, entry.destination, entry.length, Needed(f), Wrap16(entry.length - Ip6HeaderSize), f.nextHeader)
  }

  // ---------------------------------------------------------------------
  // Source-address selection (Ip6::SelectSourceAddress, section 5 of RFC 6724)
  // ---------------------------------------------------------------------

  /** The number of leading bits on which two `width`-bit values agree. */
  function CommonHighBits(x: nat, y: nat, width: nat): (n: nat)
    ensures n <= width
  {
    if width == 0 then 0
    else
      var h := Pow2(width - 1);
      if (x / h) % 2 != (y / h) % 2 then 0 else 1 + CommonHighBits(x, y, width - 1)
  }

  /** Address::PrefixMatch: the length in bits of the longest common prefix. */
  function PrefixMatch(a: seq<uint8>, b: seq<uint8>): (n: nat)
    ensures n <= 8 * |a|
  {
    if |a| == 0 || |b| == 0 then 0
    else if a[0] == b[0] then 8 + PrefixMatch(a[1..], b[1..])
    else CommonHighBits(a[0], b[0], 8)
  }

  /**
   * A unicast address of the Thread interface: the address, its prefix
   * length, whether it is preferred (not deprecated), its scope, and
   * whether MLE reports it as an anycast or a routing locator.
   */
  datatype UnicastAddress = UnicastAddress(
    address: Address,
    prefixLength: uint8,
    preferred: bool,
    scope: uint8,
    anycastLocator: bool,
    routingLocator: bool)

  /** The destination, its scope and whether MLE reports it as a routing locator. */
  datatype Destination = Destination(address: Address, scope: uint8, routingLocator: bool)

  /** The prefix match with the destination, capped at the address's prefix length. */
  function MatchLength(d: Destination, a: UnicastAddress): (n: nat)
    ensures n <= a.prefixLength
  {
    var m := PrefixMatch(d.address, a.address);
    if m >= a.prefixLength then a.prefixLength else m
  }

  /**
   * The state of the scan: the best address so far, its match length, the
   * inferred destination scope, and whether the scan stopped at the
   * destination itself.
   */
  datatype Selection = Selection(best: Option<nat>, bestMatchLength: nat, destScope: uint8, done: bool)

  /** Whether address i replaces the best so far, by rules 2, 3 and 8 and the locator rule. */
  predicate Replaces(addrs: seq<UnicastAddress>, d: Destination, sel: Selection, i: nat)
    requires i < |addrs| && (sel.best.Some? ==> sel.best.value < |addrs|)
  {
    var a := addrs[i];
    var m := PrefixMatch(d.address, a.address);
    var overrideScope := if m >= a.prefixLength then a.scope else sel.destScope;
    var matchLength := MatchLength(d, a);
    if sel.best.None? then true
    else
      var b := addrs[sel.best.value];
      if a.scope < b.scope then a.scope >= overrideScope
      else if a.scope > b.scope then b.scope < overrideScope
      else if a.preferred != b.preferred then a.preferred
      else if matchLength > sel.bestMatchLength then true
      else matchLength == sel.bestMatchLength && d.routingLocator == a.routingLocator
  }

  /** One iteration of the scan over address i. */
  function Consider(addrs: seq<UnicastAddress>, d: Destination, sel: Selection, i: nat): Selection
    requires i < |addrs| && (sel.best.Some? ==> sel.best.value < |addrs|)
  {
    var a := addrs[i];
    if sel.done || a.anycastLocator then sel
    else if a.address == d.address then Selection(Some(i), sel.bestMatchLength, sel.destScope, true)
    else if Replaces(addrs, d, sel, i) then
      var matchLength := MatchLength(d, a);
      Selection(Some(i), matchLength, if matchLength >= a.prefixLength then a.scope else sel.destScope, false)
    else sel
  }

  /**
   * The scan over the first n addresses. The best is never an anycast
   * locator; a scan that stopped did so at the destination itself; and
   * otherwise the recorded match length is the best address's.
   */
  function Scan(addrs: seq<UnicastAddress>, d: Destination, n: nat): (sel: Selection)
    requires n <= |addrs|
    ensures sel.best.Some? ==> sel.best.value < n && !addrs[sel.best.value].anycastLocator
    ensures sel.done ==> sel.best.Some? && addrs[sel.best.value].address == d.address
    ensures sel.best.Some? && !sel.done ==> sel.bestMatchLength == MatchLength(d, addrs[sel.best.value])
  {
    if n == 0 then Selection(None, 0, d.scope, false)
    else Consider(addrs, d, Scan(addrs, d, n - 1), n - 1)
  }

  /** Once the scan has stopped at the destination, later addresses change nothing. */
  lemma {:induction false} ScanStays(addrs: seq<UnicastAddress>, d: Destination, k: nat, n: nat)
    requires k <= n <= |addrs| && Scan(addrs, d, k).done
    ensures Scan(addrs, d, n) == Scan(addrs, d, k)
    decreases n
  {
    if n > k {
      ScanStays(addrs, d, k, n - 1);
    }
  }

  /**
   * Ip6::SelectSourceAddress: the position of the chosen address in the
   * interface's list, or None for a null result.
   */
  method SelectSourceAddress(addrs: seq<UnicastAddress>, d: Destination) returns (chosen: Option<nat>)
    ensures chosen == Scan(addrs, d, |addrs|).best
  {
    var best: Option<nat> := None;
    var bestMatchLength: nat := 0;
    var destScope := d.scope;
    var i := 0;
    while i < |addrs|
      invariant 0 <= i <= |addrs|
      invariant Scan(addrs, d, i) == Selection(best, bestMatchLength, destScope, false)
    {
      var a := addrs[i];
      if !a.anycastLocator {
        var m := PrefixMatch(d.address, a.address);
        var matchLength: nat, overrideScope: uint8;
        if m >= a.prefixLength {
          matchLength, overrideScope := a.prefixLength, a.scope;
        } else {
          matchLength, overrideScope := m, destScope;
        }
        if a.address == d.address {
          ScanStays(addrs, d, i + 1, |addrs|);
          return Some(i);
        }
        var newAddrIsPreferred := false;
        if best.None? {
          newAddrIsPreferred := true;
        } else if a.scope < addrs[best.value].scope {
          newAddrIsPreferred := a.scope >= overrideScope;
        } else if a.scope > addrs[best.value].scope {
          newAddrIsPreferred := addrs[best.value].scope < overrideScope;
        } else if a.preferred != addrs[best.value].preferred {
          newAddrIsPreferred := a.preferred;
        } else if matchLength > bestMatchLength {
          newAddrIsPreferred := true;
        } else if matchLength == bestMatchLength && d.routingLocator == a.routingLocator {
          newAddrIsPreferred := true;
        }
        assert newAddrIsPreferred == Replaces(addrs, d, Selection(best, bestMatchLength, destScope, false), i);
        if newAddrIsPreferred {
          best := Some(i);
          bestMatchLength := matchLength;
          if bestMatchLength >= a.prefixLength {
            destScope := a.scope;
          }
        }
      }
      i := i + 1;
    }
    return best;
  }

  /** The result is null exactly when every address is an anycast locator. */
  lemma {:induction false} ScanNullIff(addrs: seq<UnicastAddress>, d: Destination, n: nat)
    requires n <= |addrs|
    ensures Scan(addrs, d, n).best.None? <==> forall j | 0 <= j < n :: addrs[j].anycastLocator
  {
    if n > 0 {
      ScanNullIff(addrs, d, n - 1);
    }
  }

  /** When the destination is one of the non-anycast addresses, it is the one chosen. */
  lemma {:induction false} ScanPrefersDestination(addrs: seq<UnicastAddress>, d: Destination, n: nat, i: nat)
    requires i < n <= |addrs|
    requires !addrs[i].anycastLocator && addrs[i].address == d.address
    ensures Scan(addrs, d, n).done
    ensures addrs[Scan(addrs, d, n).best.value].address == d.address
  {
    if n - 1 > i {
      ScanPrefersDestination(addrs, d, n - 1, i);
      ScanStays(addrs, d, n - 1, n);
    }
  }

  /**
   * Rules 3 and 8 among addresses of one scope, when the destination is not
   * among them: the chosen address is preferred unless every candidate is
   * deprecated, and no candidate as preferred as it matches the destination
   * with a longer prefix.
   */
  lemma {:induction false} ScanEqualScope(addrs: seq<UnicastAddress>, d: Destination, n: nat, scope: uint8)
    requires n <= |addrs|
    requires forall j | 0 <= j < n :: !addrs[j].anycastLocator ==> addrs[j].scope == scope && addrs[j].address != d.address
    ensures var sel := Scan(addrs, d, n);
            sel.best.Some? ==>
              !sel.done &&
              (addrs[sel.best.value].preferred || forall j | 0 <= j < n && !addrs[j].anycastLocator :: !addrs[j].preferred) &&
              (forall j | 0 <= j < n && !addrs[j].anycastLocator && addrs[j].preferred == addrs[sel.best.value].preferred ::
                 MatchLength(d, addrs[j]) <= sel.bestMatchLength)
  {
    if n > 0 {
      ScanEqualScope(addrs, d, n - 1, scope);
      ScanNullIff(addrs, d, n - 1);
    }
  }
}
