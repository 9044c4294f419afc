/**
 * CoAP transmission parameters (section 4.8 of RFC 7252): the validity check
 * with its overflow-guarded multiplication, and the derived timing values,
 * all in the 32-bit unsigned arithmetic the implementation uses.
 */
module CoapTxParameters {
  import opened Common

  /** OT_COAP_MIN_ACK_TIMEOUT, OT_COAP_MAX_RETRANSMIT and kDefaultMaxLatency (milliseconds). */
  const MinAckTimeout: uint32 := 1000
  const MaxRetransmitLimit: uint8 := 20
  const DefaultMaxLatency: uint32 := 100000

  datatype TxParameters = TxParameters(
    ackTimeout: uint32,
    ackRandomFactorNumerator: uint8,
    ackRandomFactorDenominator: uint8,
    maxRetransmit: uint8)

  /** ACK_TIMEOUT 2 s, ACK_RANDOM_FACTOR 3/2, MAX_RETRANSMIT 4. */
  const DefaultTxParameters := TxParameters(2000, 3, 2, 4)

  /** x * f / d * n: a span, dividing before multiplying. */
  function Scaled(x: nat, f: nat, d: nat, n: nat): nat
    requires d > 0
  {
    x * f / d * n
  }


  /**
   * The product of two 32-bit values, or 0 when the product does not fit in
   * 32 bits (a zero first factor also gives 0, as does a zero product).
   */
  function Multiply(a: uint32, b: uint32): (r: uint32)
    ensures r == if Mul(a, b) < 0x1_0000_0000 then Mul(a, b) else 0
  {
    if a == 0 then 0
    else
      var product := Wrap32(a * b);
      MultiplyOverflowTest(a, b, product);
      if product / a == b then product else 0
  }

  /** The division test in Multiply detects exactly the products that wrapped. */
  lemma MultiplyOverflowTest(a: nat, b: nat, product: nat)
    requires a != 0 && product == (a * b) % 0x1_0000_0000
    ensures product / a == b <==> a * b < 0x1_0000_0000
    ensures a * b < 0x1_0000_0000 ==> product == a * b
  {
    if a * b < 0x1_0000_0000 {
      assert product == a * b;
      MulDivCancel(a, b);
    } else {
      assert product < a * b;
      MulOfQuotientBelow(product, a);
    }
  }

  /** The non-arithmetic part of TxParameters::IsValid. */
  predicate WithinLimits(p: TxParameters)
  {
    p.ackRandomFactorDenominator > 0
    && p.ackRandomFactorNumerator >= p.ackRandomFactorDenominator
    && p.ackTimeout >= MinAckTimeout
    && p.maxRetransmit <= MaxRetransmitLimit
  }

  /** ACK_TIMEOUT * (2^(MAX_RETRANSMIT+1) - 1) * numerator, in unbounded arithmetic. */
  function LifetimeProduct(p: TxParameters): nat
  {
    Mul(Mul(p.ackTimeout, Pow2(p.maxRetransmit + 1) - 1), p.ackRandomFactorNumerator)
  }

  /** `(1U << (aMaxRetransmit + 1)) - 1` for a retransmit count within the limit. */
  function RetransmitFactor(maxRetransmit: uint8): (f: uint32)
    requires maxRetransmit <= MaxRetransmitLimit
    ensures f == Pow2(maxRetransmit + 1) - 1 && f >= 1
  {
    Pow2Bound(maxRetransmit + 1);
    Pow2Monotone(1, maxRetransmit + 1);
    Pow2(maxRetransmit + 1) - 1
  }

  /**
   * The value IsValid tests: the step-by-step product divided by the
   * denominator, 0 when a step overflowed.
   */
  function LifetimeBound(p: TxParameters): (tmp: uint32)
    requires WithinLimits(p)
    ensures tmp != 0 <==> LifetimeProduct(p) < 0x1_0000_0000
    ensures tmp != 0 ==> tmp == LifetimeProduct(p) / p.ackRandomFactorDenominator
  {
    var factor := RetransmitFactor(p.maxRetransmit);
    var tmp0 := Multiply(p.ackTimeout, factor);
    var tmp1 := Multiply(tmp0, p.ackRandomFactorNumerator);
    LifetimeBoundSteps(p.ackTimeout, factor, p.ackRandomFactorNumerator, p.ackRandomFactorDenominator, tmp0, tmp1);
    Divide(tmp1, p.ackRandomFactorDenominator)
  }

  /** A 32-bit quotient. */
  function Divide(x: uint32, d: uint8): (q: uint32)
    requires d > 0
    ensures q == x / d
  {
    DivAtMost(x, d);
    x / d
  }

  /** A zero intermediate value in IsValid means one of the products overflowed. */
  lemma LifetimeBoundSteps(a: nat, factor: nat, n: nat, d: nat, tmp0: nat, tmp1: nat)
    requires a >= MinAckTimeout && factor >= 1 && 1 <= d <= n
    requires tmp0 == (if Mul(a, factor) < 0x1_0000_0000 then Mul(a, factor) else 0)
    requires tmp1 == (if Mul(tmp0, n) < 0x1_0000_0000 then Mul(tmp0, n) else 0)
    ensures tmp1 / d != 0 <==> Mul(Mul(a, factor), n) < 0x1_0000_0000
    ensures tmp1 / d != 0 ==> tmp1 == Mul(Mul(a, factor), n)
  {
    var product := a * factor;
    MulAtLeast(a, factor);
    MulAtLeast(product, n);
    if product < 0x1_0000_0000 && product * n < 0x1_0000_0000 {
      QuotientAtLeastAckTimeout(product, n, d, tmp1);
    }
  }

  lemma QuotientAtLeastAckTimeout(product: nat, n: nat, d: nat, tmp1: nat)
    requires 1 <= d <= n && product >= MinAckTimeout && tmp1 == product * n
    ensures tmp1 / d >= MinAckTimeout
  {
    MulMonotone(d, n, product);
    MulMonotone(MinAckTimeout, product, d);
    DivMonotone(d * MinAckTimeout, tmp1, d);
    MulDivCancel(d, MinAckTimeout);
  }

  /**
   * TxParameters::IsValid as written: the limits hold, the step-by-step
   * product does not overflow, and adding the ACK timeout and twice the
   * maximum latency to it in 32-bit arithmetic yields a larger value.
   */
  function IsValid(p: TxParameters): (valid: bool)
    ensures valid ==> WithinLimits(p) && LifetimeProduct(p) < 0x1_0000_0000
  {
    if !WithinLimits(p) then false
    else
      var tmp := LifetimeBound(p);
      tmp != 0 && Wrap32(Wrap32(tmp + p.ackTimeout) + 2 * DefaultMaxLatency) > tmp
  }

  /**
   * The check IsValid is meant to make: the limits hold and the exchange
   * lifetime bound, computed without truncation, fits in 32 bits.
   */
  function IsValidCorrected(p: TxParameters): (valid: bool)
    ensures valid <==> WithinLimits(p) && LifetimeProduct(p) < 0x1_0000_0000
                       && LifetimeProduct(p) / p.ackRandomFactorDenominator + p.ackTimeout + 2 * DefaultMaxLatency
                          < 0x1_0000_0000
  {
    if !WithinLimits(p) then false
    else
      var tmp := LifetimeBound(p);
      tmp != 0 && tmp + p.ackTimeout + 2 * DefaultMaxLatency <= Uint32Max
  }

  /** Every parameter set the corrected check accepts is accepted by IsValid as written. */
  lemma IsValidCorrectedImpliesIsValid(p: TxParameters)
    requires IsValidCorrected(p)
    ensures IsValid(p)
  {
    var tmp := LifetimeBound(p);
    Wrap32Near(tmp + p.ackTimeout);
    Wrap32Near(tmp + p.ackTimeout + 2 * DefaultMaxLatency);
  }

  /** The default parameters (section 4.8 of RFC 7252) pass the check. */
  lemma DefaultTxParametersValid()
    ensures IsValidCorrected(DefaultTxParameters) && IsValid(DefaultTxParameters)
  {
    IsValidCorrectedImpliesIsValid(DefaultTxParameters);
  }

  /**
   * TxParameters::CalculateSpan: ACK_TIMEOUT * (2^n - 1), divided by the
   * denominator and then multiplied by the numerator, in 32-bit arithmetic.
   */
  function CalculateSpan(p: TxParameters, maxRetx: uint8): uint32
    requires p.ackRandomFactorDenominator > 0 && maxRetx <= 31
  {
    Pow2Bound(maxRetx);
    Wrap32(Wrap32(Mul(p.ackTimeout, Pow2(maxRetx) - 1)) / p.ackRandomFactorDenominator * p.ackRandomFactorNumerator)
  }

  /** The span computed without truncation. */
  function ExactSpan(p: TxParameters, maxRetx: nat): nat
    requires p.ackRandomFactorDenominator > 0
  {
    Scaled(p.ackTimeout, Pow2(maxRetx) - 1, p.ackRandomFactorDenominator, p.ackRandomFactorNumerator)
  }

  /** EXCHANGE_LIFETIME: span over MAX_RETRANSMIT, twice the maximum latency, and one more ACK timeout. */
  function CalculateExchangeLifetime(p: TxParameters): uint32
    requires p.ackRandomFactorDenominator > 0 && p.maxRetransmit <= 31
  {
    Wrap32(Wrap32(CalculateSpan(p, p.maxRetransmit) + 2 * DefaultMaxLatency) + p.ackTimeout)
  }

  /** MAX_TRANSMIT_WAIT: the span over MAX_RETRANSMIT + 1 (the count is a uint8). */
  function CalculateMaxTransmitWait(p: TxParameters): uint32
    requires p.ackRandomFactorDenominator > 0 && Wrap8(p.maxRetransmit + 1) <= 31
  {
    CalculateSpan(p, Wrap8(p.maxRetransmit + 1))
  }

  /** One past the largest initial retransmission timeout: ACK_TIMEOUT * numerator / denominator + 1. */
  function InitialTimeoutLimit(p: TxParameters): uint32
    requires p.ackRandomFactorDenominator > 0
  {
    Wrap32(Wrap32(Mul(p.ackTimeout, p.ackRandomFactorNumerator)) / p.ackRandomFactorDenominator + 1)
  }

  /**
   * CalculateInitialRetransmissionTimeout with the random draw as a parameter:
   * a value in [ACK_TIMEOUT, limit), as GetUint32InRange gives it.
   */
  function CalculateInitialRetransmissionTimeout(p: TxParameters, random: uint32): (timeout: uint32)
    requires p.ackRandomFactorDenominator > 0 && InitialTimeoutLimit(p) > p.ackTimeout
    ensures p.ackTimeout <= timeout < InitialTimeoutLimit(p)
  {
    p.ackTimeout + random % (InitialTimeoutLimit(p) - p.ackTimeout)
  }

  /**
   * For valid parameters the initial timeout range is never empty and is
   * exactly [ACK_TIMEOUT, ACK_TIMEOUT * numerator / denominator].
   */
  lemma InitialTimeoutRangeOfValid(p: TxParameters)
    requires IsValid(p)
    ensures InitialTimeoutLimit(p) == Mul(p.ackTimeout, p.ackRandomFactorNumerator) / p.ackRandomFactorDenominator + 1
    ensures InitialTimeoutLimit(p) > p.ackTimeout
  {
    var tmp := LifetimeBound(p);
    assert tmp < Uint32Max;
    assert LifetimeProduct(p) < 0x1_0000_0000;
    InitialTimeoutBounds(p.ackTimeout, Pow2(p.maxRetransmit + 1) - 1, p.ackRandomFactorNumerator,
                         p.ackRandomFactorDenominator, tmp);
    NoWrap(Mul(p.ackTimeout, p.ackRandomFactorNumerator), p.ackRandomFactorDenominator);
  }

  lemma NoWrap(x: nat, d: nat)
    requires d > 0 && x < 0x1_0000_0000 && x / d + 1 < 0x1_0000_0000
    ensures Wrap32(Wrap32(x) / d + 1) == x / d + 1
  {
    Wrap32Near(x);
    Wrap32Near(x / d + 1);
  }

  lemma InitialTimeoutBounds(a: nat, factor: nat, n: nat, d: nat, tmp: nat)
    requires factor >= 1 && 1 <= d <= n
    requires Mul(Mul(a, factor), n) < 0x1_0000_0000
    requires tmp == Mul(Mul(a, factor), n) / d && tmp < Uint32Max
    ensures Mul(a, n) < 0x1_0000_0000 && Mul(a, n) / d + 1 < 0x1_0000_0000
    ensures Mul(a, n) / d >= a
  {
    var an, afn := a * n, a * factor * n;
    assert Mul(Mul(a, factor), n) == afn;
    MulMonotone(1, factor, a);
    MulMonotone(a, a * factor, n);
    assert an <= afn;
    DivMonotone(an, afn, d);
    MulMonotone(d, n, a);
    DivMonotone(a * d, an, d);
    MulDivCancel(d, a);
  }

  /** Dividing before multiplying never gives more than multiplying first. */
  lemma DivThenMulBelow(x: nat, d: nat, n: nat)
    requires d > 0
    ensures x / d * n <= x * n / d
  {
    var q := x / d;
    MulOfQuotientBelow(x, d);
    MulMonotone(d * q, x, n);
    assert d * q * n == d * (q * n);
    DivMonotone(d * (q * n), x * n, d);
    MulDivCancel(d, q * n);
  }

  /** The span grows with the retransmission count. */
  lemma ExactSpanMonotone(p: TxParameters, m: nat, k: nat)
    requires p.ackRandomFactorDenominator > 0 && m <= k
    ensures ExactSpan(p, m) <= ExactSpan(p, k)
  {
    Pow2Monotone(m, k);
    ScaledMonotone(p.ackTimeout, Pow2(m) - 1, Pow2(k) - 1, p.ackRandomFactorDenominator, p.ackRandomFactorNumerator);
  }

  lemma ScaledMonotone(x: nat, f: nat, g: nat, d: nat, n: nat)
    requires d > 0 && f <= g
    ensures Scaled(x, f, d, n) <= Scaled(x, g, d, n)
  {
    MulMonotone(f, g, x);
    DivMonotone(x * f, x * g, d);
    MulMonotone(x * f / d, x * g / d, n);
  }

  /** A span whose unbounded value fits in 32 bits is computed exactly. */
  lemma SpanExact(p: TxParameters, maxRetx: uint8)
    requires p.ackRandomFactorDenominator > 0 && maxRetx <= 31
    requires Mul(p.ackTimeout, Pow2(maxRetx) - 1) < 0x1_0000_0000 && ExactSpan(p, maxRetx) < 0x1_0000_0000
    ensures CalculateSpan(p, maxRetx) == ExactSpan(p, maxRetx)
  {
    var m := Mul(p.ackTimeout, Pow2(maxRetx) - 1);
    Wrap32Near(m);
    var span := m / p.ackRandomFactorDenominator * p.ackRandomFactorNumerator;
    assert span == ExactSpan(p, maxRetx);
    Wrap32Near(span);
  }

  /**
   * Under the corrected check none of the derived timing values wraps: the
   * exchange lifetime is the span plus twice the latency plus the ACK
   * timeout, and the maximum transmit wait is the span over one more retry.
   */
  lemma CorrectedTimingsExact(p: TxParameters)
    requires IsValidCorrected(p)
    ensures CalculateMaxTransmitWait(p) == ExactSpan(p, p.maxRetransmit + 1)
    ensures CalculateExchangeLifetime(p)
            == ExactSpan(p, p.maxRetransmit) + 2 * DefaultMaxLatency + p.ackTimeout
    ensures CalculateExchangeLifetime(p) > p.ackTimeout
  {
    CorrectedSpansFit(p);
    CorrectedMaxTransmitWaitExact(p);
    CorrectedLifetimeExact(p);
  }

  lemma CorrectedMaxTransmitWaitExact(p: TxParameters)
    requires IsValidCorrected(p)
    requires Mul(p.ackTimeout, Pow2(p.maxRetransmit + 1) - 1) < 0x1_0000_0000
    requires ExactSpan(p, p.maxRetransmit + 1) < 0x1_0000_0000
    ensures CalculateMaxTransmitWait(p) == ExactSpan(p, p.maxRetransmit + 1)
  {
    var m := p.maxRetransmit;
    assert Wrap8(m + 1) == m + 1;
    SpanExact(p, m + 1);
  }

  lemma CorrectedLifetimeExact(p: TxParameters)
    requires IsValidCorrected(p)
    requires Mul(p.ackTimeout, Pow2(p.maxRetransmit) - 1) < 0x1_0000_0000
    requires ExactSpan(p, p.maxRetransmit) + p.ackTimeout + 2 * DefaultMaxLatency < 0x1_0000_0000
    ensures CalculateExchangeLifetime(p) == ExactSpan(p, p.maxRetransmit) + 2 * DefaultMaxLatency + p.ackTimeout
  {
    SpanExact(p, p.maxRetransmit);
    LifetimeSum(CalculateSpan(p, p.maxRetransmit), p.ackTimeout);
  }

  lemma LifetimeSum(span: uint32, ackTimeout: uint32)
    requires span + ackTimeout + 2 * DefaultMaxLatency < 0x1_0000_0000
    ensures Wrap32(Wrap32(span + 2 * DefaultMaxLatency) + ackTimeout) == span + 2 * DefaultMaxLatency + ackTimeout
  {
    Wrap32Near(span + 2 * DefaultMaxLatency);
    Wrap32Near(span + 2 * DefaultMaxLatency + ackTimeout);
  }

  lemma CorrectedSpansFit(p: TxParameters)
    requires IsValidCorrected(p)
    ensures Mul(p.ackTimeout, Pow2(p.maxRetransmit) - 1) < 0x1_0000_0000
    ensures Mul(p.ackTimeout, Pow2(p.maxRetransmit + 1) - 1) < 0x1_0000_0000
    ensures ExactSpan(p, p.maxRetransmit) <= ExactSpan(p, p.maxRetransmit + 1)
    ensures ExactSpan(p, p.maxRetransmit + 1) + p.ackTimeout + 2 * DefaultMaxLatency < 0x1_0000_0000
  {
    var a, n, d, m := p.ackTimeout, p.ackRandomFactorNumerator, p.ackRandomFactorDenominator, p.maxRetransmit;
    Pow2Monotone(m, m + 1);
    SpanBelowLifetimeProduct(a, Pow2(m) - 1, Pow2(m + 1) - 1, n, d);
    ExactSpanMonotone(p, m, m + 1);
  }

  lemma SpanBelowLifetimeProduct(a: nat, f: nat, g: nat, n: nat, d: nat)
    requires 1 <= d <= n && f <= g
    ensures Mul(a, f) <= Mul(a, g) <= Mul(Mul(a, g), n)
    ensures Scaled(a, g, d, n) <= Mul(Mul(a, g), n) / d
  {
    MulMonotone(f, g, a);
    MulAtLeast(a * g, n);
    DivThenMulBelow(a * g, d, n);
  }

  /**
   * IsValid as written accepts an ACK timeout so close to 2^32 that the
   * exchange lifetime wraps to less than the ACK timeout itself; the
   * corrected check rejects it.
   */
  lemma IsValidAcceptsWrappingLifetime()
    ensures var p := TxParameters(4294867295, 1, 1, 0);
            IsValid(p) && !IsValidCorrected(p)
            && CalculateExchangeLifetime(p) == 99999 && CalculateExchangeLifetime(p) < p.ackTimeout
  {
    var p := TxParameters(4294867295, 1, 1, 0);
    assert RetransmitFactor(0) == 1;
    assert LifetimeProduct(p) == 4294867295;
    assert LifetimeBound(p) == 4294867295;
    assert CalculateSpan(p, 0) == 0;
  }
}
