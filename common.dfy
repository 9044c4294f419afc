/**
 * Shared vocabulary of the model: fixed-width unsigned integers with explicit
 * wrap-around, the OpenThread error codes the modelled code returns, and an
 * option type for nullable pointers.
 */
module Common {

  type uint8 = x: int | 0 <= x < 0x100
  type uint16 = x: int | 0 <= x < 0x1_0000
  type uint32 = x: int | 0 <= x < 0x1_0000_0000

  const Uint16Max: uint16 := 0xFFFF
  const Uint32Max: uint32 := 0xFFFF_FFFF

  /** Unsigned C arithmetic: the value truncated to 8, 16 or 32 bits. */
  function Wrap8(x: int): uint8 { x % 0x100 }
  function Wrap16(x: int): uint16 { x % 0x1_0000 }
  function Wrap32(x: int): uint32 { x % 0x1_0000_0000 }

  /** Truncation to 32 bits of a value at most one wrap away from the range. */
  lemma Wrap32Near(x: int)
    requires -0x1_0000_0000 <= x < 0x2_0000_0000
    ensures Wrap32(x) == if x < 0 then x + 0x1_0000_0000 else if x < 0x1_0000_0000 then x else x - 0x1_0000_0000
  {
  }

  /** Adding one after truncating to 8 bits truncates like adding one before. */
  lemma Wrap8Next(x: int)
    ensures Wrap8(Wrap8(x) + 1) == Wrap8(x + 1)
  {
    var q, r := x / 0x100, x % 0x100;
    assert x == 0x100 * q + r;
    if r < 0xff {
      Mod8Of(x + 1, q, r + 1);
    } else {
      Mod8Of(x + 1, q + 1, 0);
    }
  }

  lemma Mod8Of(x: int, q: int, r: int)
    requires 0 <= r < 0x100 && x == 0x100 * q + r
    ensures x % 0x100 == r
  {
    var q', r' := x / 0x100, x % 0x100;
    assert 0x100 * (q - q') == r' - r;
  }

  /** `1U << n` for a shift that C defines. */
  function Pow2(n: nat): (r: nat)
    ensures r >= 1
  {
    if n == 0 then 1 else 2 * Pow2(n - 1)
  }

  lemma {:induction false} Pow2Monotone(n: nat, k: nat)
    requires n <= k
    ensures Pow2(n) <= Pow2(k)
  {
    if n < k {
      Pow2Monotone(n, k - 1);
    }
  }

  lemma {:induction false} Pow2Add(a: nat, b: nat)
    ensures Pow2(a + b) == Pow2(a) * Pow2(b)
  {
    if a > 0 {
      Pow2Add(a - 1, b);
    }
  }

  lemma Pow2Bound(n: nat)
    requires n <= 31
    ensures Pow2(n) <= 0x8000_0000
  {
    Pow2Monotone(n, 31);
    assert Pow2(8) == 0x100;
    Pow2Add(8, 8);
    Pow2Add(16, 8);
    Pow2Add(24, 7);
  }

  // Unbounded arithmetic, kept in small functions so that the solver reasons
  // about products only where a lemma asks it to.

  function Mul(x: nat, y: nat): nat { x * y }

  lemma MulDivCancel(a: nat, b: nat)
    requires a > 0
    ensures (a * b) / a == b
  {
    var q, r := (a * b) / a, (a * b) % a;
    assert a * b == a * q + r && 0 <= r < a;
    var d := b - q;
    assert a * d == r by {
      assert a * d == a * b - a * q;
    }
  }

  lemma MulOfQuotientBelow(x: nat, a: nat)
    requires a > 0
    ensures a * (x / a) <= x
  {
  }

  lemma DivAtMost(x: nat, d: nat)
    requires d >= 1
    ensures x / d <= x
  {
    MulOfQuotientBelow(x, d);
    MulAtLeast(x / d, d);
  }

  lemma MulAtLeast(x: nat, k: nat)
    requires k >= 1
    ensures x * k >= x
  {
  }

  lemma MulMonotone(x: nat, y: nat, k: nat)
    requires x <= y
    ensures k * x <= k * y && x * k <= y * k
  {
  }

  lemma DivMonotone(x: nat, y: nat, d: nat)
    requires x <= y && d > 0
    ensures x / d <= y / d
  {
    var qx, qy := x / d, y / d;
    if qx > qy {
      MulMonotone(qy + 1, qx, d);
      assert false;
    }
  }

  /** The sequence without its element at index i. */
  function RemoveAt<T>(s: seq<T>, i: nat): (r: seq<T>)
    requires i < |s|
    ensures |r| == |s| - 1
    ensures forall k | 0 <= k < |r| :: r[k] == if k < i then s[k] else s[k + 1]
  {
    s[..i] + s[i + 1..]
  }

  lemma ConcatAssociates<T>(a: seq<T>, b: seq<T>, c: seq<T>)
    ensures (a + b) + c == a + (b + c)
  {
  }

  const HalfSpace: int := 0x8000_0000

  /**
   * Serial-number order on 32-bit values (SerialNumber::IsLess, and the
   * comparison of TimeMilli values): a precedes b when a - b is negative
   * as an int32.
   */
  predicate SerialLess(a: uint32, b: uint32)
  {
    Wrap32(a - b) >= HalfSpace
  }

  /** A millisecond timer: stopped, or due to fire at a time. */
  datatype Timer = Stopped | FiresAt(time: uint32)

  /** Two times in the same half of the 32-bit clock: a precedes b, or they are equal, or b precedes a. */
  lemma SerialTrichotomy(a: uint32, b: uint32)
    ensures a == b || SerialLess(a, b) || SerialLess(b, a)
  {
    if a != b && !SerialLess(a, b) {
      assert 0 < Wrap32(a - b) < HalfSpace;
      assert Wrap32(b - a) == 0x1_0000_0000 - Wrap32(a - b);
    }
  }

  /**
   * TimerMilli::FireAtIfEarlier: a stopped timer is started at `time`, a
   * running one moves to `time` when that comes first. Either way the timer
   * fires no later than `time` and no later than it did.
   */
  function FireAtIfEarlier(timer: Timer, time: uint32): (r: Timer)
    ensures r.FiresAt?
    ensures r.time == time || SerialLess(r.time, time)
    ensures timer.FiresAt? ==> r.time == timer.time || SerialLess(r.time, timer.time)
  {
    SerialTrichotomy(time, if timer.FiresAt? then timer.time else time);
    if timer.Stopped? || SerialLess(time, timer.time) then FiresAt(time) else timer
  }

  /** A Thread RLOC16 names a router when its child-ID bits (the low nine) are zero. */
  predicate IsRouterRloc16(rloc16: uint16)
  {
    rloc16 % 0x200 == 0
  }

  /** The router ID: the top six bits of an RLOC16. */
  function RouterIdFromRloc16(rloc16: uint16): nat
  {
    rloc16 / 0x400
  }

  /** The subset of OpenThread's `Error` enumeration returned by the modelled code. */
  datatype Error =
    | NoError
    | Failed
    | Drop
    | NoBufs
    | Busy
    | Parse
    | InvalidArgs
    | Security
    | NotImplemented
    | InvalidState
    | Abort
    | ResponseTimeout
    | Duplicated
    | NotFound
    | Pending
    | NoFrameReceived
    | NoRoute
    | Already

  /** A nullable pointer or an optional value. */
  datatype Option<T> = None | Some(value: T)
}
