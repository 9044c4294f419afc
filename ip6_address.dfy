/**
 * IPv6 addresses as 16 bytes, with the classifications the modelled code
 * asks of them (section 2.7 of RFC 4291 for multicast, the Thread routing
 * locator format for the interface identifier).
 */
module Ip6Address {
  import opened Common

  type Address = s: seq<uint8> | |s| == 16 witness seq(16, _ => 0)

  predicate IsMulticast(a: Address) { a[0] == 0xff }

  predicate IsUnspecified(a: Address) { forall i | 0 <= i < 16 :: a[i] == 0 }

  /** The interface identifier is 0000:00ff:fe00:xxxx, a Thread locator. */
  predicate IsLocator(a: Address)
  {
    a[8] == 0 && a[9] == 0 && a[10] == 0 && a[11] == 0xff && a[12] == 0xfe && a[13] == 0
  }

  /** The 16-bit locator carried in the last two bytes of the interface identifier. */
  function Locator(a: Address): uint16 { a[14] as int * 0x100 + a[15] as int }

  /** An anycast locator (ALOC16 0xfc00 and above). */
  predicate IsAnycastLocator(a: Address) { IsLocator(a) && Locator(a) >= 0xfc00 }
}
