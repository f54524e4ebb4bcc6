/** IP addresses, endpoints and advertised services (src/infra/network/addresses.hpp). */
module Addresses {
  import opened Common
  import opened Bits

  datatype AddressType = IPv4 | IPv6

  /** An IPv4 address is kept as its 32-bit value, an IPv6 address as its 16 network-order bytes. */
  datatype IPAddress = V4(value: U32) | V6(bytes: Bytes16) {
    function Type(): AddressType {
      if V4? then IPv4 else IPv6
    }

    predicate IsUnspecified() {
      match this
      case V4(n) => n == 0
      case V6(b) => forall i | 0 <= i < 16 :: b[i] == 0
    }

    predicate IsLoopback() {
      match this
      case V4(n) => n / 0x100_0000 == 127
      case V6(b) => (forall i | 0 <= i < 15 :: b[i] == 0) && b[15] == 1
    }

    /** `is_any` and `is_unspecified` coincide for both families. */
    predicate IsValid() {
      !IsUnspecified()
    }

    predicate IsRoutable() {
      IsValid() && !IsLoopback() && !Reservation().Unroutable()
    }

    /** Later tests overwrite earlier ones, so the chains below test the last one first. */
    function Reservation(): ReservationType {
      if IsUnspecified() then NotReserved
      else match this
        case V4(n) => ReservationV4(n / 0x100_0000, n / 0x1_0000 % 0x100, n / 0x100 % 0x100)
        case V6(b) => ReservationV6(b)
    }
  }

  datatype ReservationType =
    | NotReserved | RFC1918 | RFC2544 | RFC6598 | RFC5737 | RFC3927
    | RFC3849 | RFC3964 | RFC4193 | RFC4380 | RFC4843 | RFC4862 | RFC6052 | RFC6145
  {
    predicate Unroutable() {
      this in {RFC1918, RFC2544, RFC3927, RFC4862, RFC6598, RFC5737, RFC4193, RFC4843, RFC3849}
    }
  }

  function ReservationV4(b0: int, b1: int, b2: int): ReservationType {
    if b0 == 169 && b1 == 254 then RFC3927
    else if (b0 == 192 && b1 == 0 && b2 == 2) || (b0 == 198 && b1 == 51 && b2 == 100)
            || (b0 == 203 && b1 == 0 && b2 == 113) then RFC5737
    else if b0 == 100 && 64 <= b1 <= 127 then RFC6598
    else if b0 == 192 && (b1 == 18 || b1 == 19) then RFC2544
    else if b0 == 10 || (b0 == 172 && 16 <= b1 <= 31) || (b0 == 192 && b1 == 168) then RFC1918
    else NotReserved
  }

  function ReservationV6(b: Bytes16): ReservationType {
    if b[0] == 0 && b[1] == 0 && b[2] == 0xFF && b[3] == 0xFF && (forall i | 4 <= i < 16 :: b[i] == 0) then RFC6145
    else if b[0] == 0 && b[1] == 0x64 && b[2] == 0xFF && b[3] == 0x9B then RFC6052
    else if b[0] == 0xFE && b[1] == 0x80 then RFC4862
    else if b[0] == 0x20 && b[1] == 0x01 && b[2] == 0 && b[3] / 16 == 1 then RFC4843
    else if b[0] == 0x20 && b[1] == 0x01 && b[2] == 0 && b[3] == 0 then RFC4380
    else if b[0] == 0xFC || b[0] == 0xFD then RFC4193
    else if b[0] == 0x20 && b[1] == 0x02 then RFC3964
    else if b[0] == 0x20 && b[1] == 0x01 && b[2] == 0x0D && b[3] == 0xB8 then RFC3849
    else NotReserved
  }

  predicate InRange(n: int, first: int, size: int) {
    first <= n < first + size
  }

  /** An IPv4 address is routable exactly if it is in none of these ranges. */
  lemma RoutableV4(n: U32)
    ensures V4(n).IsRoutable() <==>
      && n != 0
      && !InRange(n, 0x0A00_0000, 0x100_0000)  // 10.0.0.0/8
      && !InRange(n, 0x6440_0000, 0x40_0000)   // 100.64.0.0/10
      && !InRange(n, 0x7F00_0000, 0x100_0000)  // 127.0.0.0/8
      && !InRange(n, 0xA9FE_0000, 0x1_0000)    // 169.254.0.0/16
      && !InRange(n, 0xAC10_0000, 0x10_0000)   // 172.16.0.0/12
      && !InRange(n, 0xC000_0200, 0x100)       // 192.0.2.0/24
      && !InRange(n, 0xC012_0000, 0x2_0000)    // 192.18.0.0/15
      && !InRange(n, 0xC0A8_0000, 0x1_0000)    // 192.168.0.0/16
      && !InRange(n, 0xC633_6400, 0x100)       // 198.51.100.0/24
      && !InRange(n, 0xCB00_7100, 0x100)       // 203.0.113.0/24
  {
    var b0, b1, b2 := n / 0x100_0000, n / 0x1_0000 % 0x100, n / 0x100 % 0x100;
    Octets(n);
  }

  lemma Octets(n: U32)
    ensures n == n / 0x100_0000 * 0x100_0000 + n / 0x1_0000 % 0x100 * 0x1_0000 + n / 0x100 % 0x100 * 0x100 + n % 0x100
    ensures n / 0x100_0000 < 0x100
  {
    DivDiv(n, 0x100, 0x100);
    DivDiv(n, 0x1_0000, 0x100);
    assert n == n / 0x100 * 0x100 + n % 0x100;
    assert n / 0x100 == n / 0x1_0000 * 0x100 + n / 0x100 % 0x100;
    assert n / 0x1_0000 == n / 0x100_0000 * 0x100 + n / 0x1_0000 % 0x100;
  }

  /** An IPv6 address is routable unless it is ::, ::1, or in fe80::/16, fc00::/7, 2001:10::/28 or 2001:db8::/32. */
  lemma RoutableV6(b: Bytes16)
    ensures V6(b).IsRoutable() <==>
      && !((forall i | 0 <= i < 15 :: b[i] == 0) && b[15] <= 1)
      && b[..2] != [0xFE, 0x80]
      && b[0] != 0xFC && b[0] != 0xFD
      && !(b[..3] == [0x20, 0x01, 0x00] && 0x10 <= b[3] < 0x20)
      && b[..4] != [0x20, 0x01, 0x0D, 0xB8]
  {
    assert b[..2] == [b[0], b[1]] && b[..3] == [b[0], b[1], b[2]] && b[..4] == [b[0], b[1], b[2], b[3]];
  }

  datatype IPEndpoint = IPEndpoint(address: IPAddress, port: U16)

  /** `time` counts seconds since the epoch. */
  datatype NodeService = NodeService(time: int, services: U64, endpoint: IPEndpoint)

  const TIME_INIT := 100_000_000
}
