/**
 * IPv4 addresses held in a 32-bit word, first octet in the least
 * significant byte (the little-endian layout of the target).
 */
module Internet {
  import opened Ints

  type IpAddress = u32

  /** Packs four octets, `ip1 + (ip2 << 8) + (ip3 << 16) + (ip4 << 24)`. */
  function Initialize(ip1: u8, ip2: u8, ip3: u8, ip4: u8): (ip: IpAddress)
    ensures ip % 0x100 == ip1
    ensures ip / 0x1_0000_0000 == 0
  {
    ip1 + ip2 * 0x100 + ip3 * 0x1_0000 + ip4 * 0x100_0000
  }

  /** Octet k of the address, `(ip >> 8k) & 0xFF`. */
  function Octet(ip: IpAddress, k: nat): (r: u8)
    requires k < 4
    ensures k == 3 ==> r == ip / 0x100_0000
  {
    Shift(ip, k) % 0x100
  }

  function Shift(ip: IpAddress, k: nat): (r: IpAddress)
    requires k < 4
    ensures r <= ip
  {
    match k
    case 0 => ip
    case 1 => ip / 0x100
    case 2 => ip / 0x1_0000
    case 3 => ip / 0x100_0000
  }

  function Ip1(ip: IpAddress): u8 { Octet(ip, 0) }
  function Ip2(ip: IpAddress): u8 { Octet(ip, 1) }
  function Ip3(ip: IpAddress): u8 { Octet(ip, 2) }
  function Ip4(ip: IpAddress): u8 { Octet(ip, 3) }

  /** The octets an address was built from are the ones read back. */
  lemma OctetsOfInitialize(ip1: u8, ip2: u8, ip3: u8, ip4: u8)
    ensures var ip := Initialize(ip1, ip2, ip3, ip4);
      Ip1(ip) == ip1 && Ip2(ip) == ip2 && Ip3(ip) == ip3 && Ip4(ip) == ip4
  {
    var ip := Initialize(ip1, ip2, ip3, ip4);
    DivModUnique(ip, 0x100, ip2 + ip3 * 0x100 + ip4 * 0x1_0000, ip1);
    DivModUnique(ip, 0x1_0000, ip3 + ip4 * 0x100, ip1 + ip2 * 0x100);
    DivModUnique(ip, 0x100_0000, ip4, ip1 + ip2 * 0x100 + ip3 * 0x1_0000);
    DivModUnique(ip / 0x100, 0x100, ip3 + ip4 * 0x100, ip2);
    DivModUnique(ip / 0x1_0000, 0x100, ip4, ip3);
  }

  /** Every address is the packing of its own four octets. */
  lemma InitializeOfOctets(ip: IpAddress)
    ensures Initialize(Ip1(ip), Ip2(ip), Ip3(ip), Ip4(ip)) == ip
  {
    var a, b, c, d := Ip1(ip), Ip2(ip), Ip3(ip), Ip4(ip);
    var s1, s2, s3 := ip / 0x100, ip / 0x1_0000, ip / 0x100_0000;
    assert ip == s1 * 0x100 + a;
    assert s1 == s2 * 0x100 + b by {
      DivModUnique(ip, 0x1_0000, s1 / 0x100, (s1 % 0x100) * 0x100 + a);
    }
    assert s2 == s3 * 0x100 + c by {
      DivModUnique(ip, 0x100_0000, s2 / 0x100, (s2 % 0x100) * 0x1_0000 + b * 0x100 + a);
    }
  }
}
