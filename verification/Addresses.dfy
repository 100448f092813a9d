/** Socket addresses, the comparisons made on them, and the hash that indexes the server list.

    Addresses are kept as the bytes that travel on the wire. The C code reads groups of them as
    unsigned integers; `Load` is that read on a little-endian host.
 */
module Addresses {
  import opened Basics

  type Quad = s: seq<byte> | |s| == 4 witness [0, 0, 0, 0]
  type Octet = s: seq<byte> | |s| == 8 witness [0, 0, 0, 0, 0, 0, 0, 0]

  /** `port` is the number in host order. An IPv6 address is its subnet half and its host half. */
  datatype Address =
    | IPv4(ip: Quad, port: uint16)
    | IPv6(subnet: Octet, host: Octet, port: uint16, scope: uint32)

  const MAX_HASH_SIZE := 16

  function Load(s: seq<byte>): nat {
    if s == [] then 0 else s[0] + 0x100 * Load(s[1..])
  }

  /** The port as the raw 16-bit field of the socket address. */
  function RawPort(port: uint16): uint16 {
    port % 0x100 * 0x100 + port / 0x100
  }

  /** The part of an address that the per-address quota is about. */
  datatype Public = Public4(ip: Quad) | Public6(subnet: Octet)

  function PublicOf(a: Address): Public {
    match a
    case IPv4(ip, _) => Public4(ip)
    case IPv6(subnet, _, _, _) => Public6(subnet)
  }

  /** Sv_AddressHash: the value that is folded into a table index. */
  function HashInput(a: Address, hashPorts: bool): nat {
    var base := match a
      case IPv4(ip, _) => Load(ip)
      case IPv6(subnet, _, _, _) => Xor(Load(subnet[..4]), Load(subnet[4..]));
    if hashPorts then Xor(base, RawPort(a.port)) else base
  }

  /** Sv_AddressHash: shifts and masks of unsigned integers written as divisions and remainders. */
  function Hash(a: Address, hashPorts: bool, hashSize: nat): (h: nat)
    ensures h < Pow2(hashSize)
  {
    var h := HashInput(a, hashPorts);
    var merged := Xor(h % 0x1_0000, h / 0x1_0000);
    Xor(merged, merged / Pow2(hashSize)) % Pow2(hashSize)
  }

  /** A cell of one of the two hash tables. */
  datatype Bucket = Bucket(v6: bool, index: nat)

  function BucketOf(a: Address, hashPorts: bool, hashSize: nat): (b: Bucket)
    ensures b.index < Pow2(hashSize)
  {
    Bucket(a.IPv6?, Hash(a, hashPorts, hashSize))
  }

  /** Unless ports are hashed, every server of one public address falls into one bucket. */
  lemma SamePublicSameBucket(a: Address, b: Address, hashSize: nat)
    requires PublicOf(a) == PublicOf(b)
    ensures BucketOf(a, false, hashSize) == BucketOf(b, false, hashSize)
  {
  }

  /** Sv_SameIPv4Addr and Sv_SameIPv6Addr: the two verdicts returned for addresses of one family. */
  method SameAddress(a: Address, b: Address) returns (same: bool, samePublic: bool)
    requires a.IPv4? == b.IPv4?
    ensures same <==> a == b
    ensures samePublic <==> PublicOf(a) == PublicOf(b)
  {
    same := false;
    if a.IPv4? {
      samePublic := a.ip == b.ip;
      if samePublic && a.port == b.port {
        same := true;
      }
    } else {
      samePublic := a.subnet == b.subnet;
      if samePublic && a.scope == b.scope && a.port == b.port && a.host == b.host {
        same := true;
      }
    }
  }
}
