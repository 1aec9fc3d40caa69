/**
 * IP addresses and prefixes as the trie sees them: an address family and a
 * sequence of bits, most significant first. The textual forms, the octet
 * layout and the "host bits must be zero" canonicalisation of the prefix type
 * are not modelled; a prefix is identified by its family and its leading bits,
 * which is exactly its (address, length) pair once canonical.
 */
module Ip {

  datatype Family = V4 | V6

  /** Number of address bits of a family. */
  function Width(f: Family): nat
  {
    match f
    case V4 => 32
    case V6 => 128
  }

  datatype Address = Address(family: Family, bits: seq<bool>)

  /** `std::net::IpAddr`: a full-width address of either family. */
  type IpAddr = a: Address | |a.bits| == Width(a.family)
    witness Address(V4, seq(32, _ => false))

  datatype Net = Net(family: Family, bits: seq<bool>)

  /** `routing::prefix::Prefix`: a family and at most `Width` leading bits. */
  type Prefix = p: Net | |p.bits| <= Width(p.family)
    witness Net(V4, [])

  /** Prefix length in bits. */
  function Len(p: Prefix): nat
  {
    |p.bits|
  }

  /** The prefix contains the address: same family, and its bits lead the address's bits. */
  predicate Covers(p: Prefix, a: IpAddr)
  {
    p.family == a.family && p.bits <= a.bits
  }

  /** The only prefix of length `k` that can contain `a`. */
  function PrefixOf(a: IpAddr, k: nat): (p: Prefix)
    requires k <= Width(a.family)
    ensures Len(p) == k && Covers(p, a)
    ensures forall q: Prefix :: Covers(q, a) && Len(q) == k ==> q == p
  {
    Net(a.family, a.bits[..k])
  }
}
