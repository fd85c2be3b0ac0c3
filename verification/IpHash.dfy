/** The bucket hash of addresses, shared by src/filter/ratelimit.c and src/storage/ipset.c. */
module IpHash {
  import opened Addresses
  import opened Bits
  import opened Endian

  /** An IPv4 address is its own hash, an IPv6 address the exclusive or of its four words. */
  function HashOf(k: IpKey): Word {
    if |k.octets| == 4 then BigEndian(k.octets)
    else if |k.octets| == 16 then XorOfWords(k.octets, 4)
    else 0
  }

  /** The exclusive or of the first n words. */
  function XorOfWords(s: seq<Byte>, n: nat): Word
    requires 4 * n <= |s|
  {
    if n == 0 then 0 else Xor32(XorOfWords(s, n - 1), LittleEndian(s[4 * (n - 1)..4 * n]))
  }

  /** ip_hash_simple and ipset_hash, before the remainder is taken. */
  method HashAddress(ip: IpAddr) returns (hash: Word)
    ensures hash == HashOf(ip.Key())
  {
    hash := 0;
    if ip.family == AF_INET {
      hash := BigEndian(ip.addr[..4]);
    } else {
      for i := 0 to 4
        invariant hash == XorOfWords(ip.addr, i)
      {
        hash := Xor32(hash, LittleEndian(ip.addr[4 * i..4 * i + 4]));
      }
    }
  }
}
