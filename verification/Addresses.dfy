/** Addresses and connection tuples, and the order the tables compare them by
    (include/common.h, src/core/logger.c, src/storage/hashtable.c). */
module Addresses {
  type Byte = b: int | 0 <= b < 0x100
  type Port = p: int | 0 <= p < 0x1_0000

  const AF_INET: Byte := 2
  const AF_INET6: Byte := 10

  /** The address union of ip_addr_t: sixteen bytes of storage, of which an IPv4
      address uses the first four. The rest is whatever was left there. */
  type Storage = s: seq<Byte> | |s| == 16 witness seq(16, _ => 0)

  datatype IpAddr = IpAddr(addr: Storage, family: Byte) {
    /** The bytes that are the address. */
    function Octets(): (o: seq<Byte>)
      ensures |o| == if family == AF_INET then 4 else 16
    {
      if family == AF_INET then addr[..4] else addr
    }

    function Key(): IpKey {
      IpKey(family, Octets())
    }
  }

  /** What is left of an address once the unused storage is forgotten. */
  datatype IpKey = IpKey(family: Byte, octets: seq<Byte>)

  datatype ConnTuple = ConnTuple(srcIp: IpAddr, dstIp: IpAddr, srcPort: Port, dstPort: Port, protocol: Byte) {
    function Key(): TupleKey {
      TupleKey(srcIp.Key(), dstIp.Key(), srcPort, dstPort, protocol)
    }
  }

  datatype TupleKey = TupleKey(src: IpKey, dst: IpKey, srcPort: Port, dstPort: Port, protocol: Byte)

  /** memcmp over two areas of the same length. */
  function MemCmp(s: seq<Byte>, t: seq<Byte>): int
    requires |s| == |t|
  {
    if s == [] then 0
    else if s[0] != t[0] then s[0] - t[0]
    else MemCmp(s[1..], t[1..])
  }

  function IpCompare(a: IpAddr, b: IpAddr): int {
    if a.family != b.family then a.family - b.family
    else MemCmp(a.Octets(), b.Octets())
  }

  function TupleCompare(a: ConnTuple, b: ConnTuple): int {
    if a.protocol != b.protocol then a.protocol - b.protocol
    else if a.srcPort != b.srcPort then a.srcPort - b.srcPort
    else if a.dstPort != b.dstPort then a.dstPort - b.dstPort
    else
      var cmp := IpCompare(a.srcIp, b.srcIp);
      if cmp != 0 then cmp else IpCompare(a.dstIp, b.dstIp)
  }

  // ----- the comparison is the lexicographic order on the significant fields

  /** Lexicographic comparison of two sequences of numbers. */
  function LexCompare(s: seq<int>, t: seq<int>): int {
    if s == [] then (if t == [] then 0 else -1)
    else if t == [] then 1
    else if s[0] != t[0] then s[0] - t[0]
    else LexCompare(s[1..], t[1..])
  }

  function IpRank(a: IpAddr): seq<int> {
    [a.family] + a.Octets()
  }

  /** The fields that identify a connection, most significant first. */
  function TupleRank(t: ConnTuple): seq<int> {
    [t.protocol, t.srcPort, t.dstPort] + (IpRank(t.srcIp) + IpRank(t.dstIp))
  }

  lemma {:induction false} LexZero(s: seq<int>, t: seq<int>)
    ensures LexCompare(s, t) == 0 <==> s == t
  {
    if s != [] && t != [] && s[0] == t[0] {
      LexZero(s[1..], t[1..]);
      assert s == [s[0]] + s[1..] && t == [t[0]] + t[1..];
    }
  }

  lemma {:induction false} LexAntisymmetric(s: seq<int>, t: seq<int>)
    ensures LexCompare(s, t) == -LexCompare(t, s)
  {
    if s != [] && t != [] && s[0] == t[0] {
      LexAntisymmetric(s[1..], t[1..]);
    }
  }

  lemma {:induction false} LexTransitive(s: seq<int>, t: seq<int>, u: seq<int>)
    requires LexCompare(s, t) <= 0 && LexCompare(t, u) <= 0
    ensures LexCompare(s, u) <= 0
  {
    if s != [] && t != [] && u != [] && s[0] == t[0] == u[0] {
      LexTransitive(s[1..], t[1..], u[1..]);
    }
  }

  lemma {:induction false} LexConcat(s: seq<int>, t: seq<int>, s2: seq<int>, t2: seq<int>)
    requires |s| == |t|
    ensures LexCompare(s + s2, t + t2) ==
            if LexCompare(s, t) != 0 then LexCompare(s, t) else LexCompare(s2, t2)
  {
    if s == [] {
      assert s + s2 == s2 && t + t2 == t2;
    } else {
      assert (s + s2)[1..] == s[1..] + s2 && (t + t2)[1..] == t[1..] + t2;
      LexConcat(s[1..], t[1..], s2, t2);
    }
  }

  /** Ranks of different length already differ in their first number, the family. */
  lemma LexPair(s: seq<int>, t: seq<int>, s2: seq<int>, t2: seq<int>)
    requires s != [] && t != []
    requires s[0] == t[0] ==> |s| == |t|
    ensures LexCompare(s + s2, t + t2) ==
            if LexCompare(s, t) != 0 then LexCompare(s, t) else LexCompare(s2, t2)
  {
    if s[0] == t[0] {
      LexConcat(s, t, s2, t2);
    } else {
      assert (s + s2)[0] == s[0] && (t + t2)[0] == t[0];
    }
  }

  lemma LexAfterThree(s: seq<int>, s2: seq<int>, t: seq<int>, t2: seq<int>)
    requires |s| == |t| == 3
    ensures LexCompare(s + s2, t + t2) ==
            if s[0] != t[0] then s[0] - t[0] else if s[1] != t[1] then s[1] - t[1]
            else if s[2] != t[2] then s[2] - t[2] else LexCompare(s2, t2)
  {
    LexConcat(s, t, s2, t2);
    assert LexCompare(s[1..][1..], t[1..][1..]) == s[2] - t[2];
  }

  lemma {:induction false} MemCmpIsLex(s: seq<Byte>, t: seq<Byte>)
    requires |s| == |t|
    ensures MemCmp(s, t) == LexCompare(s, t)
  {
    if s != [] {
      MemCmpIsLex(s[1..], t[1..]);
    }
  }

  lemma IpCompareIsLex(a: IpAddr, b: IpAddr)
    ensures IpCompare(a, b) == LexCompare(IpRank(a), IpRank(b))
  {
    assert IpRank(a)[1..] == a.Octets() && IpRank(b)[1..] == b.Octets();
    if a.family == b.family {
      MemCmpIsLex(a.Octets(), b.Octets());
    }
  }

  lemma TupleCompareIsLex(a: ConnTuple, b: ConnTuple)
    ensures TupleCompare(a, b) == LexCompare(TupleRank(a), TupleRank(b))
  {
    LexPair(IpRank(a.srcIp), IpRank(b.srcIp), IpRank(a.dstIp), IpRank(b.dstIp));
    IpCompareIsLex(a.srcIp, b.srcIp);
    IpCompareIsLex(a.dstIp, b.dstIp);
    LexAfterThree([a.protocol, a.srcPort, a.dstPort], IpRank(a.srcIp) + IpRank(a.dstIp),
                  [b.protocol, b.srcPort, b.dstPort], IpRank(b.srcIp) + IpRank(b.dstIp));
  }

  /** The comparison of two addresses finds them equal exactly when family and address bytes agree. */
  lemma IpCompareZero(a: IpAddr, b: IpAddr)
    ensures IpCompare(a, b) == 0 <==> a.Key() == b.Key()
  {
    IpCompareIsLex(a, b);
    LexZero(IpRank(a), IpRank(b));
    if IpRank(a) == IpRank(b) {
      assert IpRank(a)[0] == IpRank(b)[0];
      assert a.Octets() == IpRank(a)[1..] == IpRank(b)[1..] == b.Octets();
    }
  }

  /** conn_tuple_compare is a total order on connections. Its zero case means same protocol,
      same ports and same address bytes: the unused storage never matters. */
  lemma TupleCompareTotalOrder(a: ConnTuple, b: ConnTuple, c: ConnTuple)
    ensures TupleCompare(a, b) == 0 <==> a.Key() == b.Key()
    ensures TupleCompare(a, b) == -TupleCompare(b, a)
    ensures TupleCompare(a, b) <= 0 && TupleCompare(b, c) <= 0 ==> TupleCompare(a, c) <= 0
  {
    IpCompareZero(a.srcIp, b.srcIp);
    IpCompareZero(a.dstIp, b.dstIp);
    TupleCompareIsLex(a, b);
    TupleCompareIsLex(b, a);
    LexAntisymmetric(TupleRank(a), TupleRank(b));
    TupleCompareIsLex(b, c);
    TupleCompareIsLex(a, c);
    if TupleCompare(a, b) <= 0 && TupleCompare(b, c) <= 0 {
      LexTransitive(TupleRank(a), TupleRank(b), TupleRank(c));
    }
  }

  /** conn_tuple_compare as the tables use it: only its zero case matters to them. */
  method CompareTuples(a: ConnTuple, b: ConnTuple) returns (cmp: int)
    ensures cmp == 0 <==> a.Key() == b.Key()
  {
    TupleCompareTotalOrder(a, b, b);
    cmp := TupleCompare(a, b);
  }

  /** ip_addr_compare as its callers use it: they only ask whether it is zero. */
  method CompareAddresses(a: IpAddr, b: IpAddr) returns (cmp: int)
    ensures cmp == 0 <==> a.Key() == b.Key()
  {
    IpCompareZero(a, b);
    cmp := IpCompare(a, b);
  }
}
