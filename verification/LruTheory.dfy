/** What the connection cache does, as operations on the list of its entries, most recent first. */
module LruTheory {
  import opened Addresses
  import opened ConnTable
  import opened Lists

  /** An entry as a value. */
  datatype Conn = Conn(tuple: ConnTuple, state: TcpState, firstSeen: int, lastSeen: int, packets: nat, bytes: nat) {
    function Key(): TupleKey {
      tuple.Key()
    }
  }

  function Fresh(tuple: ConnTuple, now: int): Conn {
    Conn(tuple, Closed, now, now, 0, 0)
  }

  /** Where the entry with this key stands; the length of the list when there is none. */
  function IndexOf(v: seq<Conn>, x: TupleKey): (k: nat)
    ensures k <= |v|
    ensures k < |v| ==> v[k].Key() == x
    ensures forall i :: 0 <= i < k ==> v[i].Key() != x
  {
    if v == [] || v[0].Key() == x then 0 else 1 + IndexOf(v[1..], x)
  }

  /** A hit moves the entry to the front; a miss puts a fresh one there and, in a full cache, loses the last. */
  function Touch(v: seq<Conn>, t: ConnTuple, now: int, cap: nat): seq<Conn> {
    var k := IndexOf(v, t.Key());
    if k < |v| then [v[k].(lastSeen := now)] + Without(v, k) else Prefix([Fresh(t, now)] + v, cap)
  }

  function Removed(v: seq<Conn>, x: TupleKey): seq<Conn> {
    var k := IndexOf(v, x);
    if k < |v| then Without(v, k) else v
  }

  ghost predicate DistinctKeys(v: seq<Conn>) {
    forall i, j :: 0 <= i < j < |v| ==> v[i].Key() != v[j].Key()
  }

  lemma IndexOfUnique(v: seq<Conn>, x: TupleKey, k: nat)
    requires DistinctKeys(v) && k < |v| && v[k].Key() == x
    ensures IndexOf(v, x) == k
  {
  }

  const PROTO_ICMP: Byte := 1
  const PROTO_TCP: Byte := 6
  const PROTO_UDP: Byte := 17

  /** How long an entry may stay idle. */
  function Timeout(protocol: Byte, state: TcpState): int {
    if protocol == PROTO_TCP then
      match state
      case SynSent => 30
      case SynReceived => 30
      case Established => 7200
      case FinWait => 30
      case CloseWait => 30
      case Closed => 30
    else if protocol == PROTO_UDP then 60
    else if protocol == PROTO_ICMP then 10
    else 60
  }

  predicate Expired(c: Conn, now: int) {
    now - c.lastSeen > Timeout(c.tuple.protocol, c.state)
  }

  /** The entries that have not expired, in order. */
  function Live(v: seq<Conn>, now: int): (r: seq<Conn>)
    ensures |r| <= |v|
  {
    if v == [] then []
    else (if Expired(v[0], now) then [] else [v[0]]) + Live(v[1..], now)
  }

  /** A walk from the tail has cleaned the entries from position k on. */
  ghost predicate Cleaned(v: seq<Conn>, w: seq<Conn>, k: nat, now: int) {
    k <= |v| && k <= |w| && w[..k] == v[..k] && w[k..] == Live(v[k..], now)
  }

  lemma CleanStart(v: seq<Conn>, now: int)
    ensures Cleaned(v, v, |v|, now)
    ensures forall w :: Cleaned(v, w, 0, now) ==> w == Live(v, now)
  {
    assert v[0..] == v;
    forall w | Cleaned(v, w, 0, now)
      ensures w == Live(v, now)
    {
      assert w[0..] == w;
    }
  }

  lemma CleanStep(v: seq<Conn>, w: seq<Conn>, k: nat, now: int)
    requires 0 < k && Cleaned(v, w, k, now)
    ensures if Expired(w[k - 1], now) then Cleaned(v, Without(w, k - 1), k - 1, now) else Cleaned(v, w, k - 1, now)
    ensures |Without(w, k - 1)| == |w| - 1
  {
    assert w[k - 1] == w[..k][k - 1] == v[k - 1];
    assert w[..k - 1] == w[..k][..k - 1] == v[..k][..k - 1] == v[..k - 1];
    assert v[k - 1..][1..] == v[k..];
    assert w[k - 1..] == [w[k - 1]] + w[k..];
    assert Without(w, k - 1)[k - 1..] == w[k..];
  }
}
