/** What each operation of the connection cache does to its entries, position by position and field by field. */
module LruRecords {
  import opened Addresses
  import opened ConnTable
  import opened Lists
  import opened LruTheory

  // ----- an access

  /** The entry at position k comes to the front with a new last_seen and everything else it had;
      those that stood before it move back by one place. */
  ghost predicate BroughtForward(v: seq<Conn>, w: seq<Conn>, k: nat, now: int) {
    && k < |v| && |w| == |v|
    && w[0] == Conn(v[k].tuple, v[k].state, v[k].firstSeen, now, v[k].packets, v[k].bytes)
    && forall i :: 0 < i < |v| ==> w[i] == v[if i <= k then i - 1 else i]
  }

  /** An entry without packets, created and last seen now, stands in front; the others follow as they
      were, in a full cache all but the last. */
  ghost predicate PutInFront(v: seq<Conn>, w: seq<Conn>, t: ConnTuple, now: int, cap: nat) {
    && |w| == (if |v| < cap then |v| + 1 else cap) && w != []
    && w[0] == Conn(t, Closed, now, now, 0, 0)
    && forall i :: 0 < i < |w| ==> w[i] == v[i - 1]
  }

  /** No entry has this key. */
  ghost predicate Absent(v: seq<Conn>, x: TupleKey) {
    forall i :: 0 <= i < |v| ==> v[i].Key() != x
  }

  ghost predicate AccessLeaves(v: seq<Conn>, w: seq<Conn>, t: ConnTuple, now: int, cap: nat) {
    && (forall k :: 0 <= k < |v| && v[k].Key() == t.Key() ==> BroughtForward(v, w, k, now))
    && (Absent(v, t.Key()) ==> PutInFront(v, w, t, now, cap))
  }

  lemma TouchHit(v: seq<Conn>, t: ConnTuple, now: int, cap: nat, k: nat)
    requires DistinctKeys(v) && k < |v| && v[k].Key() == t.Key()
    ensures BroughtForward(v, Touch(v, t, now, cap), k, now)
  {
    hide Conn.Key, ConnTuple.Key, Without;
    IndexOfUnique(v, t.Key(), k);
    WithoutAt(v, k);
    var w := Touch(v, t, now, cap);
    forall i | 0 < i < |v|
      ensures w[i] == v[if i <= k then i - 1 else i]
    {
      assert w[i] == Without(v, k)[i - 1];
    }
  }

  lemma TouchMiss(v: seq<Conn>, t: ConnTuple, now: int, cap: nat)
    requires Absent(v, t.Key()) && |v| <= cap && cap > 0
    ensures PutInFront(v, Touch(v, t, now, cap), t, now, cap)
  {
    hide Conn.Key, ConnTuple.Key;
  }

  /** An access keeps the record of every entry but for one last_seen, and loses none but, in a full
      cache and for a connection it does not know, the last. */
  lemma TouchLeaves(v: seq<Conn>, t: ConnTuple, now: int, cap: nat)
    requires DistinctKeys(v) && |v| <= cap && cap > 0
    ensures AccessLeaves(v, Touch(v, t, now, cap), t, now, cap)
  {
    hide Conn.Key, ConnTuple.Key, Touch, BroughtForward, PutInFront, Absent, DistinctKeys;
    forall k | 0 <= k < |v| && v[k].Key() == t.Key()
      ensures BroughtForward(v, Touch(v, t, now, cap), k, now)
    {
      TouchHit(v, t, now, cap, k);
    }
    if Absent(v, t.Key()) {
      TouchMiss(v, t, now, cap);
    }
  }

  // ----- a removal

  /** The entry at position k is gone; those behind it move up, the others stay. */
  ghost predicate TakenOut(v: seq<Conn>, w: seq<Conn>, k: nat) {
    && k < |v| && |w| == |v| - 1
    && forall i :: 0 <= i < |w| ==> w[i] == v[if i < k then i else i + 1]
  }

  ghost predicate RemovalLeaves(v: seq<Conn>, w: seq<Conn>, x: TupleKey) {
    && (forall k :: 0 <= k < |v| && v[k].Key() == x ==> TakenOut(v, w, k))
    && (Absent(v, x) ==> w == v)
  }

  /** A removal takes out the entry with this key and no other. */
  lemma RemovedLeaves(v: seq<Conn>, x: TupleKey)
    requires DistinctKeys(v)
    ensures RemovalLeaves(v, Removed(v, x), x)
  {
    hide Conn.Key, Without;
    forall k | 0 <= k < |v| && v[k].Key() == x
      ensures TakenOut(v, Removed(v, x), k)
    {
      IndexOfUnique(v, x, k);
      WithoutAt(v, k);
    }
  }

  // ----- a clean-up

  /** How many seconds an entry may stay idle: 7200 for an established TCP connection, 30 for any other
      TCP connection, 10 for ICMP, 60 for UDP and every other protocol. */
  ghost predicate Recent(c: Conn, now: int) {
    now - c.lastSeen <=
      if c.tuple.protocol == 6 then (if c.state == Established then 7200 else 30)
      else if c.tuple.protocol == 1 then 10
      else 60
  }

  lemma RecentIsUnexpired(c: Conn, now: int)
    ensures Recent(c, now) <==> !Expired(c, now)
  {
  }

  /** Exactly the entries that have not been idle for too long stay, as they are. */
  ghost predicate CleanupLeaves(v: seq<Conn>, w: seq<Conn>, now: int) {
    forall c: Conn :: c in w <==> c in v && Recent(c, now)
  }

  lemma {:induction false} LiveLeaves(v: seq<Conn>, now: int)
    ensures CleanupLeaves(v, Live(v, now), now)
  {
    hide Recent, Expired;
    if v != [] {
      LiveLeaves(v[1..], now);
      RecentIsUnexpired(v[0], now);
      assert v == [v[0]] + v[1..];
    }
  }
}
