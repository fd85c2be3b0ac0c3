/** Theorems over whole histories of the connection cache. */
module LruTraces {
  import opened Addresses
  import opened Lists
  import opened LruTheory
  import opened Recency

  /** The connections of a cache, most recent first. */
  function Keys(v: seq<Conn>): (ks: seq<TupleKey>)
    ensures |ks| == |v| && forall i {:trigger ks[i]} :: 0 <= i < |v| ==> ks[i] == v[i].Key()
  {
    if v == [] then [] else [v[0].Key()] + Keys(v[1..])
  }

  lemma {:induction false} KeysOfWithout(v: seq<Conn>, k: nat)
    requires k < |v|
    ensures Keys(Without(v, k)) == Without(Keys(v), k)
  {
    assert Keys(v) == [v[0].Key()] + Keys(v[1..]);
    if k == 0 {
      assert Without(v, 0) == v[1..];
    } else {
      KeysOfWithout(v[1..], k - 1);
      assert Without(v, k) == [v[0]] + Without(v[1..], k - 1);
    }
  }

  lemma KeysOfPrefix(c: Conn, v: seq<Conn>, n: nat)
    ensures Keys(Prefix([c] + v, n)) == Prefix([c.Key()] + Keys(v), n)
  {
    hide Conn.Key, Keys;
    forall i | 0 <= i < |Prefix([c] + v, n)|
      ensures Keys(Prefix([c] + v, n))[i] == Prefix([c.Key()] + Keys(v), n)[i]
    {
      assert Prefix([c] + v, n)[i] == if i == 0 then c else v[i - 1];
    }
  }

  lemma DistinctIsNoRepeats(v: seq<Conn>)
    ensures DistinctKeys(v) <==> NoRepeats(Keys(v))
  {
    hide Conn.Key, Keys;
    if DistinctKeys(v) {
      forall i, j | 0 <= i < j < |v|
        ensures Keys(v)[i] != Keys(v)[j]
      {
      }
    } else {
      var i, j :| 0 <= i < j < |v| && v[i].Key() == v[j].Key();
      assert Keys(v)[i] == Keys(v)[j];
    }
  }

  /** A step of the cache is move-to-front on the keys, cut off at the capacity. */
  lemma TouchMovesToFront(v: seq<Conn>, t: ConnTuple, now: int, cap: nat)
    requires DistinctKeys(v) && |v| <= cap
    ensures Keys(Touch(v, t, now, cap)) == MoveToFront(Keys(v), t.Key(), cap)
  {
    var x, k := t.Key(), IndexOf(v, t.Key());
    DistinctIsNoRepeats(v);
    if k < |v| {
      EraseOne(Keys(v), k);
      KeysOfWithout(v, k);
      KeysOfPrefix(v[k].(lastSeen := now), Without(v, k), |v|);
    } else {
      EraseAbsent(Keys(v), x);
      KeysOfPrefix(Fresh(t, now), v, cap);
    }
  }

  lemma TouchKeepsDistinct(v: seq<Conn>, t: ConnTuple, now: int, cap: nat)
    requires DistinctKeys(v) && |v| <= cap && cap > 0
    ensures DistinctKeys(Touch(v, t, now, cap)) && |Touch(v, t, now, cap)| <= cap
  {
    TouchMovesToFront(v, t, now, cap);
    DistinctIsNoRepeats(v);
    MoveToFrontNoRepeats(Keys(v), t.Key(), cap);
    DistinctIsNoRepeats(Touch(v, t, now, cap));
  }

  // ----- a history of accesses

  datatype Access = Access(tuple: ConnTuple, now: int)

  /** The cache after a history of lru_cache_get and lru_cache_update calls. */
  function Run(trace: seq<Access>, cap: nat): seq<Conn> {
    if trace == [] then []
    else
      var n := |trace| - 1;
      Touch(Run(trace[..n], cap), trace[n].tuple, trace[n].now, cap)
  }

  function Accessed(trace: seq<Access>): (ks: seq<TupleKey>)
    ensures |ks| == |trace|
  {
    if trace == [] then [] else Accessed(trace[..|trace| - 1]) + [trace[|trace| - 1].tuple.Key()]
  }

  lemma {:induction false} RunMovesToFront(trace: seq<Access>, cap: nat)
    requires cap > 0
    ensures DistinctKeys(Run(trace, cap)) && |Run(trace, cap)| <= cap
    ensures Keys(Run(trace, cap)) == Moved(Accessed(trace), cap)
  {
    if trace != [] {
      var n := |trace| - 1;
      var v, a := Run(trace[..n], cap), trace[n];
      RunMovesToFront(trace[..n], cap);
      TouchMovesToFront(v, a.tuple, a.now, cap);
      TouchKeepsDistinct(v, a.tuple, a.now, cap);
      assert Accessed(trace)[..n] == Accessed(trace[..n]);
    }
  }

  /** After any history the cache holds exactly the last cap distinct connections of the
      history, ordered by last access; no other list fits that description. */
  lemma RunIsRecencyList(trace: seq<Access>, cap: nat, ks: seq<TupleKey>)
    requires cap > 0
    ensures IsRecencyList(Accessed(trace), cap, ks) <==> ks == Keys(Run(trace, cap))
  {
    RunMovesToFront(trace, cap);
    MovedIsRecencyList(Accessed(trace), cap);
    if IsRecencyList(Accessed(trace), cap, ks) {
      RecencyListUnique(Accessed(trace), cap, ks, Keys(Run(trace, cap)));
    }
  }

  /** The entry a full cache gives up is the one accessed least recently. */
  lemma VictimIsOldest(trace: seq<Access>, a: Access, cap: nat)
    requires cap > 0
    requires |Run(trace, cap)| == cap && a.tuple.Key() !in Keys(Run(trace, cap))
    ensures var ks := Keys(Run(trace, cap));
            && Keys(Run(trace + [a], cap)) == [a.tuple.Key()] + ks[..cap - 1]
            && Outlived(Accessed(trace), ks[..cap - 1], ks[cap - 1])
  {
    hide ConnTuple.Key, Conn.Key, Touch, Keys, LastAccess;
    var v := Run(trace, cap);
    RunMovesToFront(trace, cap);
    RunIsRecencyList(trace, cap, Keys(v));
    assert (trace + [a])[..|trace|] == trace;
    TouchMovesToFront(v, a.tuple, a.now, cap);
    EraseAbsent(Keys(v), a.tuple.Key());
    assert Prefix([a.tuple.Key()] + Keys(v), cap) == [a.tuple.Key()] + Keys(v)[..cap - 1];
    forall j {:trigger LastAccess(Accessed(trace), Keys(v)[..cap - 1][j])} | 0 <= j < cap - 1
      ensures LastAccess(Accessed(trace), Keys(v)[cap - 1]) < LastAccess(Accessed(trace), Keys(v)[..cap - 1][j])
    {
    }
  }
}
