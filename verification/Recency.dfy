/** Lists of distinct keys in order of last access. */
module Recency {
  import opened Lists

  function Erase<K(==)>(s: seq<K>, x: K): seq<K> {
    if s == [] then [] else (if s[0] == x then [] else [s[0]]) + Erase(s[1..], x)
  }

  lemma {:induction false} EraseAbsent<K>(s: seq<K>, x: K)
    requires x !in s
    ensures Erase(s, x) == s
  {
    if s != [] {
      EraseAbsent(s[1..], x);
      assert s == [s[0]] + s[1..];
    }
  }

  lemma {:induction false} EraseOne<K>(s: seq<K>, k: nat)
    requires NoRepeats(s) && k < |s|
    ensures Erase(s, s[k]) == Without(s, k)
  {
    if k == 0 {
      assert s[0] !in s[1..];
      EraseAbsent(s[1..], s[0]);
    } else {
      EraseOne(s[1..], k - 1);
      assert s[1..][k - 1] == s[k];
      assert [s[0]] + Without(s[1..], k - 1) == Without(s, k);
    }
  }

  /** When a key was last accessed; -1 when it never was. */
  function LastAccess<K(==)>(trace: seq<K>, x: K): (i: int)
    ensures -1 <= i < |trace|
    ensures i >= 0 ==> trace[i] == x
    ensures forall j :: i < j < |trace| ==> trace[j] != x
  {
    if trace == [] then -1
    else if trace[|trace| - 1] == x then |trace| - 1
    else LastAccess(trace[..|trace| - 1], x)
  }

  /** Latest access first; every key of the list has been accessed. */
  ghost predicate ByLastAccess<K>(trace: seq<K>, ks: seq<K>) {
    && (forall i {:trigger LastAccess(trace, ks[i])} :: 0 <= i < |ks| ==> LastAccess(trace, ks[i]) >= 0)
    && (forall i, j {:trigger LastAccess(trace, ks[i]), LastAccess(trace, ks[j])} ::
          0 <= i < j < |ks| ==> LastAccess(trace, ks[i]) > LastAccess(trace, ks[j]))
  }

  /** Every key of the list has been accessed since x was. */
  ghost predicate Outlived<K>(trace: seq<K>, ks: seq<K>, x: K) {
    forall j {:trigger LastAccess(trace, ks[j])} :: 0 <= j < |ks| ==> LastAccess(trace, x) < LastAccess(trace, ks[j])
  }

  /** An accessed key is missing only because cap others have been accessed since. */
  ghost predicate Complete<K>(trace: seq<K>, cap: nat, ks: seq<K>) {
    && |ks| <= cap
    && forall x {:trigger x in ks} :: x in trace && x !in ks ==> |ks| == cap && Outlived(trace, ks, x)
  }

  /** The list is exactly the last cap distinct keys of the trace, ordered by last access. */
  ghost predicate IsRecencyList<K(!new)>(trace: seq<K>, cap: nat, ks: seq<K>) {
    ByLastAccess(trace, ks) && Complete(trace, cap, ks)
  }

  function MoveToFront<K(==)>(ks: seq<K>, x: K, cap: nat): seq<K> {
    Prefix([x] + Erase(ks, x), cap)
  }

  lemma FrontNoRepeats<K>(s: seq<K>, x: K, cap: nat)
    requires NoRepeats(s) && x !in s
    ensures NoRepeats(Prefix([x] + s, cap))
  {
  }

  lemma MoveToFrontNoRepeats<K>(ks: seq<K>, x: K, cap: nat)
    requires NoRepeats(ks)
    ensures NoRepeats(MoveToFront(ks, x, cap)) && |MoveToFront(ks, x, cap)| <= cap
  {
    if x in ks {
      var k :| 0 <= k < |ks| && ks[k] == x;
      EraseOne(ks, k);
      NoRepeatsWithout(ks, k);
      FrontNoRepeats(Without(ks, k), x, cap);
    } else {
      EraseAbsent(ks, x);
      FrontNoRepeats(ks, x, cap);
    }
  }

  function Moved<K(==)>(trace: seq<K>, cap: nat): seq<K> {
    if trace == [] then []
    else MoveToFront(Moved(trace[..|trace| - 1], cap), trace[|trace| - 1], cap)
  }

  lemma LastAccessOfMore<K(!new)>(trace: seq<K>, a: K)
    ensures forall x {:trigger LastAccess(trace + [a], x)} ::
              LastAccess(trace + [a], x) == if x == a then |trace| else LastAccess(trace, x)
  {
    assert (trace + [a])[..|trace|] == trace;
  }

  lemma ByLastAccessHasNoRepeats<K>(trace: seq<K>, ks: seq<K>)
    requires ByLastAccess(trace, ks)
    ensures NoRepeats(ks)
  {
    forall i, j | 0 <= i < j < |ks|
      ensures ks[i] != ks[j]
    {
      assert LastAccess(trace, ks[i]) > LastAccess(trace, ks[j]);
    }
  }

  // ----- an access of a key of the list

  lemma HitOrder<K(!new)>(trace: seq<K>, ks: seq<K>, k: nat)
    requires ByLastAccess(trace, ks) && k < |ks|
    ensures ByLastAccess(trace + [ks[k]], [ks[k]] + Without(ks, k))
  {
    var ks' := [ks[k]] + Without(ks, k);
    LastAccessOfMore(trace, ks[k]);
    ByLastAccessHasNoRepeats(trace, ks);
    forall i | 0 <= i < |ks'|
      ensures LastAccess(trace + [ks[k]], ks'[i]) == if i == 0 then |trace| else LastAccess(trace, ks[if i <= k then i - 1 else i])
    {
      assert i > 0 ==> ks'[i] == ks[if i <= k then i - 1 else i];
    }
  }

  lemma HitComplete<K(!new)>(trace: seq<K>, cap: nat, ks: seq<K>, k: nat)
    requires IsRecencyList(trace, cap, ks) && k < |ks|
    ensures Complete(trace + [ks[k]], cap, [ks[k]] + Without(ks, k))
  {
    var x, trace' := ks[k], trace + [ks[k]];
    var ks' := [x] + Without(ks, k);
    LastAccessOfMore(trace, x);
    forall y | y in trace' && y !in ks'
      ensures Outlived(trace', ks', y)
    {
      MissingFromWithout(ks, k, y);
      assert y !in ks && y in trace;
      assert Outlived(trace, ks, y);
      forall j | 0 <= j < |ks'|
        ensures LastAccess(trace', y) < LastAccess(trace', ks'[j])
      {
        assert j > 0 ==> ks'[j] == ks[if j <= k then j - 1 else j];
      }
    }
    forall y | y in trace' && y !in ks'
      ensures |ks'| == cap
    {
      MissingFromWithout(ks, k, y);
      assert y !in ks && y in trace;
    }
  }

  lemma MissingFromWithout<K>(ks: seq<K>, k: nat, y: K)
    requires k < |ks| && y !in [ks[k]] + Without(ks, k)
    ensures y !in ks
  {
    forall i | 0 <= i < |ks|
      ensures ks[i] != y
    {
      assert ks[i] == ([ks[k]] + Without(ks, k))[if i == k then 0 else if i < k then i + 1 else i];
    }
  }

  // ----- an access of another key

  lemma MissOrder<K(!new)>(trace: seq<K>, ks: seq<K>, x: K, cap: nat)
    requires ByLastAccess(trace, ks) && x !in ks
    ensures ByLastAccess(trace + [x], Prefix([x] + ks, cap))
  {
    var ks' := Prefix([x] + ks, cap);
    LastAccessOfMore(trace, x);
    forall i | 0 <= i < |ks'|
      ensures LastAccess(trace + [x], ks'[i]) == if i == 0 then |trace| else LastAccess(trace, ks[i - 1])
    {
      assert i > 0 ==> ks'[i] == ks[i - 1];
    }
  }

  lemma MissComplete<K(!new)>(trace: seq<K>, cap: nat, ks: seq<K>, x: K)
    requires IsRecencyList(trace, cap, ks) && x !in ks && cap > 0
    ensures Complete(trace + [x], cap, Prefix([x] + ks, cap))
  {
    var trace', ks' := trace + [x], Prefix([x] + ks, cap);
    LastAccessOfMore(trace, x);
    forall y | y in trace' && y !in ks'
      ensures |ks'| == cap && Outlived(trace', ks', y)
    {
      assert y != x by {
        assert ks'[0] == x;
      }
      LostAtMiss(trace, cap, ks, x, y);
      forall j | 0 <= j < |ks'|
        ensures LastAccess(trace', y) < LastAccess(trace', ks'[j])
      {
        assert j > 0 ==> ks'[j] == ks[j - 1];
      }
    }
  }

  /** What a miss leaves out was missing before, or stood last in a full list. */
  lemma LostAtMiss<K(!new)>(trace: seq<K>, cap: nat, ks: seq<K>, x: K, y: K)
    requires IsRecencyList(trace, cap, ks) && x !in ks && cap > 0
    requires y in trace && y != x && y !in Prefix([x] + ks, cap)
    ensures |ks| == cap
    ensures forall j {:trigger LastAccess(trace, ks[j])} :: 0 <= j < cap - 1 ==> LastAccess(trace, y) < LastAccess(trace, ks[j])
  {
    if y in ks {
      var i :| 0 <= i < |ks| && ks[i] == y;
      assert i + 1 < |Prefix([x] + ks, cap)| ==> Prefix([x] + ks, cap)[i + 1] == y;
    }
  }

  lemma RecencyStep<K(!new)>(trace: seq<K>, cap: nat, ks: seq<K>, x: K)
    requires IsRecencyList(trace, cap, ks) && cap > 0
    ensures IsRecencyList(trace + [x], cap, MoveToFront(ks, x, cap))
  {
    ByLastAccessHasNoRepeats(trace, ks);
    if x in ks {
      var k :| 0 <= k < |ks| && ks[k] == x;
      EraseOne(ks, k);
      HitOrder(trace, ks, k);
      HitComplete(trace, cap, ks, k);
    } else {
      EraseAbsent(ks, x);
      MissOrder(trace, ks, x, cap);
      MissComplete(trace, cap, ks, x);
    }
  }

  /** Moving every accessed key to the front of a list of limited length leaves exactly
      the last distinct keys of the trace. */
  lemma {:induction false} MovedIsRecencyList<K(!new)>(trace: seq<K>, cap: nat)
    requires cap > 0
    ensures IsRecencyList(trace, cap, Moved(trace, cap))
  {
    if trace != [] {
      var n := |trace| - 1;
      MovedIsRecencyList(trace[..n], cap);
      RecencyStep(trace[..n], cap, Moved(trace[..n], cap), trace[n]);
      assert trace == trace[..n] + [trace[n]];
    }
  }

  // ----- there is only one such list

  lemma NotNewer<K(!new)>(trace: seq<K>, cap: nat, ks: seq<K>, ls: seq<K>, i: nat)
    requires IsRecencyList(trace, cap, ks) && IsRecencyList(trace, cap, ls)
    requires i < |ks| && i < |ls| && ks[..i] == ls[..i]
    ensures LastAccess(trace, ks[i]) <= LastAccess(trace, ls[i])
  {
    var x := ks[i];
    assert trace[LastAccess(trace, x)] == x;
    forall j | 0 <= j < i
      ensures ls[j] != x
    {
      assert ls[j] == ls[..i][j] == ks[..i][j] == ks[j];
      assert LastAccess(trace, ks[j]) > LastAccess(trace, x);
    }
    if x in ls {
      var j :| 0 <= j < |ls| && ls[j] == x;
      assert j == i || LastAccess(trace, ls[i]) > LastAccess(trace, ls[j]);
    } else {
      assert Outlived(trace, ls, x);
    }
  }

  lemma {:induction false} SamePrefix<K(!new)>(trace: seq<K>, cap: nat, ks: seq<K>, ls: seq<K>, n: nat)
    requires IsRecencyList(trace, cap, ks) && IsRecencyList(trace, cap, ls)
    requires n <= |ks| && n <= |ls|
    ensures ks[..n] == ls[..n]
  {
    if n > 0 {
      SamePrefix(trace, cap, ks, ls, n - 1);
      NotNewer(trace, cap, ks, ls, n - 1);
      NotNewer(trace, cap, ls, ks, n - 1);
      assert ks[n - 1] == trace[LastAccess(trace, ks[n - 1])] == ls[n - 1];
      assert ks[..n] == ks[..n - 1] + [ks[n - 1]] && ls[..n] == ls[..n - 1] + [ls[n - 1]];
    }
  }

  lemma NextIsNew<K>(trace: seq<K>, ks: seq<K>, ls: seq<K>)
    requires ByLastAccess(trace, ls) && |ks| < |ls| && ks == ls[..|ks|]
    ensures ls[|ks|] in trace && ls[|ks|] !in ks
  {
    ByLastAccessHasNoRepeats(trace, ls);
    assert trace[LastAccess(trace, ls[|ks|])] == ls[|ks|];
  }

  lemma NotShorter<K(!new)>(trace: seq<K>, cap: nat, ks: seq<K>, ls: seq<K>)
    requires IsRecencyList(trace, cap, ks) && IsRecencyList(trace, cap, ls)
    ensures |ks| >= |ls|
  {
    if |ls| > |ks| {
      SamePrefix(trace, cap, ks, ls, |ks|);
      assert ks[..|ks|] == ks;
      NextIsNew(trace, ks, ls);
    }
  }

  lemma RecencyListUnique<K(!new)>(trace: seq<K>, cap: nat, ks: seq<K>, ls: seq<K>)
    requires IsRecencyList(trace, cap, ks) && IsRecencyList(trace, cap, ls)
    ensures ks == ls
  {
    NotShorter(trace, cap, ks, ls);
    NotShorter(trace, cap, ls, ks);
    SamePrefix(trace, cap, ks, ls, |ks|);
    assert ks[..|ks|] == ks && ls[..|ls|] == ls;
  }
}
