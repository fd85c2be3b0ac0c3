/** Hash chains as an order on nodes. Every node of a table carries the stamp of its insertion;
    the chain of a bucket runs from the latest of its nodes to the earliest. */
module Chains {
  import opened Options

  /** Nodes of one bucket have different stamps, all of them below the clock. */
  ghost predicate Stamped<N>(stamps: map<N, nat>, slot: N -> nat, clock: nat) {
    && (forall x {:trigger stamps[x]} :: x in stamps ==> stamps[x] < clock)
    && (forall x, y {:trigger stamps[x], stamps[y]} ::
          x in stamps && y in stamps && slot(x) == slot(y) && stamps[x] == stamps[y] ==> x == y)
  }

  /** The pointer leads to the latest node of bucket i among those stamped below the bound. */
  ghost predicate Leads<N>(stamps: map<N, nat>, slot: N -> nat, p: Option<N>, i: nat, bound: nat) {
    && (p.Some? ==> p.value in stamps && slot(p.value) == i && stamps[p.value] < bound)
    && forall z {:trigger stamps[z]} :: z in stamps && slot(z) == i && stamps[z] < bound ==>
         p.Some? && stamps[z] <= stamps[p.value]
  }

  ghost predicate HeadsLead<N>(heads: seq<Option<N>>, stamps: map<N, nat>, slot: N -> nat, clock: nat) {
    forall i {:trigger heads[i]} :: 0 <= i < |heads| ==> Leads(stamps, slot, heads[i], i, clock)
  }

  ghost predicate NextsLead<N>(nexts: map<N, Option<N>>, stamps: map<N, nat>, slot: N -> nat) {
    && nexts.Keys == stamps.Keys
    && forall x {:trigger nexts[x]} :: x in nexts ==> Leads(stamps, slot, nexts[x], slot(x), stamps[x])
  }

  lemma LeadsAfterPush<N>(stamps: map<N, nat>, slot: N -> nat, p: Option<N>, i: nat, bound: nat, x: N, clock: nat)
    requires Leads(stamps, slot, p, i, bound) && x !in stamps
    requires i != slot(x) || bound <= clock
    ensures Leads(stamps[x := clock], slot, p, i, bound)
  {
  }

  /** A new node becomes the head of its bucket. */
  lemma PushHeads<N>(heads: seq<Option<N>>, stamps: map<N, nat>, slot: N -> nat, clock: nat, x: N)
    requires Stamped(stamps, slot, clock) && HeadsLead(heads, stamps, slot, clock)
    requires x !in stamps && slot(x) < |heads|
    ensures Stamped(stamps[x := clock], slot, clock + 1)
    ensures HeadsLead(heads[slot(x) := Some(x)], stamps[x := clock], slot, clock + 1)
  {
  }

  lemma PushNexts<N>(heads: seq<Option<N>>, nexts: map<N, Option<N>>, stamps: map<N, nat>, slot: N -> nat, clock: nat, x: N)
    requires Stamped(stamps, slot, clock) && HeadsLead(heads, stamps, slot, clock) && NextsLead(nexts, stamps, slot)
    requires x !in stamps && slot(x) < |heads|
    ensures NextsLead(nexts[x := heads[slot(x)]], stamps[x := clock], slot)
  {
    LeadsAfterPush(stamps, slot, heads[slot(x)], slot(x), clock, x, clock);
    forall y | y in nexts
      ensures Leads(stamps[x := clock], slot, nexts[y], slot(y), stamps[y])
    {
      LeadsAfterPush(stamps, slot, nexts[y], slot(y), stamps[y], x, clock);
    }
  }

  lemma LeadsAfterUnlink<N>(stamps: map<N, nat>, slot: N -> nat, clock: nat, p: Option<N>, i: nat, bound: nat, x: N, next: Option<N>)
    requires Stamped(stamps, slot, clock) && x in stamps
    requires Leads(stamps, slot, p, i, bound) && Leads(stamps, slot, next, slot(x), stamps[x])
    ensures Leads(stamps - {x}, slot, if p == Some(x) then next else p, i, bound)
  {
  }

  /** Only the given pointer leads to a node. */
  lemma OnePointer<N>(heads: seq<Option<N>>, nexts: map<N, Option<N>>, stamps: map<N, nat>, slot: N -> nat, clock: nat, x: N)
    requires Stamped(stamps, slot, clock) && HeadsLead(heads, stamps, slot, clock) && NextsLead(nexts, stamps, slot)
    requires x in nexts
    ensures forall i :: 0 <= i < |heads| && heads[i] == Some(x) ==> i == slot(x)
    ensures forall i, y :: 0 <= i < |heads| && y in nexts && heads[i] == Some(x) ==> nexts[y] != Some(x)
    ensures forall y, z :: y in nexts && z in nexts && nexts[y] == nexts[z] == Some(x) ==> y == z
  {
    forall y, z | y in nexts && z in nexts && nexts[y] == nexts[z] == Some(x)
      ensures y == z
    {
      assert Leads(stamps, slot, nexts[y], slot(y), stamps[y]) && Leads(stamps, slot, nexts[z], slot(z), stamps[z]);
    }
    forall i, y | 0 <= i < |heads| && y in nexts && heads[i] == Some(x)
      ensures nexts[y] != Some(x)
    {
      assert Leads(stamps, slot, heads[i], i, clock) && Leads(stamps, slot, nexts[y], slot(y), stamps[y]);
    }
  }

  /** Linking around x: the one pointer to it becomes the pointer it had. */
  lemma UnlinkHeads<N>(heads: seq<Option<N>>, heads': seq<Option<N>>, next: Option<N>, stamps: map<N, nat>,
                       slot: N -> nat, clock: nat, x: N)
    requires Stamped(stamps, slot, clock) && HeadsLead(heads, stamps, slot, clock)
    requires x in stamps && Leads(stamps, slot, next, slot(x), stamps[x])
    requires |heads'| == |heads|
    requires forall i :: 0 <= i < |heads| ==> heads'[i] == if heads[i] == Some(x) then next else heads[i]
    ensures Stamped(stamps - {x}, slot, clock)
    ensures HeadsLead(heads', stamps - {x}, slot, clock)
  {
    forall i | 0 <= i < |heads'|
      ensures Leads(stamps - {x}, slot, heads'[i], i, clock)
    {
      LeadsAfterUnlink(stamps, slot, clock, heads[i], i, clock, x, next);
    }
  }

  lemma UnlinkNexts<N>(nexts: map<N, Option<N>>, nexts': map<N, Option<N>>, stamps: map<N, nat>,
                       slot: N -> nat, clock: nat, x: N)
    requires Stamped(stamps, slot, clock) && NextsLead(nexts, stamps, slot)
    requires x in nexts
    requires nexts'.Keys == nexts.Keys - {x}
    requires forall y :: y in nexts' ==> nexts'[y] == if nexts[y] == Some(x) then nexts[x] else nexts[y]
    ensures NextsLead(nexts', stamps - {x}, slot)
  {
    forall y | y in nexts'
      ensures Leads(stamps - {x}, slot, nexts'[y], slot(y), stamps[y])
    {
      LeadsAfterUnlink(stamps, slot, clock, nexts[y], slot(y), stamps[y], x, nexts[x]);
    }
  }
}
