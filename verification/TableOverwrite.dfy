/** hashtable_insert when the table may already hold the connection (src/storage/hashtable.c). The
    existing node is overwritten as a whole, its link included, so its chain goes on where the link of
    the new entry leads: nowhere, for an entry fresh from calloc. */
module TableOverwrite {
  import opened Addresses
  import opened Lists
  import opened Options

  /** The first node with this key, or the length of the chain. */
  function Position(chain: seq<TupleKey>, x: TupleKey): (k: nat)
    ensures k <= |chain|
    ensures k < |chain| ==> chain[k] == x
    ensures forall j :: 0 <= j < k ==> chain[j] != x
  {
    if chain == [] || chain[0] == x then 0 else 1 + Position(chain[1..], x)
  }

  /** The keys of a bucket after an insertion; beyond is the chain the link of the entry leads to. */
  function Inserted(chain: seq<TupleKey>, x: TupleKey, beyond: seq<TupleKey>): seq<TupleKey> {
    var k := Position(chain, x);
    if k < |chain| then chain[..k] + [x] + beyond else [x] + chain
  }

  /** Exactly the old keys and the new one can be found. */
  ghost predicate KeepsAll(chain: seq<TupleKey>, after: seq<TupleKey>, x: TupleKey) {
    forall y {:trigger y in after} {:trigger y in chain} :: y in after <==> y in chain || y == x
  }

  /** Inserting a fresh entry loses no connection exactly when its key is absent, as it always is when
      lru_cache_get inserts, or stands last in its chain; otherwise all nodes behind it are lost. */
  lemma FreshInsertKeepsAll(chain: seq<TupleKey>, x: TupleKey)
    requires NoRepeats(chain)
    ensures KeepsAll(chain, Inserted(chain, x, []), x) <==> Position(chain, x) >= |chain| - 1
    ensures forall y :: y in Inserted(chain, x, []) ==> y in chain || y == x
  {
    var k, after := Position(chain, x), Inserted(chain, x, []);
    if k < |chain| - 1 {
      var lost := chain[k + 1];
      assert forall j :: 0 <= j < |after| ==> after[j] == chain[j];
      assert lost !in after && lost in chain;
    } else if k == |chain| - 1 {
      assert after == chain;
    } else {
      assert x !in chain;
    }
  }

  /** Had the link been saved across the copy, as the comment beside it intends, the chain would be unchanged. */
  lemma SavedLinkKeepsAll(chain: seq<TupleKey>, x: TupleKey)
    requires Position(chain, x) < |chain|
    ensures Inserted(chain, x, chain[Position(chain, x) + 1..]) == chain
  {
  }

  /** A chain of two: inserting its first connection again loses the second. */
  lemma SecondOfTwoIsLost(x: TupleKey, y: TupleKey)
    requires x != y
    ensures Inserted([x, y], x, []) == [x] && y !in Inserted([x, y], x, [])
  {
    assert Position([x, y], x) == 0;
  }

  // ----- on the heap

  /** An entry of the table with the links of both structures it stands in. */
  class Node {
    var key: TupleKey
    var next: Node?
    var lruPrev: Node?
    var lruNext: Node?
  }

  function Ptr(n: Node?): Option<Node> {
    if n == null then None else Some(n)
  }

  /** The chain from the head consists of these nodes, with these keys. */
  ghost predicate Chained(head: Node?, nodes: seq<Node>, keys: seq<TupleKey>)
    reads nodes`next, nodes`key
  {
    && NoRepeats(nodes) && |nodes| == |keys| && Ptr(head) == At(nodes, 0)
    && (forall k {:trigger nodes[k].next} :: 0 <= k < |nodes| ==> Ptr(nodes[k].next) == At(nodes, k + 1))
    && (forall k {:trigger nodes[k].key} :: 0 <= k < |nodes| ==> nodes[k].key == keys[k])
  }

  /** hashtable_insert of a fresh entry whose key the chain holds. The node that holds it takes over all fields
      of the entry: its chain ends there, and the neighbours it had in the recency list are forgotten. */
  method InsertPresent(head: Node, entry: Node, ghost nodes: seq<Node>, ghost keys: seq<TupleKey>) returns (curr: Node)
    requires Chained(head, nodes, keys) && entry !in nodes && Position(keys, entry.key) < |keys|
    requires entry.next == null && entry.lruPrev == null && entry.lruNext == null
    modifies nodes
    ensures curr == nodes[Position(keys, entry.key)] && curr.lruPrev == null && curr.lruNext == null
    ensures var kept := Inserted(keys, entry.key, []); Chained(head, nodes[..|kept|], kept)
    ensures forall n :: n in nodes && n != curr ==>
              n.next == old(n.next) && n.lruPrev == old(n.lruPrev) && n.lruNext == old(n.lruNext)
  {
    curr := head;
    ghost var k := 0;
    while curr.key != entry.key
      invariant k <= Position(keys, entry.key) && curr == nodes[k]
      decreases |nodes| - k
    {
      curr, k := curr.next, k + 1;
    }
    Overwrite(curr, entry);
  }

  /** memcpy of the entry over the node, and the assignment that was to preserve the chain. */
  method Overwrite(curr: Node, entry: Node)
    modifies curr
    ensures curr.key == old(entry.key) && curr.next == old(entry.next)
    ensures curr.lruPrev == old(entry.lruPrev) && curr.lruNext == old(entry.lruNext)
  {
    curr.key, curr.next, curr.lruPrev, curr.lruNext := entry.key, entry.next, entry.lruPrev, entry.lruNext;
    curr.next := curr.next;
  }
}
