/** The connection cache: a recency list laid over the chained table (src/storage/lru_cache.c). */
module ConnCache {
  import opened Addresses
  import opened ConnTable
  import opened Lists
  import opened LruRecords
  import opened LruTheory
  import opened Options
  import Murmur

  /** The list holds exactly the nodes of the table. */
  ghost predicate Aligned(order: seq<ConnEntry>, nodes: set<ConnEntry>) {
    && (forall k {:trigger order[k]} :: 0 <= k < |order| ==> order[k] in nodes)
    && (forall e :: e in nodes ==> e in order)
  }

  lemma AlignedWithout(order: seq<ConnEntry>, nodes: set<ConnEntry>, k: nat)
    requires Aligned(order, nodes) && NoRepeats(order) && k < |order|
    ensures Aligned(Without(order, k), nodes - {order[k]})
    ensures Aligned([order[k]] + Without(order, k), nodes)
  {
    var rest := Without(order, k);
    forall e | e in nodes && e != order[k]
      ensures e in rest
    {
      var j :| 0 <= j < |order| && order[j] == e;
      assert rest[if j < k then j else j - 1] == e;
    }
    forall j | 0 <= j < |rest|
      ensures rest[j] in nodes - {order[k]}
    {
      assert rest[j] == order[if j < k then j else j + 1];
    }
  }

  lemma AlignedAttach(order: seq<ConnEntry>, nodes: set<ConnEntry>, e: ConnEntry)
    requires Aligned(order, nodes)
    ensures Aligned([e] + order, nodes + {e})
  {
    forall f | f in nodes + {e}
      ensures f in [e] + order
    {
      if f in nodes {
        var j :| 0 <= j < |order| && order[j] == f;
        assert ([e] + order)[j + 1] == f;
      }
    }
  }

  lemma AlignedLast(order: seq<ConnEntry>, nodes: set<ConnEntry>)
    requires Aligned(order, nodes) && NoRepeats(order) && order != []
    ensures order[|order| - 1] in nodes
    ensures Aligned(order[..|order| - 1], nodes - {order[|order| - 1]})
  {
    AlignedWithout(order, nodes, |order| - 1);
    assert Without(order, |order| - 1) == order[..|order| - 1];
  }

  lemma ViewOfLast(s: seq<ConnEntry>)
    requires s != []
    ensures ViewOf(s[..|s| - 1]) == ViewOf(s)[..|s| - 1]
  {
  }

  lemma ViewOfCons(e: ConnEntry, s: seq<ConnEntry>)
    ensures ViewOf([e] + s) == [Snapshot(e)] + ViewOf(s)
  {
  }

  lemma ViewOfWithout(s: seq<ConnEntry>, k: nat)
    requires k < |s|
    ensures ViewOf(Without(s, k)) == Without(ViewOf(s), k)
  {
    hide ViewOf, Snapshot, Without;
    WithoutAt(s, k);
    WithoutAt(ViewOf(s), k);
    var w := Without(s, k);
    forall i | 0 <= i < |w|
      ensures ViewOf(w)[i] == Without(ViewOf(s), k)[i]
    {
      assert w[i] == s[if i < k then i else i + 1];
    }
  }

  ghost function Snapshot(e: ConnEntry): Conn
    reads e`state, e`lastSeen, e`packets, e`bytes
  {
    Conn(e.tuple, e.state, e.firstSeen, e.lastSeen, e.packets, e.bytes)
  }

  ghost function ViewOf(s: seq<ConnEntry>): (v: seq<Conn>)
    reads s`state, s`lastSeen, s`packets, s`bytes
    ensures |v| == |s| && forall i {:trigger v[i]} :: 0 <= i < |s| ==> v[i] == Snapshot(s[i])
  {
    if s == [] then [] else [Snapshot(s[0])] + ViewOf(s[1..])
  }

  /** All links but those of node k are as in a list without that node. */
  ghost predicate Bypassed(s: seq<ConnEntry>, k: nat)
    reads s`lruPrev, s`lruNext
  {
    && (forall j {:trigger s[j].lruPrev} :: 0 <= j < |s| && j != k ==>
          Opt(s[j].lruPrev) == At(s, if j == k + 1 then k - 1 else j - 1))
    && (forall j {:trigger s[j].lruNext} :: 0 <= j < |s| && j != k ==>
          Opt(s[j].lruNext) == At(s, if j == k - 1 then k + 1 else j + 1))
  }

  lemma LinksWithout(s: seq<ConnEntry>, k: nat)
    requires k < |s| && Bypassed(s, k)
    ensures var w := Without(s, k);
            && (forall j {:trigger w[j].lruPrev} :: 0 <= j < |w| ==> Opt(w[j].lruPrev) == At(w, j - 1))
            && (forall j {:trigger w[j].lruNext} :: 0 <= j < |w| ==> Opt(w[j].lruNext) == At(w, j + 1))
  {
    var w := Without(s, k);
    forall j | 0 <= j < |w|
      ensures Opt(w[j].lruPrev) == At(w, j - 1) && Opt(w[j].lruNext) == At(w, j + 1)
    {
      var i := if j < k then j else j + 1;
      assert w[j] == s[i];
      AtWithout(s, k, j - 1);
      AtWithout(s, k, j + 1);
    }
  }

  lemma AtWithout<T>(s: seq<T>, k: nat, j: int)
    requires k < |s|
    ensures At(Without(s, k), j) == At(s, if j < k then j else j + 1)
  {
  }

  lemma EndsWithout<T>(s: seq<T>, k: nat)
    requires k < |s|
    ensures At(Without(s, k), 0) == At(s, if k == 0 then 1 else 0)
    ensures At(Without(s, k), |Without(s, k)| - 1) == At(s, if k == |s| - 1 then k - 1 else |s| - 1)
  {
    AtWithout(s, k, 0);
    AtWithout(s, k, |s| - 2);
  }

  /** The links of the list and of a node in front of it. */
  ghost predicate Ahead(e: ConnEntry, s: seq<ConnEntry>)
    reads e`lruNext, s`lruPrev, s`lruNext
  {
    && Opt(e.lruNext) == At(s, 0)
    && (forall j {:trigger s[j].lruPrev} :: 0 <= j < |s| ==> Opt(s[j].lruPrev) == if j == 0 then Some(e) else At(s, j - 1))
    && (forall j {:trigger s[j].lruNext} :: 0 <= j < |s| ==> Opt(s[j].lruNext) == At(s, j + 1))
  }

  lemma LinksCons(e: ConnEntry, s: seq<ConnEntry>)
    requires e.lruPrev == null && Ahead(e, s)
    ensures var w := [e] + s;
            && (forall j {:trigger w[j].lruPrev} :: 0 <= j < |w| ==> Opt(w[j].lruPrev) == At(w, j - 1))
            && (forall j {:trigger w[j].lruNext} :: 0 <= j < |w| ==> Opt(w[j].lruNext) == At(w, j + 1))
  {
    var w := [e] + s;
    forall j | 0 <= j < |w|
      ensures Opt(w[j].lruPrev) == At(w, j - 1) && Opt(w[j].lruNext) == At(w, j + 1)
    {
      if j > 0 {
        assert w[j] == s[j - 1];
      }
    }
  }

  lemma EndsCons<T>(x: T, s: seq<T>)
    ensures At([x] + s, 0) == Some(x)
    ensures At([x] + s, |[x] + s| - 1) == if s == [] then Some(x) else At(s, |s| - 1)
    ensures NoRepeats(s) && x !in s ==> NoRepeats([x] + s)
  {
  }

  lemma Cut<T>(x: T, s: seq<T>, n: nat)
    requires |s| <= n && n > 0
    ensures Prefix([x] + s, n) == [x] + if |s| == n then s[..n - 1] else s
  {
  }

  class LruCache {
    const table: HashTable
    const maxSize: nat
    var head: ConnEntry?
    var tail: ConnEntry?
    var currentSize: nat
    /** The nodes of the list, most recently used first. */
    ghost var order: seq<ConnEntry>

    /** The list is acyclic, its links mirror each other, head and tail are its ends. */
    ghost predicate Linked()
      reads this`head, this`tail, this`order, order`lruPrev, order`lruNext
    {
      && NoRepeats(order)
      && Opt(head) == At(order, 0) && Opt(tail) == At(order, |order| - 1)
      && (forall k {:trigger order[k].lruPrev} :: 0 <= k < |order| ==> Opt(order[k].lruPrev) == At(order, k - 1))
      && (forall k {:trigger order[k].lruNext} :: 0 <= k < |order| ==> Opt(order[k].lruNext) == At(order, k + 1))
    }

    /** List and table hold the same nodes, each once. */
    ghost predicate Joined()
      reads this, table, table.buckets, table.model.nexts.Keys`next
    {
      && table.Valid()
      && Aligned(order, table.model.nexts.Keys)
      && currentSize == |order| == table.entries
      && |order| <= maxSize && maxSize > 0
    }

    ghost predicate Valid()
      reads this, table, table.buckets, table.model.nexts.Keys`next, order`lruPrev, order`lruNext
    {
      Linked() && Joined()
    }

    /** The entries, most recently used first. */
    ghost function View(): (v: seq<Conn>)
      reads this`order, order`state, order`lastSeen, order`packets, order`bytes
      ensures |v| == |order|
    {
      ViewOf(order)
    }

    /** lru_cache_create: as many buckets as entries, hashed by conn_tuple_hash. */
    constructor (maxSize: nat)
      requires maxSize > 0
      ensures Valid() && View() == [] && this.maxSize == maxSize
      ensures fresh(table) && fresh(table.buckets)
      ensures table.buckets.Length == maxSize && forall x :: table.hash(x) == Murmur.KeyHash(x)
    {
      this.maxSize := maxSize;
      head, tail, currentSize, order := null, null, 0, [];
      table := new HashTable(maxSize, k => Murmur.KeyHash(k));
    }

    /** The pointer writes that lead around a node. */
    method SkipNode(entry: ConnEntry, ghost k: nat)
      requires Linked() && k < |order| && order[k] == entry
      modifies this`head, this`tail, order`lruPrev, order`lruNext
      ensures order == old(order) && Bypassed(order, k)
      ensures Opt(head) == At(order, if k == 0 then 1 else 0)
      ensures Opt(tail) == At(order, if k == |order| - 1 then k - 1 else |order| - 1)
    {
      if entry.lruPrev != null {
        entry.lruPrev.lruNext := entry.lruNext;
      }
      if entry.lruNext != null {
        entry.lruNext.lruPrev := entry.lruPrev;
      }
      if head == entry {
        head := entry.lruNext;
      }
      if tail == entry {
        tail := entry.lruPrev;
      }
    }

    /** Unlink a node from the list. */
    method Detach(entry: ConnEntry, ghost k: nat)
      requires Linked() && k < |order| && order[k] == entry
      modifies this`head, this`tail, this`order, order`lruPrev, order`lruNext
      ensures Linked() && order == Without(old(order), k)
    {
      hide NoRepeats, At, Without, Bypassed;
      ListEnds();
      SkipNode(entry, k);
      NoRepeatsWithout(order, k);
      LinksWithout(order, k);
      EndsWithout(order, k);
      order := Without(order, k);
    }

    /** The pointer writes that put a node in front. */
    method LinkAhead(entry: ConnEntry)
      requires Linked() && entry !in order
      modifies this`head, this`tail, entry`lruPrev, entry`lruNext, order`lruPrev
      ensures order == old(order) && entry.lruPrev == null && Ahead(entry, order)
      ensures head == entry && Opt(tail) == if order == [] then Some(entry) else At(order, |order| - 1)
    {
      entry.lruNext := head;
      entry.lruPrev := null;
      if head != null {
        head.lruPrev := entry;
      }
      head := entry;
      if tail == null {
        tail := entry;
      }
    }

    /** Put a node in front of the list. */
    method Attach(entry: ConnEntry)
      requires Linked() && entry !in order
      modifies this`head, this`tail, this`order, entry`lruPrev, entry`lruNext, order`lruPrev
      ensures Linked() && order == [entry] + old(order)
      ensures View() == [old(Snapshot(entry))] + old(View())
    {
      hide ViewOf, Snapshot, At, Ahead, NoRepeats;
      ViewOfCons(entry, order);
      ListEnds();
      LinkAhead(entry);
      LinksCons(entry, order);
      EndsCons(entry, order);
      order := [entry] + order;
    }

    /** lru_move_to_head, for a node of the list. */
    method MoveToHead(entry: ConnEntry, ghost k: nat)
      requires Linked() && k < |order| && order[k] == entry
      modifies this`head, this`tail, this`order, order`lruPrev, order`lruNext
      ensures Linked() && order == [entry] + Without(old(order), k)
    {
      if head == entry {
        return;
      }
      Detach(entry, k);
      Attach(entry);
    }

    /** The list half of lru_evict_lru: unlink the last node. */
    method DropTail()
      requires Linked() && order != []
      modifies this`head, this`tail, this`order, order`lruNext
      ensures Linked() && order == old(order)[..|old(order)| - 1]
      ensures View() == old(View())[..|old(order)| - 1]
    {
      ViewOfLast(order);
      var entry: ConnEntry := tail;
      if entry.lruPrev != null {
        entry.lruPrev.lruNext := null;
      }
      tail := entry.lruPrev;
      if head == entry {
        head := null;
      }
      order := order[..|order| - 1];
    }

    /** The list half of a hit: the entry moves to the front and is stamped. */
    method Promote(entry: ConnEntry, ghost k: nat, now: int)
      requires Linked() && k < |order| && order[k] == entry
      modifies this`head, this`tail, this`order, order`lruPrev, order`lruNext, entry`lastSeen
      ensures Linked() && order == [entry] + Without(old(order), k)
      ensures View() == [old(View())[k].(lastSeen := now)] + Without(old(View()), k)
    {
      ghost var rest := Without(order, k);
      ViewOfWithout(order, k);
      MoveToHead(entry, k);
      entry.lastSeen := now;
      assert entry !in rest;
      assert ViewOf(rest) == old(ViewOf(rest));
    }

    lemma ListEnds()
      requires Linked()
      ensures NoRepeats(order)
      ensures Opt(head) == At(order, 0) && Opt(tail) == At(order, |order| - 1)
    {
    }

    method Hit(entry: ConnEntry, ghost k: nat, now: int)
      requires Valid() && k < |order| && order[k] == entry
      modifies this`head, this`tail, this`order, order`lruPrev, order`lruNext, entry`lastSeen
      ensures Valid() && order == [entry] + Without(old(order), k)
      ensures View() == [old(View())[k].(lastSeen := now)] + Without(old(View()), k)
    {
      hide HashTable.Valid, Linked, NoRepeats, Aligned, ViewOf, ConnTuple.Key, Snapshot;
      ListEnds();
      AlignedWithout(order, table.model.nexts.Keys, k);
      Promote(entry, k, now);
    }

    /** The table half of a removal. */
    method Unfile(entry: ConnEntry)
      requires Linked() && table.Valid() && entry in table.model.nexts
      modifies table, table.buckets, table.model.nexts.Keys`next
      ensures Linked() && View() == old(View()) && table.Valid()
      ensures table.model.contents == old(table.model.contents) - {entry.key}
      ensures table.model.nexts.Keys == old(table.model.nexts.Keys) - {entry}
      ensures table.entries == old(table.entries) - 1
    {
      hide HashTable.Valid, Linked, ViewOf, ConnTuple.Key;
      table.NodeKnown(entry);
      var found := table.Remove(entry.tuple);
    }

    /** lru_evict_lru: the least recently used entry leaves the list and the table. */
    method EvictLru()
      requires Valid() && order != []
      modifies this`head, this`tail, this`order, this`currentSize, order`lruNext
      modifies table, table.buckets, table.model.nexts.Keys`next
      ensures Valid() && order == old(order)[..|old(order)| - 1]
      ensures View() == old(View())[..|old(order)| - 1]
      ensures table.model.contents == old(table.model.contents) - {old(order)[|old(order)| - 1].key}
      ensures table.model.nexts.Keys == old(table.model.nexts.Keys) - {old(order)[|old(order)| - 1]}
    {
      hide HashTable.Valid, Linked, NoRepeats, Aligned, ViewOf, ConnTuple.Key, Snapshot;
      ghost var n := |order| - 1;
      ListEnds();
      AlignedLast(order, table.model.nexts.Keys);
      var entry: ConnEntry := tail;
      DropTail();
      Unfile(entry);
      currentSize := currentSize - 1;
    }

    /** The table half of an admission. */
    method File(key: ConnTuple, entry: ConnEntry)
      requires Linked() && table.Valid()
      requires key.Key() == entry.key == entry.tuple.Key() && key.Key() !in table.model.contents
      modifies entry`next, table, table.buckets
      ensures Linked() && View() == old(View()) && Snapshot(entry) == old(Snapshot(entry)) && table.Valid()
      ensures table.model.nexts.Keys == old(table.model.nexts.Keys) + {entry}
      ensures table.entries == old(table.entries) + 1
    {
      hide HashTable.Valid, Linked, ViewOf, ConnTuple.Key;
      table.Insert(key, entry);
    }

    /** A new entry enters table and list. */
    method Admit(key: ConnTuple, entry: ConnEntry)
      requires Valid() && |order| < maxSize
      requires key.Key() == entry.key == entry.tuple.Key() && key.Key() !in table.model.contents
      modifies this`head, this`tail, this`order, this`currentSize, entry`next, entry`lruPrev, entry`lruNext, order`lruPrev
      modifies table, table.buckets
      ensures Valid() && order == [entry] + old(order)
      ensures View() == [old(Snapshot(entry))] + old(View())
      ensures table.model.nexts.Keys == old(table.model.nexts.Keys) + {entry}
    {
      hide HashTable.Valid, Linked, NoRepeats, Aligned, ViewOf, ConnTuple.Key, Snapshot;
      NotYetListed(entry);
      AlignedAttach(order, table.model.nexts.Keys, entry);
      File(key, entry);
      Attach(entry);
      currentSize := currentSize + 1;
    }

    lemma NotYetListed(entry: ConnEntry)
      requires Joined() && entry.key !in table.model.contents
      ensures entry !in order && entry !in table.model.nexts
    {
      table.NewNode(entry);
    }

    /** What an access, a removal and a clean-up of this cache leave. */
    lemma Leaves(t: ConnTuple, now: int)
      requires Valid()
      ensures AccessLeaves(View(), Touch(View(), t, now, maxSize), t, now, maxSize)
      ensures RemovalLeaves(View(), Removed(View(), t.Key()), t.Key())
      ensures CleanupLeaves(View(), Live(View(), now), now)
      ensures IndexOf(View(), t.Key()) < |View()| <==> !Absent(View(), t.Key())
    {
      hide HashTable.Valid, Linked, ConnTuple.Key, Conn.Key, Touch, Removed, Live, AccessLeaves, RemovalLeaves, CleanupLeaves;
      ViewKeys();
      TouchLeaves(View(), t, now, maxSize);
      RemovedLeaves(View(), t.Key());
      LiveLeaves(View(), now);
    }

    /** The view names the connections of the list, and every one of them once. */
    lemma ViewKeys()
      requires Valid()
      ensures forall i {:trigger View()[i]} :: 0 <= i < |order| ==> View()[i].Key() == order[i].key
      ensures forall i {:trigger order[i]} :: 0 <= i < |order| ==>
                order[i].key in table.model.contents && table.model.contents[order[i].key] == order[i]
      ensures DistinctKeys(View())
    {
      hide HashTable.Valid, Linked, ConnTuple.Key;
      ListEnds();
      forall i | 0 <= i < |order|
        ensures order[i].tuple.Key() == order[i].key
        ensures order[i].key in table.model.contents && table.model.contents[order[i].key] == order[i]
      {
        table.NodeKnown(order[i]);
      }
    }

    /** Where a connection of the table stands in the list. */
    lemma PositionOf(x: TupleKey) returns (k: nat)
      requires Valid() && x in table.model.contents
      ensures k < |order| && order[k] == table.model.contents[x]
      ensures IndexOf(View(), x) == k
    {
      hide HashTable.Valid, Linked, ConnTuple.Key;
      ViewKeys();
      table.ContentsAreNodes(x);
      k :| 0 <= k < |order| && order[k] == table.model.contents[x];
      IndexOfUnique(View(), x, k);
    }

    lemma NoPosition(x: TupleKey)
      requires Valid() && x !in table.model.contents
      ensures IndexOf(View(), x) == |View()|
    {
      hide HashTable.Valid, Linked, ConnTuple.Key, NoRepeats, Aligned;
      ViewKeys();
      forall i | 0 <= i < |order|
        ensures View()[i].Key() in table.model.contents
      {
        assert View()[i].Key() == order[i].key;
      }
    }

    lemma ListNodes()
      requires Valid()
      ensures forall k :: 0 <= k < |order| ==> order[k] in table.model.nexts
    {
      hide HashTable.Valid, Linked;
    }

    /** lru_cache_get */
    method Get(key: ConnTuple, now: int) returns (entry: ConnEntry)
      requires Valid()
      modifies this, table, table.buckets, table.model.nexts.Keys
      ensures Valid() && order != [] && entry == order[0]
      ensures View() == Touch(old(View()), key, now, maxSize)
      ensures AccessLeaves(old(View()), View(), key, now, maxSize)
      ensures forall e :: e in table.model.nexts ==> e in old(table.model.nexts) || fresh(e)
    {
      hide HashTable.Valid, Linked, NoRepeats, Aligned, ViewOf, ConnTuple.Key, Snapshot, AccessLeaves, RemovalLeaves, CleanupLeaves, Absent;
      Leaves(key, now);
      ListNodes();
      var found := table.Lookup(key);
      if found != null {
        ghost var k := PositionOf(key.Key());
        Hit(found, k, now);
        return found;
      }
      NoPosition(key.Key());
      entry := Miss(key, now);
    }

    /** A connection seen for the first time, or again after it was lost. */
    method Miss(key: ConnTuple, now: int) returns (entry: ConnEntry)
      requires Valid() && key.Key() !in table.model.contents
      modifies this, table, table.buckets, table.model.nexts.Keys
      ensures Valid() && order != [] && entry == order[0]
      ensures View() == Prefix([Fresh(key, now)] + old(View()), maxSize)
      ensures table.model.nexts.Keys <= old(table.model.nexts.Keys) + {entry} && fresh(entry)
    {
      hide HashTable.Valid, Linked, NoRepeats, Aligned, ViewOf, ConnTuple.Key, Prefix;
      ListNodes();
      Cut(Fresh(key, now), View(), maxSize);
      entry := new ConnEntry(key, now);
      if currentSize >= maxSize {
        EvictLru();
        ListNodes();
      }
      Admit(key, entry);
    }

    /** lru_cache_update, for an entry of the cache. */
    method Update(entry: ConnEntry, now: int)
      requires Valid() && entry in table.model.nexts
      modifies this, table.model.nexts.Keys
      ensures Valid()
      ensures View() == Touch(old(View()), entry.tuple, now, maxSize)
      ensures AccessLeaves(old(View()), View(), entry.tuple, now, maxSize)
      ensures table.model == old(table.model)
    {
      hide HashTable.Valid, Linked, NoRepeats, Aligned, ViewOf, ConnTuple.Key, Snapshot, AccessLeaves, RemovalLeaves, CleanupLeaves, Absent;
      Leaves(entry.tuple, now);
      ListNodes();
      table.NodeKnown(entry);
      ghost var k := PositionOf(entry.tuple.Key());
      Hit(entry, k, now);
    }

    method Unlist(entry: ConnEntry, ghost k: nat)
      requires Linked() && k < |order| && order[k] == entry
      modifies this`head, this`tail, this`order, order`lruPrev, order`lruNext
      ensures Linked() && order == Without(old(order), k)
      ensures View() == Without(old(View()), k)
    {
      hide Linked, NoRepeats, ViewOf, Snapshot;
      ViewOfWithout(order, k);
      Detach(entry, k);
    }

    /** The pointer writes that take a node out of list and table. */
    method Discard(entry: ConnEntry, ghost k: nat)
      requires Valid() && k < |order| && order[k] == entry
      modifies this`head, this`tail, this`order, this`currentSize, order`lruPrev, order`lruNext
      modifies table, table.buckets, table.model.nexts.Keys`next
      ensures Valid() && order == Without(old(order), k)
      ensures View() == Without(old(View()), k)
      ensures table.model.nexts.Keys == old(table.model.nexts.Keys) - {entry}
    {
      hide HashTable.Valid, Linked, NoRepeats, Aligned, ViewOf, ConnTuple.Key, Snapshot;
      ListEnds();
      ListNodes();
      AlignedWithout(order, table.model.nexts.Keys, k);
      Unlist(entry, k);
      Unfile(entry);
      currentSize := currentSize - 1;
    }

    /** lru_cache_remove */
    method Remove(key: ConnTuple) returns (found: bool)
      requires Valid()
      modifies this, table, table.buckets, table.model.nexts.Keys
      ensures Valid() && found == !Absent(old(View()), key.Key())
      ensures View() == Removed(old(View()), key.Key())
      ensures RemovalLeaves(old(View()), View(), key.Key())
      ensures table.model.nexts.Keys <= old(table.model.nexts.Keys)
    {
      hide HashTable.Valid, Linked, NoRepeats, Aligned, ViewOf, ConnTuple.Key, Snapshot, AccessLeaves, RemovalLeaves, CleanupLeaves, Absent;
      Leaves(key, 0);
      ListNodes();
      var entry := table.Lookup(key);
      found := entry != null;
      if found {
        ghost var k := PositionOf(key.Key());
        Discard(entry, k);
      } else {
        NoPosition(key.Key());
      }
    }

    lemma Predecessor(k: nat)
      requires Linked() && k < |order|
      ensures Opt(order[k].lruPrev) == At(order, k - 1)
    {
    }

    /** One entry of the clean-up walk: discard it when it has expired. */
    method CleanOne(entry: ConnEntry, ghost k: nat, now: int) returns (prev: ConnEntry?, removed: bool)
      requires Valid() && k < |order| && order[k] == entry
      modifies this`head, this`tail, this`order, this`currentSize, order`lruPrev, order`lruNext
      modifies table, table.buckets, table.model.nexts.Keys`next
      ensures Valid() && Opt(prev) == At(order, k - 1)
      ensures removed == Expired(old(View())[k], now)
      ensures View() == if removed then Without(old(View()), k) else old(View())
      ensures table.model.nexts.Keys <= old(table.model.nexts.Keys)
    {
      hide HashTable.Valid, Linked, NoRepeats, Aligned, ViewOf, ConnTuple.Key;
      Predecessor(k);
      prev := entry.lruPrev;
      removed := now - entry.lastSeen > Timeout(entry.tuple.protocol, entry.state);
      if removed {
        Discard(entry, k);
      }
    }

    lemma TailIsLast()
      requires Valid()
      ensures Opt(tail) == At(order, |order| - 1)
    {
    }

    /** lru_cache_cleanup_expired: one walk from the tail to the head. */
    method CleanupExpired(now: int) returns (cleaned: nat)
      requires Valid()
      modifies this, table, table.buckets, table.model.nexts.Keys
      ensures Valid()
      ensures View() == Live(old(View()), now)
      ensures CleanupLeaves(old(View()), View(), now)
      ensures cleaned == |old(View())| - |View()|
      ensures table.model.nexts.Keys <= old(table.model.nexts.Keys)
    {
      hide Valid, Linked, NoRepeats, ViewOf, ConnTuple.Key, Snapshot, Expired, Live, Without, Cleaned, CleanupLeaves;
      LiveLeaves(View(), now);
      ghost var v := View();
      ghost var k: nat := |order|;
      var entry := tail;
      cleaned := 0;
      TailIsLast();
      CleanStart(v, now);
      while entry != null
        invariant Valid() && table.model.nexts.Keys <= old(table.model.nexts.Keys)
        invariant k <= |order| && k <= |v| && Opt(entry) == At(order, k - 1)
        invariant Cleaned(v, View(), k, now)
        invariant cleaned == |v| - |order|
        decreases k
      {
        CleanStep(v, View(), k, now);
        ListNodes();
        var prev, removed := CleanOne(entry, k - 1, now);
        if removed {
          cleaned := cleaned + 1;
        }
        entry := prev;
        k := k - 1;
      }
    }
  }
}
