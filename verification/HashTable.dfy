/** Connection entries and the chained table over them (include/common.h, src/storage/hashtable.c). */
module ConnTable {
  import opened Addresses
  import opened Chains
  import opened Options

  datatype TcpState = SynSent | SynReceived | Established | FinWait | CloseWait | Closed

  /** conn_entry_t: one object, linked both into a hash chain and into the recency list. */
  class ConnEntry {
    const tuple: ConnTuple
    /** What identifies the connection. */
    ghost const key: TupleKey
    const firstSeen: int
    var state: TcpState
    var lastSeen: int
    var packets: nat
    var bytes: nat
    var next: ConnEntry?
    var lruPrev: ConnEntry?
    var lruNext: ConnEntry?

    constructor (tuple: ConnTuple, now: int)
      ensures this.tuple == tuple && key == tuple.Key() && firstSeen == lastSeen == now
      ensures packets == bytes == 0 && state == Closed
      ensures next == lruPrev == lruNext == null
    {
      this.tuple, key := tuple, tuple.Key();
      firstSeen, lastSeen := now, now;
      packets, bytes, state := 0, 0, Closed;
      next, lruPrev, lruNext := null, null, null;
    }
  }

  ghost function Opt(p: ConnEntry?): Option<ConnEntry> {
    if p == null then None else var q: ConnEntry := p; Some(q)
  }

  /** Which bucket of a table of the given size a node belongs to. */
  ghost function SlotOf(hash: TupleKey -> nat, size: nat): ConnEntry -> nat
    requires size > 0
  {
    (e: ConnEntry) => hash(e.key) % size
  }

  /** What a table stands for: the finite map, its pointers as values, and the order of its chains. */
  datatype Model = Model(contents: map<TupleKey, ConnEntry>, heads: seq<Option<ConnEntry>>,
                         nexts: map<ConnEntry, Option<ConnEntry>>, stamps: map<ConnEntry, nat>, clock: nat)
  {
    ghost predicate Indexed() {
      && (forall x {:trigger contents[x]} :: x in contents ==> contents[x].key == x && contents[x] in nexts)
      && (forall e {:trigger e.key} :: e in nexts ==> e.key in contents && contents[e.key] == e)
      && (forall e {:trigger e.tuple} :: e in nexts ==> e.tuple.Key() == e.key)
    }

    ghost predicate Sound(slot: ConnEntry -> nat) {
      && Indexed()
      && Stamped(stamps, slot, clock)
      && HeadsLead(heads, stamps, slot, clock)
      && NextsLead(nexts, stamps, slot)
    }

    ghost function Pushed(i: nat, e: ConnEntry): (m: Model)
      requires i < |heads|
      ensures m.nexts.Keys == nexts.Keys + {e}
    {
      Model(contents[e.key := e], heads[i := Some(e)], nexts[e := heads[i]], stamps[e := clock], clock + 1)
    }

    /** Whoever points at e points past it; prev is the node in front of it, if there is one. */
    ghost function Unlinked(i: nat, prev: Option<ConnEntry>, e: ConnEntry): (m: Model)
      requires i < |heads| && e in nexts && (prev.Some? ==> prev.value in nexts)
      ensures m.nexts.Keys == nexts.Keys - {e}
    {
      Model(contents - {e.key},
            if prev.None? then heads[i := nexts[e]] else heads,
            (if prev.None? then nexts else nexts[prev.value := nexts[e]]) - {e},
            stamps - {e}, clock)
    }
  }

  lemma PushIndexed(m: Model, i: nat, e: ConnEntry)
    requires m.Indexed() && i < |m.heads|
    requires e.key !in m.contents && e.key == e.tuple.Key()
    ensures m.Pushed(i, e).Indexed()
    ensures e !in m.nexts
  {
  }

  lemma PushCount(m: Model, i: nat, e: ConnEntry)
    requires m.Indexed() && i < |m.heads| && e.key !in m.contents && e !in m.nexts
    ensures |m.Pushed(i, e).contents| == |m.contents| + 1
  {
  }

  lemma PushSound(m: Model, slot: ConnEntry -> nat, e: ConnEntry)
    requires m.Sound(slot) && slot(e) < |m.heads|
    requires e.key !in m.contents && e.key == e.tuple.Key()
    ensures m.Pushed(slot(e), e).Sound(slot)
    ensures e !in m.nexts
    ensures |m.Pushed(slot(e), e).contents| == |m.contents| + 1
  {
    hide Model.Indexed, Stamped, HeadsLead, Leads;
    PushIndexed(m, slot(e), e);
    PushCount(m, slot(e), e);
    PushHeads(m.heads, m.stamps, slot, m.clock, e);
    PushNexts(m.heads, m.nexts, m.stamps, slot, m.clock, e);
  }

  lemma UnlinkIndexed(m: Model, i: nat, prev: Option<ConnEntry>, e: ConnEntry)
    requires m.Indexed() && i < |m.heads| && e in m.nexts
    requires prev.Some? ==> prev.value in m.nexts
    ensures m.Unlinked(i, prev, e).Indexed()
    ensures e.key in m.contents && |m.Unlinked(i, prev, e).contents| == |m.contents| - 1
  {
  }

  lemma UnlinkSound(m: Model, slot: ConnEntry -> nat, prev: Option<ConnEntry>, e: ConnEntry)
    requires m.Sound(slot) && e in m.nexts && slot(e) < |m.heads|
    requires prev.None? ==> m.heads[slot(e)] == Some(e)
    requires prev.Some? ==> prev.value in m.nexts && m.nexts[prev.value] == Some(e)
    ensures m.Unlinked(slot(e), prev, e).Sound(slot)
    ensures prev.Some? ==> prev.value != e
  {
    UnlinkIndexed(m, slot(e), prev, e);
    UnlinkOrder(m, slot, prev, e);
  }

  lemma UnlinkOrder(m: Model, slot: ConnEntry -> nat, prev: Option<ConnEntry>, e: ConnEntry)
    requires Stamped(m.stamps, slot, m.clock) && HeadsLead(m.heads, m.stamps, slot, m.clock)
    requires NextsLead(m.nexts, m.stamps, slot)
    requires e in m.nexts && slot(e) < |m.heads|
    requires prev.None? ==> m.heads[slot(e)] == Some(e)
    requires prev.Some? ==> prev.value in m.nexts && m.nexts[prev.value] == Some(e)
    ensures var m' := m.Unlinked(slot(e), prev, e);
            Stamped(m'.stamps, slot, m'.clock) && HeadsLead(m'.heads, m'.stamps, slot, m'.clock) && NextsLead(m'.nexts, m'.stamps, slot)
    ensures prev.Some? ==> prev.value != e
  {
    var m' := m.Unlinked(slot(e), prev, e);
    OnePointer(m.heads, m.nexts, m.stamps, slot, m.clock, e);
    assert Leads(m.stamps, slot, m.nexts[e], slot(e), m.stamps[e]);
    UnlinkHeads(m.heads, m'.heads, m.nexts[e], m.stamps, slot, m.clock, e);
    UnlinkNexts(m.nexts, m'.nexts, m.stamps, slot, m.clock, e);
  }

  class HashTable {
    const hash: TupleKey -> nat
    const buckets: array<ConnEntry?>
    ghost const slot: ConnEntry -> nat
    var entries: nat
    ghost var model: Model

    /** The pointers in memory are the ones of the model. */
    ghost predicate Mirrored()
      reads this, buckets, model.nexts.Keys`next
    {
      && |model.heads| == buckets.Length
      && (forall i {:trigger buckets[i]} :: 0 <= i < buckets.Length ==> Opt(buckets[i]) == model.heads[i])
      && (forall e {:trigger e.next} :: e in model.nexts ==> Opt(e.next) == model.nexts[e])
    }

    ghost predicate Valid()
      reads this, buckets, model.nexts.Keys`next
    {
      && buckets.Length > 0 && slot == SlotOf(hash, buckets.Length)
      && Mirrored() && entries == |model.contents| && model.Sound(slot)
    }

    constructor (size: nat, hash: TupleKey -> nat)
      requires size > 0
      ensures Valid() && fresh(buckets) && buckets.Length == size && this.hash == hash
      ensures model.contents == map[]
    {
      this.hash, slot := hash, SlotOf(hash, size);
      buckets := new ConnEntry?[size](_ => null);
      entries := 0;
      model := Model(map[], seq(size, _ => None), map[], map[], 0);
    }

    /** A node of the table is the one its own connection finds. */
    lemma NodeKnown(e: ConnEntry)
      requires Valid() && e in model.nexts
      ensures e.tuple.Key() == e.key && e.key in model.contents && model.contents[e.key] == e
    {
    }

    lemma NewNode(e: ConnEntry)
      requires Valid() && e.key !in model.contents
      ensures e !in model.nexts
    {
    }

    lemma ContentsAreNodes(x: TupleKey)
      requires Valid() && x in model.contents
      ensures model.contents[x] in model.nexts && model.contents[x].key == x
    {
    }

    /** The walk along a chain: the first node with the key, and the node in front of it. */
    method Locate(key: ConnTuple) returns (prev: ConnEntry?, entry: ConnEntry?)
      requires Valid()
      ensures entry == if key.Key() in model.contents then model.contents[key.Key()] else null
      ensures prev != null ==> prev in model.nexts && Opt(entry) == model.nexts[prev]
      ensures prev == null ==> Opt(entry) == model.heads[hash(key.Key()) % buckets.Length]
    {
      ghost var k := key.Key();
      var idx := hash(key.Key()) % buckets.Length;
      entry, prev := buckets[idx], null;
      ghost var bound := model.clock;
      while entry != null
        invariant Leads(model.stamps, slot, Opt(entry), idx, bound)
        invariant k in model.contents ==> model.stamps[model.contents[k]] < bound
        invariant if prev == null then Opt(entry) == model.heads[idx] else prev in model.nexts && Opt(entry) == model.nexts[prev]
        decreases bound
      {
        var cmp := CompareTuples(entry.tuple, key);
        if cmp == 0 {
          return;
        }
        bound := model.stamps[entry];
        assert Leads(model.stamps, slot, model.nexts[entry], idx, bound);
        prev := entry;
        entry := entry.next;
      }
    }

    /** hashtable_lookup */
    method Lookup(key: ConnTuple) returns (entry: ConnEntry?)
      requires Valid()
      ensures entry == if key.Key() in model.contents then model.contents[key.Key()] else null
    {
      var prev;
      prev, entry := Locate(key);
    }

    /** hashtable_insert of a connection the table does not hold yet: a new head for its chain. */
    method Insert(key: ConnTuple, entry: ConnEntry)
      requires Valid()
      requires key.Key() == entry.key == entry.tuple.Key() && key.Key() !in model.contents
      modifies this, buckets, entry`next
      ensures Valid()
      ensures model.contents == old(model.contents)[entry.key := entry]
      ensures model.nexts.Keys == old(model.nexts.Keys) + {entry}
      ensures entries == old(entries) + 1
    {
      var existing := Lookup(key);
      assert existing == null;
      PushEntry(hash(key.Key()) % buckets.Length, entry);
    }

    method PushEntry(idx: nat, entry: ConnEntry)
      requires Valid()
      requires idx == slot(entry) < buckets.Length
      requires entry.key !in model.contents && entry.key == entry.tuple.Key()
      modifies this, buckets, entry`next
      ensures Valid()
      ensures model == old(model).Pushed(idx, entry)
      ensures entries == old(entries) + 1
    {
      hide Model.Sound, Model.Pushed;
      PushSound(model, slot, entry);
      LinkFront(idx, entry);
    }

    /** The pointer writes of an insertion. */
    method LinkFront(idx: nat, entry: ConnEntry)
      requires Mirrored() && idx < buckets.Length && entry !in model.nexts
      modifies this, buckets, entry`next
      ensures Mirrored() && model == old(model).Pushed(idx, entry)
      ensures entries == old(entries) + 1
    {
      entry.next := buckets[idx];
      buckets[idx] := entry;
      entries := entries + 1;
      model := model.Pushed(idx, entry);
    }

    /** The pointer writes of a removal. */
    method LinkAround(idx: nat, prev: ConnEntry?, entry: ConnEntry)
      requires Mirrored() && idx < buckets.Length && entry in model.nexts && entries > 0
      requires prev != null ==> prev in model.nexts && prev != entry
      modifies this, buckets, model.nexts.Keys`next
      ensures Mirrored() && model == old(model).Unlinked(idx, Opt(prev), entry)
      ensures entries == old(entries) - 1
    {
      if prev != null {
        prev.next := entry.next;
      } else {
        buckets[idx] := entry.next;
      }
      entries := entries - 1;
      model := model.Unlinked(idx, Opt(prev), entry);
    }

    /** hashtable_remove: unlink the node with this key. */
    method Remove(key: ConnTuple) returns (found: bool)
      requires Valid()
      modifies this, buckets, model.nexts.Keys`next
      ensures Valid()
      ensures found == (key.Key() in old(model.contents))
      ensures found ==> model.contents == old(model.contents) - {key.Key()} && entries == old(entries) - 1
      ensures found ==> model.nexts.Keys == old(model.nexts.Keys) - {old(model.contents)[key.Key()]}
      ensures !found ==> model == old(model) && entries == old(entries)
    {
      var prev, entry := Locate(key);
      found := entry != null;
      if found {
        UnlinkEntry(hash(key.Key()) % buckets.Length, prev, entry);
      }
    }

    method UnlinkEntry(idx: nat, prev: ConnEntry?, entry: ConnEntry)
      requires Valid()
      requires entry in model.nexts && idx == slot(entry) < buckets.Length
      requires if prev == null then model.heads[idx] == Some(entry) else prev in model.nexts && model.nexts[prev] == Some(entry)
      modifies this, buckets, model.nexts.Keys`next
      ensures Valid()
      ensures model == old(model).Unlinked(idx, Opt(prev), entry)
      ensures entries == old(entries) - 1
    {
      UnlinkSound(model, slot, Opt(prev), entry);
      UnlinkIndexed(model, idx, Opt(prev), entry);
      LinkAround(idx, prev, entry);
    }
  }
}
