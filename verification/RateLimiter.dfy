/** The per-source rate limiter of src/filter/ratelimit.c. A chain is kept as
    the sequence of its entries, with links of their own; RateAsWritten is about the links the code has. */
module RateLimiters {
  import opened Addresses
  import opened IpHash
  import opened Lists
  import opened SlidingWindows
  import opened RateTheory
  import RateRuns

  const RATE_LIMIT_BUCKETS := 65536

  /** rate_limit_entry_t: the two windows of one source. */
  class RateEntry {
    const ip: IpAddr
    const ppsWindow: SlidingWindow
    const bpsWindow: SlidingWindow
    var lastUpdate: int
    var totalPackets: nat
    var totalBytes: nat

    ghost function Footprint(): set<object> {
      {this, ppsWindow, ppsWindow.buckets, bpsWindow, bpsWindow.buckets}
    }

    ghost predicate Valid(window: nat)
      reads Footprint()
    {
      && ppsWindow != bpsWindow && ppsWindow.buckets != bpsWindow.buckets
      && ppsWindow.size == bpsWindow.size == window > 0
      && ppsWindow.windowStart == bpsWindow.windowStart
      && ppsWindow.Valid() && bpsWindow.Valid()
    }

    /** What the entry remembers. */
    ghost function Memory(): Source
      reads Footprint()
    {
      Source(ppsWindow.windowStart, ppsWindow.log, bpsWindow.log)
    }

    constructor (ip: IpAddr, window: nat, now: int)
      requires window > 0
      ensures this.ip == ip && Valid(window) && Memory() == FirstSeen(now)
      ensures fresh(Footprint())
    {
      this.ip := ip;
      ppsWindow := new SlidingWindow(window, now);
      bpsWindow := new SlidingWindow(window, now);
      lastUpdate, totalPackets, totalBytes := now, 0, 0;
    }

    /** Count a packet, then compare the two window averages with the limits. */
    method Judge(size: nat, now: int, lim: Limits) returns (allowed: bool)
      requires Valid(lim.window)
      modifies Footprint()
      ensures Valid(lim.window)
      ensures Memory() == Counted(old(Memory()), size, now)
      ensures allowed == Allowed(Memory(), lim, now)
      ensures totalPackets == old(totalPackets) + 1 && totalBytes == old(totalBytes) + size && lastUpdate == now
    {
      hide SlidingWindow.Tracks, WindowSum;
      ppsWindow.Add(1, now);
      bpsWindow.Add(size, now);
      totalPackets := totalPackets + 1;
      totalBytes := totalBytes + size;
      lastUpdate := now;
      var packets := ppsWindow.WindowTotal(now);
      var bytes := bpsWindow.WindowTotal(now);
      allowed := packets / lim.window <= lim.maxPps && bytes / lim.window <= lim.maxBps;
    }
  }

  function SlotOf(x: IpKey): (i: nat)
    ensures i < RATE_LIMIT_BUCKETS
  {
    HashOf(x) % RATE_LIMIT_BUCKETS
  }

  /** ip_hash_simple */
  method HashSimple(ip: IpAddr) returns (idx: nat)
    ensures idx == SlotOf(ip.Key())
  {
    var hash := HashAddress(ip);
    idx := hash % RATE_LIMIT_BUCKETS;
  }

  /** Every entry stands once, in the bucket of its address. */
  ghost predicate Filed(buckets: seq<seq<RateEntry>>, entries: map<IpKey, RateEntry>) {
    && |buckets| == RATE_LIMIT_BUCKETS
    && (forall i, k {:trigger buckets[i][k]} :: 0 <= i < |buckets| && 0 <= k < |buckets[i]| ==>
          Listed(entries, buckets[i][k]) && SlotOf(buckets[i][k].ip.Key()) == i)
    && (forall x {:trigger entries[x]} :: x in entries ==> entries[x].ip.Key() == x && entries[x] in buckets[SlotOf(x)])
    && (forall i, j, k {:trigger buckets[i][j], buckets[i][k]} :: 0 <= i < |buckets| && 0 <= j < k < |buckets[i]| ==>
          buckets[i][j] != buckets[i][k])
  }

  ghost predicate Listed(entries: map<IpKey, RateEntry>, e: RateEntry) {
    e.ip.Key() in entries && entries[e.ip.Key()] == e
  }

  /** No two entries share a window. */
  ghost predicate Apart(entries: map<IpKey, RateEntry>) {
    forall x, y {:trigger entries[x], entries[y]} :: x in entries && y in entries && x != y ==>
      entries[x].Footprint() !! entries[y].Footprint()
  }

  lemma FiledInsert(buckets: seq<seq<RateEntry>>, entries: map<IpKey, RateEntry>, e: RateEntry)
    requires Filed(buckets, entries) && e.ip.Key() !in entries
    ensures var i := SlotOf(e.ip.Key());
            Filed(buckets[i := [e] + buckets[i]], entries[e.ip.Key() := e])
  {
    hide IpAddr.Key, SlotOf;
    var i := SlotOf(e.ip.Key());
    var after := buckets[i := [e] + buckets[i]];
    forall x | x in entries[e.ip.Key() := e]
      ensures entries[e.ip.Key() := e][x] in after[SlotOf(x)]
    {
      if x == e.ip.Key() {
        assert after[i][0] == e;
      } else if SlotOf(x) == i {
        var k :| 0 <= k < |buckets[i]| && buckets[i][k] == entries[x];
        assert after[i][k + 1] == entries[x];
      }
    }
    forall j, k | 0 <= j < |after| && 0 <= k < |after[j]|
      ensures Listed(entries[e.ip.Key() := e], after[j][k]) && SlotOf(after[j][k].ip.Key()) == j
      ensures k > 0 ==> after[j][k] != e
    {
      assert after[j][k] == if j == i then (if k == 0 then e else buckets[i][k - 1]) else buckets[j][k];
    }
  }

  lemma FiledRemove(buckets: seq<seq<RateEntry>>, entries: map<IpKey, RateEntry>, i: nat, k: nat)
    requires Filed(buckets, entries) && i < |buckets| && k < |buckets[i]|
    ensures Filed(buckets[i := Without(buckets[i], k)], entries - {buckets[i][k].ip.Key()})
  {
    hide IpAddr.Key, SlotOf;
    var e := buckets[i][k];
    var after := buckets[i := Without(buckets[i], k)];
    assert Listed(entries, e);
    forall x | x in entries - {e.ip.Key()}
      ensures entries[x] in after[SlotOf(x)]
    {
      if SlotOf(x) == i {
        var j :| 0 <= j < |buckets[i]| && buckets[i][j] == entries[x];
        assert after[i][if j < k then j else j - 1] == entries[x];
      }
    }
    forall j, m | 0 <= j < |after| && 0 <= m < |after[j]|
      ensures after[j][m] == buckets[j][if j == i && m >= k then m + 1 else m]
    {
    }
    forall j, m | 0 <= j < |after| && 0 <= m < |after[j]|
      ensures Listed(entries - {e.ip.Key()}, after[j][m]) && SlotOf(after[j][m].ip.Key()) == j
    {
      var was := buckets[j][if j == i && m >= k then m + 1 else m];
      assert Listed(entries, was) && was != e;
    }
  }

  class RateLimiter {
    const limits: Limits
    const buckets: array<seq<RateEntry>>
    ghost var entries: map<IpKey, RateEntry>

    ghost function Repr(): set<object>
      reads this
    {
      {this, buckets} + set x, o | x in entries && o in entries[x].Footprint() :: o
    }

    ghost predicate Valid()
      reads Repr()
    {
      && limits.window > 0
      && Filed(buckets[..], entries)
      && Apart(entries)
      && (forall x {:trigger entries[x]} :: x in entries ==> entries[x].Valid(limits.window))
      && (forall x {:trigger entries[x]} :: x in entries ==> this !in entries[x].Footprint() && buckets !in entries[x].Footprint())
    }

    /** What the limiter remembers of every source it knows. */
    ghost function Sources(): map<IpKey, Source>
      reads Repr()
    {
      map x | x in entries :: entries[x].Memory()
    }

    /** rate_limiter_create */
    constructor (maxPps: nat, maxBps: nat, windowSize: nat)
      requires windowSize > 0
      ensures Valid() && Sources() == map[] && limits == Limits(maxPps, maxBps, windowSize)
      ensures fresh(Repr())
    {
      limits := Limits(maxPps, maxBps, windowSize);
      buckets := new seq<RateEntry>[RATE_LIMIT_BUCKETS](_ => []);
      entries := map[];
    }

    lemma Bucket(x: IpKey)
      requires Valid()
      ensures buckets.Length == RATE_LIMIT_BUCKETS
      ensures forall k {:trigger buckets[SlotOf(x)][k]} :: 0 <= k < |buckets[SlotOf(x)]| ==>
                Listed(entries, buckets[SlotOf(x)][k])
      ensures x in entries ==> exists k :: 0 <= k < |buckets[SlotOf(x)]| && buckets[SlotOf(x)][k].ip.Key() == x
    {
      hide IpAddr.Key, SlotOf;
      if x in entries {
        var k :| 0 <= k < |buckets[SlotOf(x)]| && buckets[SlotOf(x)][k] == entries[x];
      }
    }

    /** The walk along a chain. */
    method Find(ip: IpAddr) returns (idx: nat, k: nat, entry: RateEntry?)
      requires Valid()
      ensures Valid() && Sources() == old(Sources())
      ensures idx == SlotOf(ip.Key()) && idx < buckets.Length
      ensures entry == if ip.Key() in entries then entries[ip.Key()] else null
      ensures entry != null ==> k < |buckets[idx]| && entry == buckets[idx][k]
    {
      hide IpAddr.Key, SlotOf, RateEntry.Valid, RateEntry.Memory, Filed, Apart;
      idx := HashSimple(ip);
      Bucket(ip.Key());
      k, entry := 0, null;
      while k < |buckets[idx]|
        invariant k <= |buckets[idx]|
        invariant forall j :: 0 <= j < k ==> buckets[idx][j].ip.Key() != ip.Key()
      {
        IpCompareZero(buckets[idx][k].ip, ip);
        if IpCompare(buckets[idx][k].ip, ip) == 0 {
          return idx, k, buckets[idx][k];
        }
        k := k + 1;
      }
    }

    lemma SourcesAre(m: map<IpKey, Source>)
      requires Valid() && m.Keys == entries.Keys
      requires forall x {:trigger m[x]} :: x in entries ==> m[x] == entries[x].Memory()
      ensures Sources() == m
    {
      hide RateEntry.Memory, RateEntry.Valid, Filed;
    }

    lemma SourcesGive()
      requires Valid()
      ensures Sources().Keys == entries.Keys
      ensures forall x {:trigger entries[x]} :: x in entries ==> Sources()[x] == entries[x].Memory()
    {
      hide RateEntry.Memory, RateEntry.Valid, Filed;
    }

    /** calloc: an entry that shares nothing with the others. */
    method Make(ip: IpAddr, now: int) returns (entry: RateEntry)
      requires Valid()
      ensures Valid() && Sources() == old(Sources())
      ensures entry.ip == ip && entry.Valid(limits.window) && entry.Memory() == FirstSeen(now)
      ensures forall x {:trigger entries[x]} :: x in entries ==> entries[x].Footprint() !! entry.Footprint()
      ensures this !in entry.Footprint() && buckets !in entry.Footprint() && fresh(entry.Footprint())
    {
      hide IpAddr.Key, SlotOf, RateEntry.Valid, RateEntry.Memory, Filed;
      entry := new RateEntry(ip, limits.window, now);
    }

    /** A first sighting: a new entry at the head of its chain. */
    method Create(ip: IpAddr, idx: nat, now: int) returns (entry: RateEntry)
      requires Valid() && idx == SlotOf(ip.Key()) && ip.Key() !in entries
      modifies this, buckets
      ensures Valid() && entries == old(entries)[ip.Key() := entry]
      ensures Sources() == old(Sources())[ip.Key() := FirstSeen(now)]
      ensures fresh(entry.Footprint()) && entry.Memory() == FirstSeen(now)
    {
      hide Valid, IpAddr.Key, SlotOf, RateEntry.Valid, RateEntry.Memory, RateEntry.Footprint, Sources;
      entry := Make(ip, now);
      Enter(entry, idx);
    }

    method Enter(entry: RateEntry, idx: nat)
      requires Valid() && idx == SlotOf(entry.ip.Key()) && entry.ip.Key() !in entries
      requires entry.Valid(limits.window)
      requires forall x {:trigger entries[x]} :: x in entries ==> entries[x].Footprint() !! entry.Footprint()
      requires this !in entry.Footprint() && buckets !in entry.Footprint()
      modifies this, buckets
      ensures Valid() && entries == old(entries)[entry.ip.Key() := entry]
      ensures Sources() == old(Sources())[entry.ip.Key() := old(entry.Memory())] && entry.Memory() == old(entry.Memory())
    {
      hide IpAddr.Key, SlotOf, RateEntry.Valid, RateEntry.Memory, RateEntry.Footprint, Filed, Sources;
      SourcesGive();
      ghost var m := Sources()[entry.ip.Key() := entry.Memory()];
      FiledInsert(buckets[..], entries, entry);
      FiledSize();
      ghost var was := buckets[..];
      buckets[idx] := [entry] + buckets[idx];
      entries := entries[entry.ip.Key() := entry];
      assert buckets[..] == was[idx := [entry] + was[idx]];
      SourcesAre(m);
    }

    lemma FiledSize()
      requires Valid()
      ensures buckets.Length == RATE_LIMIT_BUCKETS
    {
    }

    /** One packet of a known source: no other source is touched. */
    method CountPacket(x: IpKey, entry: RateEntry, size: nat, now: int) returns (allowed: bool)
      requires Valid() && x in entries && entries[x] == entry
      modifies entry.Footprint()
      ensures Valid() && entries == old(entries)
      ensures Sources() == old(Sources())[x := Counted(old(entry.Memory()), size, now)]
      ensures allowed == Allowed(Sources()[x], limits, now)
    {
      hide IpAddr.Key, SlotOf, RateEntry.Valid, Filed, RateEntry.Memory;
      allowed := entry.Judge(size, now, limits);
      forall y | y in entries && y != x
        ensures entries[y].Valid(limits.window)
        ensures entries[y].Memory() == old(entries[y].Memory())
      {
        assert entries[y].Footprint() !! entry.Footprint();
      }
    }

    /** get_or_create_entry */
    method GetOrCreate(ip: IpAddr, now: int) returns (entry: RateEntry)
      requires Valid()
      modifies this, buckets
      ensures Valid() && ip.Key() in entries && entries[ip.Key()] == entry
      ensures Sources() == if ip.Key() in old(entries) then old(Sources()) else old(Sources())[ip.Key() := FirstSeen(now)]
      ensures entry.Footprint() <= old(Repr()) || fresh(entry.Footprint())
    {
      hide Valid, IpAddr.Key, SlotOf, RateEntry.Valid, RateEntry.Memory;
      var idx, k, found := Find(ip);
      if found != null {
        return found;
      }
      entry := Create(ip, idx, now);
    }

    /** rate_limiter_allow */
    method Allow(ip: IpAddr, packetSize: nat, now: int) returns (allowed: bool)
      requires Valid()
      modifies Repr()
      ensures Valid()
      ensures Sources() == RateRuns.Next(old(Sources()), RateRuns.Packet(ip.Key(), packetSize, now))
      ensures allowed == Allowed(Sources()[ip.Key()], limits, now)
    {
      hide Valid, IpAddr.Key, SlotOf, RateEntry.Valid, RateEntry.Memory, RateEntry.Footprint;
      var entry := GetOrCreate(ip, now);
      allowed := CountPacket(ip.Key(), entry, packetSize, now);
    }

    /** rate_limiter_reset: the source is unlinked and forgotten. */
    method Reset(ip: IpAddr)
      requires Valid()
      modifies this, buckets
      ensures Valid()
      ensures Sources() == RateRuns.Next(old(Sources()), RateRuns.Reset(ip.Key()))
    {
      hide Valid, IpAddr.Key, SlotOf, RateEntry.Valid, RateEntry.Memory;
      var idx, k, entry := Find(ip);
      if entry != null {
        Leave(ip.Key(), idx, k);
      }
    }

    method Leave(ghost x: IpKey, idx: nat, k: nat)
      requires Valid() && x in entries && idx < buckets.Length && k < |buckets[idx]| && buckets[idx][k] == entries[x]
      modifies this, buckets
      ensures Valid() && entries == old(entries) - {x}
      ensures Sources() == old(Sources()) - {x}
    {
      hide IpAddr.Key, SlotOf, RateEntry.Valid, RateEntry.Memory, RateEntry.Footprint, Filed, Sources;
      SourcesGive();
      ghost var m := Sources() - {x};
      FiledRemove(buckets[..], entries, idx, k);
      FiledSize();
      KeyOfEntry(x);
      ghost var was := buckets[..];
      buckets[idx] := buckets[idx][..k] + buckets[idx][k + 1..];
      entries := entries - {x};
      assert buckets[..] == was[idx := Without(was[idx], k)];
      SourcesAre(m);
    }

    lemma KeyOfEntry(x: IpKey)
      requires Valid() && x in entries
      ensures entries[x].ip.Key() == x
    {
    }
  }
}
