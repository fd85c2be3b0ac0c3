/** The reputation of sources and the expiring blacklist it feeds (src/detection/analyzer.c).
    The protocol rules are an arbitrary verdict for each packet. The table of sources keeps what it
    creates, as is evidently meant; AnalyzerAsWritten is about the table the code has. */
module Reputation {
  import opened Addresses
  import opened Bits
  import opened Cidr
  import opened IpSetAnswers
  import opened IpSetTheory
  import opened Options
  import opened TcpTheory

  /** The part of ip_stats_t the analyzer owns. */
  datatype Standing = Standing(score: Word, blacklisted: bool, whitelisted: bool, expires: int)

  const NEUTRAL := Standing(50, false, false, 0)

  /** Unsigned 32-bit addition of a signed number. */
  function AddWrapping(score: Word, delta: int): Word {
    (score + delta) % 0x1_0000_0000
  }

  function NewScore(score: Word, delta: int): Word {
    var sum := AddWrapping(score, delta);
    if sum > 100 then 100 else sum
  }

  /** The update found a reputation below 10 and no earlier block. */
  predicate Blocks(s: Standing, delta: int) {
    NewScore(s.score, delta) < 10 && !s.blacklisted
  }

  function Updated(s: Standing, delta: int, now: int, duration: nat): Standing {
    var s' := s.(score := NewScore(s.score, delta));
    if Blocks(s, delta) then s'.(blacklisted := true, expires := now + duration) else s'
  }

  /** The clock as the two list look-ups and the reputation update of one packet read it. */
  datatype Instants = Instants(white: int, black: int, update: int)

  /** A packet from a source, what the protocol rules say about it, and the reputation the HTTP
      rules leave behind when they ran; or a change to one of the two sets from outside. */
  datatype Event =
    | Arrival(ip: IpAddr, ruling: Verdict, rescored: Option<Word>, t: Instants)
    | WhiteOp(op: Op)
    | BlackOp(op: Op)

  datatype World = World(standings: map<IpKey, Standing>, whitelist: IpTable, blacklist: IpTable)

  ghost predicate Shaped(w: World) {
    |w.whitelist.chains| == IPSET_BUCKETS == |w.blacklist.chains|
  }

  function StandingOf(w: World, x: IpKey): Standing {
    if x in w.standings then w.standings[x] else NEUTRAL
  }

  function DeltaOf(v: Verdict): int {
    match v
    case DropPacket => -10
    case Accept => 1
    case RateLimit => 0
    case Challenge => 0
  }

  function Rescored(s: Standing, rescored: Option<Word>): Standing {
    if rescored.Some? then s.(score := rescored.value) else s
  }

  /** The packet gets past both lists, so the protocol rules decide about it. */
  ghost predicate Passes(w: World, ip: IpAddr, t: Instants) {
    !ContainsCidr(w.whitelist, ip, t.white) && !ContainsCidr(w.blacklist, ip, t.black)
  }

  /** analyzer_process_packet */
  ghost function Process(w: World, ip: IpAddr, ruling: Verdict, rescored: Option<Word>, t: Instants, duration: nat): (r: (World, Verdict))
    requires Shaped(w)
    ensures Shaped(r.0)
  {
    var x := ip.Key();
    var s := StandingOf(w, x);
    if ContainsCidr(w.whitelist, ip, t.white) then
      (w.(standings := w.standings[x := s.(whitelisted := true)]), Accept)
    else if ContainsCidr(w.blacklist, ip, t.black) then
      (w.(standings := w.standings[x := s.(blacklisted := true)]), DropPacket)
    else
      var s := Rescored(s, rescored);
      if ruling == DropPacket || ruling == Accept then
        var s' := Updated(s, DeltaOf(ruling), t.update, duration);
        var blacklist := if Blocks(s, DeltaOf(ruling)) then AddHost(w.blacklist, ip, t.update + duration) else w.blacklist;
        (World(w.standings[x := s'], w.whitelist, blacklist), ruling)
      else (w.(standings := w.standings[x := s]), ruling)
  }

  ghost function Step(w: World, e: Event, duration: nat): (r: World)
    requires Shaped(w)
    ensures Shaped(r)
  {
    match e
    case Arrival(ip, ruling, rescored, t) => Process(w, ip, ruling, rescored, t, duration).0
    case WhiteOp(op) => w.(whitelist := Next(w.whitelist, op))
    case BlackOp(op) => w.(blacklist := Next(w.blacklist, op))
  }

  ghost function After(w: World, es: seq<Event>, duration: nat): (r: World)
    requires Shaped(w)
    ensures Shaped(r)
  {
    if es == [] then w else Step(After(w, es[..|es| - 1], duration), es[|es| - 1], duration)
  }

  ghost function Start(maxWhite: nat, maxBlack: nat): (r: World)
    ensures Shaped(r)
  {
    World(map[], Empty(maxWhite), Empty(maxBlack))
  }

  /** How one event moves the standing of a source. */
  ghost function Moved(w: World, e: Event, x: IpKey, duration: nat): Standing {
    var s := StandingOf(w, x);
    if !e.Arrival? || e.ip.Key() != x then s
    else if ContainsCidr(w.whitelist, e.ip, e.t.white) then s.(whitelisted := true)
    else if ContainsCidr(w.blacklist, e.ip, e.t.black) then s.(blacklisted := true)
    else if e.ruling == DropPacket || e.ruling == Accept then
      Updated(Rescored(s, e.rescored), DeltaOf(e.ruling), e.t.update, duration)
    else Rescored(s, e.rescored)
  }

  lemma StandingMoves(w: World, e: Event, x: IpKey, duration: nat)
    requires Shaped(w)
    ensures StandingOf(Step(w, e, duration), x) == Moved(w, e, x, duration)
  {
    hide ContainsCidr, AddHost, Next, IpAddr.Key, Updated, Blocks, Rescored;
  }

  // ----- the arithmetic of one update

  /** A drop takes ten points unless fewer than ten are left; then the subtraction wraps and the
      cap turns the result into a perfect reputation. */
  lemma DropWrapsExactlyBelowTen(score: Word)
    ensures NewScore(score, -10) == if score < 10 then 100 else if score > 110 then 100 else score - 10
    ensures NewScore(score, -10) < score <==> score >= 10
  {
  }

  // ----- the sandwich

  /** How many packets of the source reached the reputation update with this verdict. */
  ghost function Updates(w: World, es: seq<Event>, x: IpKey, v: Verdict, duration: nat): nat
    requires Shaped(w)
  {
    if es == [] then 0 else
      var rest, e := es[..|es| - 1], es[|es| - 1];
      Updates(w, rest, x, v, duration) +
      if e.Arrival? && e.ip.Key() == x && e.ruling == v && Passes(After(w, rest, duration), e.ip, e.t) then 1 else 0
  }

  /** No HTTP rule touched the source. */
  ghost predicate NotHttp(es: seq<Event>, x: IpKey) {
    forall k {:trigger es[k]} :: 0 <= k < |es| && es[k].Arrival? && es[k].ip.Key() == x ==> es[k].rescored == None
  }

  ghost predicate Sandwiched(s: Standing, drops: nat, accepts: nat) {
    !s.blacklisted ==> 10 <= s.score <= 100 && 50 - 10 * drops <= s.score <= 50 - 10 * drops + accepts
  }

  lemma UpdateSandwiched(s: Standing, v: Verdict, now: int, duration: nat, drops: nat, accepts: nat)
    requires Sandwiched(s, drops, accepts) && (v == DropPacket || v == Accept)
    ensures Sandwiched(Updated(s, DeltaOf(v), now, duration),
                       drops + if v == DropPacket then 1 else 0, accepts + if v == Accept then 1 else 0)
    ensures Blocks(s, DeltaOf(v)) ==> v == DropPacket && drops >= 4 && s.score - 10 >= 0 && NewScore(s.score, -10) == s.score - 10
  {
  }

  /** For a source no HTTP rule touched, until it is first marked as blacklisted: after D drops and A
      accepts its score lies between 50 - 10D and 50 - 10D + A, and never below 10. */
  lemma {:induction false} ReputationSandwich(maxWhite: nat, maxBlack: nat, es: seq<Event>, x: IpKey, duration: nat)
    requires NotHttp(es, x)
    ensures var w := Start(maxWhite, maxBlack);
            Sandwiched(StandingOf(After(w, es, duration), x),
                       Updates(w, es, x, DropPacket, duration), Updates(w, es, x, Accept, duration))
  {
    hide ContainsCidr, Step, IpAddr.Key, Updated, Blocks, Sandwiched, NotHttp;
    var w := Start(maxWhite, maxBlack);
    if es == [] {
      NeutralSandwiched();
    } else {
      var rest, e := es[..|es| - 1], es[|es| - 1];
      NotHttpRest(es, x);
      ReputationSandwich(maxWhite, maxBlack, rest, x, duration);
      var now := After(w, rest, duration);
      var s, d, a := StandingOf(now, x), Updates(w, rest, x, DropPacket, duration), Updates(w, rest, x, Accept, duration);
      StandingMoves(now, e, x, duration);
      FlagsSandwiched(s, d, a);
      if e.Arrival? && (e.ruling == DropPacket || e.ruling == Accept) {
        UpdateSandwiched(s, e.ruling, e.t.update, duration, d, a);
      }
    }
  }

  lemma NeutralSandwiched()
    ensures Sandwiched(NEUTRAL, 0, 0)
  {
  }

  lemma NotHttpRest(es: seq<Event>, x: IpKey)
    requires NotHttp(es, x) && es != []
    ensures NotHttp(es[..|es| - 1], x)
    ensures var e := es[|es| - 1]; e.Arrival? && e.ip.Key() == x ==> e.rescored == None
  {
    hide IpAddr.Key;
  }

  lemma FlagsSandwiched(s: Standing, d: nat, a: nat)
    requires Sandwiched(s, d, a)
    ensures Sandwiched(s.(whitelisted := true), d, a) && Sandwiched(s.(blacklisted := true), d, a)
  {
  }

  /** Until a source is marked no drop wraps its score, and the drop that blocks it is at least its fifth. */
  lemma FewDropsNeverBlock(maxWhite: nat, maxBlack: nat, es: seq<Event>, x: IpKey, duration: nat, v: Verdict)
    requires NotHttp(es, x) && (v == DropPacket || v == Accept)
    ensures var w := Start(maxWhite, maxBlack); var s := StandingOf(After(w, es, duration), x);
            && (!s.blacklisted ==> NewScore(s.score, -10) == s.score - 10)
            && (Blocks(s, DeltaOf(v)) ==> v == DropPacket && Updates(w, es, x, DropPacket, duration) + 1 >= 5)
  {
    hide After, Updates, NotHttp;
    ReputationSandwich(maxWhite, maxBlack, es, x, duration);
    var w := Start(maxWhite, maxBlack);
    UpdateSandwiched(StandingOf(After(w, es, duration), x), v, 0, duration,
                     Updates(w, es, x, DropPacket, duration), Updates(w, es, x, Accept, duration));
  }

  // ----- the block

  /** The packet makes the analyzer put its source on the blacklist. */
  ghost predicate AutoBlocks(w: World, e: Event)
    requires Shaped(w)
  {
    && e.Arrival? && Passes(w, e.ip, e.t) && (e.ruling == DropPacket || e.ruling == Accept)
    && Blocks(Rescored(StandingOf(w, e.ip.Key()), e.rescored), DeltaOf(e.ruling))
  }

  ghost function AutoBlockCount(w: World, es: seq<Event>, x: IpKey, duration: nat): nat
    requires Shaped(w)
  {
    if es == [] then 0 else
      var rest, e := es[..|es| - 1], es[|es| - 1];
      AutoBlockCount(w, rest, x, duration) +
      if AutoBlocks(After(w, rest, duration), e) && e.ip.Key() == x then 1 else 0
  }

  lemma MarkStays(w: World, e: Event, x: IpKey, duration: nat)
    requires Shaped(w)
    ensures StandingOf(w, x).blacklisted ==> StandingOf(Step(w, e, duration), x).blacklisted
    ensures AutoBlocks(w, e) && e.ip.Key() == x ==>
              !StandingOf(w, x).blacklisted && StandingOf(Step(w, e, duration), x).blacklisted
  {
    hide ContainsCidr, Step, IpAddr.Key, NewScore;
    StandingMoves(w, e, x, duration);
  }

  /** Over any run, with HTTP or without, the analyzer puts a source on the blacklist at most once. */
  lemma {:induction false} BlockedAtMostOnce(w: World, es: seq<Event>, x: IpKey, duration: nat)
    requires Shaped(w)
    ensures AutoBlockCount(w, es, x, duration) <= 1
    ensures AutoBlockCount(w, es, x, duration) == 1 ==> StandingOf(After(w, es, duration), x).blacklisted
  {
    hide Step, AutoBlocks, StandingOf, IpAddr.Key;
    if es != [] {
      var rest, e := es[..|es| - 1], es[|es| - 1];
      BlockedAtMostOnce(w, rest, x, duration);
      MarkStays(After(w, rest, duration), e, x, duration);
    }
  }

  /** The source is marked and its entry stands until the given time. */
  ghost predicate Banned(w: World, x: IpKey, expires: int)
    requires Shaped(w)
  {
    Sound(w.blacklist) && HeldUntil(w.blacklist, x, expires) && StandingOf(w, x).blacklisted
  }

  /** If the blacklist has room, the packet that blocks its source bans it until blacklist_expires. */
  lemma AutoBlockBans(w: World, e: Event, duration: nat)
    requires Shaped(w) && Sound(w.blacklist) && AutoBlocks(w, e) && w.blacklist.count < w.blacklist.maxSize
    ensures var w' := Step(w, e, duration); var x := e.ip.Key();
            Banned(w', x, e.t.update + duration) && StandingOf(w', x).expires == e.t.update + duration
  {
    hide ContainsCidr, AddHost, Next, IpAddr.Key, NewScore, HeldUntil, Sound;
    AddHostSound(w.blacklist, e.ip, e.t.update + duration);
    AddHostHolds(w.blacklist, e.ip, e.t.update + duration);
  }

  /** Nothing from outside takes the source off the blacklist, and its own packets come in time. */
  ghost predicate Undisturbed(e: Event, x: IpKey, expires: int) {
    match e
    case Arrival(ip, _, _, t) => ip.Key() == x ==> expires <= 0 || t.black <= expires
    case WhiteOp(_) => true
    case BlackOp(op) => Harmless(op, x, expires)
  }

  /** A banned source is dropped unless it is whitelisted. */
  lemma BannedIsDropped(w: World, ip: IpAddr, expires: int, ruling: Verdict, rescored: Option<Word>, t: Instants, duration: nat)
    requires Shaped(w) && Banned(w, ip.Key(), expires) && (expires <= 0 || t.black <= expires)
    ensures Process(w, ip, ruling, rescored, t, duration).1 ==
            if ContainsCidr(w.whitelist, ip, t.white) then Accept else DropPacket
    ensures Process(w, ip, ruling, rescored, t, duration).0.blacklist == w.blacklist
    ensures StandingOf(Process(w, ip, ruling, rescored, t, duration).0, ip.Key()).score == StandingOf(w, ip.Key()).score
  {
    hide ContainsCidr, AddHost, IpAddr.Key, Sound, Harmless, Updated;
    HeldThroughout(w.blacklist, [], ip, expires, t.black);
    ListedIsCovered(w.blacklist, ip, t.black);
  }

  lemma OthersLeaveBan(w: World, e: Event, x: IpKey, expires: int, duration: nat)
    requires Shaped(w) && Banned(w, x, expires) && Undisturbed(e, x, expires)
    requires e.Arrival? ==> e.ip.Key() != x
    ensures Banned(Step(w, e, duration), x, expires)
    ensures StandingOf(Step(w, e, duration), x) == StandingOf(w, x)
  {
    hide ContainsCidr, AddHost, IpAddr.Key, Sound, HeldUntil, Updated, Blocks, AddBlock, Remove, Cleanup, Empty;
    match e
    case Arrival(ip, _, _, t) =>
      AddHostSound(w.blacklist, ip, t.update + duration);
      HeldNext(w.blacklist, AddHostOp(ip, t.update + duration), x, expires);
    case WhiteOp(_) =>
    case BlackOp(op) =>
      NextSound(w.blacklist, op);
      HeldNext(w.blacklist, op, x, expires);
  }

  lemma StepKeepsBan(w: World, e: Event, x: IpKey, expires: int, duration: nat)
    requires Shaped(w) && Banned(w, x, expires) && Undisturbed(e, x, expires)
    ensures Banned(Step(w, e, duration), x, expires)
    ensures StandingOf(Step(w, e, duration), x).score == StandingOf(w, x).score
  {
    hide ContainsCidr, AddHost, Sound, HeldUntil, IpAddr.Key;
    if e.Arrival? && e.ip.Key() == x {
      BannedIsDropped(w, e.ip, expires, e.ruling, e.rescored, e.t, duration);
      MarkStays(w, e, x, duration);
    } else {
      OthersLeaveBan(w, e, x, expires, duration);
    }
  }

  /** Whatever the other sources do, and unless someone removes, renews or clears its entry, a banned
      source stays banned and keeps its score up to blacklist_expires: all its packets are dropped
      unless it is whitelisted. */
  lemma {:induction false} BanLasts(w: World, es: seq<Event>, x: IpKey, expires: int, duration: nat)
    requires Shaped(w) && Banned(w, x, expires)
    requires forall k {:trigger es[k]} :: 0 <= k < |es| ==> Undisturbed(es[k], x, expires)
    ensures Banned(After(w, es, duration), x, expires)
    ensures StandingOf(After(w, es, duration), x).score == StandingOf(w, x).score
  {
    hide Banned, Step, Undisturbed, StandingOf;
    if es != [] {
      var rest := es[..|es| - 1];
      BanLasts(w, rest, x, expires, duration);
      StepKeepsBan(After(w, rest, duration), es[|es| - 1], x, expires, duration);
    }
  }

  /** In every reachable world both sets are sound. */
  lemma {:induction false} ListsSound(maxWhite: nat, maxBlack: nat, es: seq<Event>, duration: nat)
    ensures var w := After(Start(maxWhite, maxBlack), es, duration); Sound(w.whitelist) && Sound(w.blacklist)
  {
    hide ContainsCidr, AddHost, Next, IpAddr.Key, Sound, Updated, Blocks, Empty;
    if es == [] {
      SoundOfEmpty(maxWhite);
      SoundOfEmpty(maxBlack);
    } else {
      var rest, e := es[..|es| - 1], es[|es| - 1];
      var w := After(Start(maxWhite, maxBlack), rest, duration);
      ListsSound(maxWhite, maxBlack, rest, duration);
      match e
      case Arrival(ip, _, _, t) => AddHostSound(w.blacklist, ip, t.update + duration);
      case WhiteOp(op) => NextSound(w.whitelist, op);
      case BlackOp(op) => NextSound(w.blacklist, op);
    }
  }

  lemma {:induction false} AfterSplit(w: World, es: seq<Event>, n: nat, duration: nat)
    requires Shaped(w) && n <= |es|
    ensures After(w, es, duration) == After(After(w, es[..n], duration), es[n..], duration)
  {
    hide Step;
    if n == |es| {
      assert es[..n] == es && es[n..] == [];
    } else {
      var rest := es[..|es| - 1];
      AfterSplit(w, rest, n, duration);
      assert rest[..n] == es[..n] && es[n..][..|es| - n - 1] == rest[n..];
    }
  }

  /** The life of a ban in any run of the system: packet n puts its source on a blacklist that has room.
      Then, as long as nobody removes, renews or clears the entry, every packet of the source up to
      blacklist_expires is dropped unless it is whitelisted, and its score has not moved. */
  lemma BlockedSourceIsDropped(maxWhite: nat, maxBlack: nat, es: seq<Event>, n: nat, duration: nat,
                               ip: IpAddr, ruling: Verdict, rescored: Option<Word>, t: Instants)
    requires n < |es| && es[n].Arrival? && es[n].ip.Key() == ip.Key()
    requires var w := After(Start(maxWhite, maxBlack), es[..n], duration);
             AutoBlocks(w, es[n]) && w.blacklist.count < w.blacklist.maxSize
    requires var expires := es[n].t.update + duration;
             && (forall k {:trigger es[k]} :: n < k < |es| ==> Undisturbed(es[k], ip.Key(), expires))
             && (expires <= 0 || t.black <= expires)
    ensures var w := After(Start(maxWhite, maxBlack), es, duration);
            && Process(w, ip, ruling, rescored, t, duration).1 ==
                 (if ContainsCidr(w.whitelist, ip, t.white) then Accept else DropPacket)
            && StandingOf(w, ip.Key()).score == StandingOf(After(Start(maxWhite, maxBlack), es[..n + 1], duration), ip.Key()).score
            && StandingOf(w, ip.Key()).blacklisted
  {
    hide AutoBlocks, Step, Process, Undisturbed, StandingOf, Sound, HeldUntil, IpAddr.Key, ContainsCidr, After;
    var start, expires := Start(maxWhite, maxBlack), es[n].t.update + duration;
    var w := After(start, es[..n], duration);
    ListsSound(maxWhite, maxBlack, es[..n], duration);
    AutoBlockBans(w, es[n], duration);
    assert es[..n + 1] == es[..n] + [es[n]];
    AfterOneMore(start, es[..n], es[n], duration);
    var banned := After(start, es[..n + 1], duration);
    assert banned == Step(w, es[n], duration);
    AfterSplit(start, es, n + 1, duration);
    BanLasts(banned, es[n + 1..], ip.Key(), expires, duration);
    BannedIsDropped(After(start, es, duration), ip, expires, ruling, rescored, t, duration);
  }

  // ----- after the ban

  function Repeat(e: Event, n: nat): (es: seq<Event>)
    ensures |es| == n
  {
    if n == 0 then [] else Repeat(e, n - 1) + [e]
  }

  lemma NothingCovered(maxSize: nat, ip: IpAddr, now: int)
    ensures !ContainsCidr(Empty(maxSize), ip, now)
  {
  }

  lemma DropStep(w: World, ip: IpAddr, t: Instants, duration: nat)
    requires Shaped(w) && Passes(w, ip, t)
    ensures var w' := Step(w, Arrival(ip, DropPacket, None, t), duration); var s := StandingOf(w, ip.Key());
            && w'.whitelist == w.whitelist && StandingOf(w', ip.Key()) == Updated(s, -10, t.update, duration)
            && w'.blacklist == if Blocks(s, -10) then AddHost(w.blacklist, ip, t.update + duration) else w.blacklist
  {
    hide ContainsCidr, AddHost, IpAddr.Key, Updated, Blocks;
  }

  /** Five drops in a row: fifty points are gone and the source is on the blacklist. */
  lemma {:induction false} DropsInARow(ip: IpAddr, n: nat, duration: nat)
    requires n <= 5
    ensures var w := After(Start(0, 1), Repeat(Arrival(ip, DropPacket, None, Instants(1, 1, 1)), n), duration);
            && w.whitelist == Empty(0)
            && StandingOf(w, ip.Key()).score == 50 - 10 * n && StandingOf(w, ip.Key()).blacklisted == (n == 5)
            && w.blacklist == if n < 5 then Empty(1) else AddHost(Empty(1), ip, 1 + duration)
  {
    hide ContainsCidr, AddHost, IpAddr.Key, Empty, Step, StandingOf, After;
    var t := Instants(1, 1, 1);
    if n == 0 {
      StartIsNeutral(0, 1, ip.Key());
      AfterNothing(Start(0, 1), duration);
    } else {
      var e := Arrival(ip, DropPacket, None, t);
      DropsInARow(ip, n - 1, duration);
      AfterOneMore(Start(0, 1), Repeat(e, n - 1), e, duration);
      NothingCovered(0, ip, 1);
      NothingCovered(1, ip, 1);
      DropStep(After(Start(0, 1), Repeat(e, n - 1), duration), ip, t, duration);
    }
  }

  lemma AfterNothing(w: World, duration: nat)
    requires Shaped(w)
    ensures After(w, [], duration) == w
  {
  }

  lemma AfterOneMore(w: World, es: seq<Event>, e: Event, duration: nat)
    requires Shaped(w)
    ensures After(w, es + [e], duration) == Step(After(w, es, duration), e, duration)
  {
    hide Step;
    assert (es + [e])[..|es|] == es;
  }

  lemma StartIsNeutral(maxWhite: nat, maxBlack: nat, x: IpKey)
    ensures StandingOf(Start(maxWhite, maxBlack), x) == NEUTRAL
  {
  }

  /** Once the ban of a source with score 0 has run out, its next dropped packet lifts it to a perfect
      reputation: the subtraction wraps around and is capped at 100. */
  lemma DropAfterBanWraps(ip: IpAddr, duration: nat, late: int)
    requires late > 1 + duration
    ensures var es := Repeat(Arrival(ip, DropPacket, None, Instants(1, 1, 1)), 5) +
                      [Arrival(ip, DropPacket, None, Instants(late, late, late))];
            StandingOf(After(Start(0, 1), es, duration), ip.Key()).score == 100
  {
    hide ContainsCidr, IpAddr.Key, Empty, AddHost, Step, StandingOf;
    var five := Repeat(Arrival(ip, DropPacket, None, Instants(1, 1, 1)), 5);
    var last := Arrival(ip, DropPacket, None, Instants(late, late, late));
    DropsInARow(ip, 5, duration);
    assert (five + [last])[..5] == five;
    NothingCovered(0, ip, late);
    ExpiredCoversNothing(ip, 1 + duration, late);
    DropStep(After(Start(0, 1), five, duration), ip, Instants(late, late, late), duration);
  }

  lemma ExpiredCoversNothing(ip: IpAddr, expires: int, now: int)
    requires 0 < expires < now
    ensures !ContainsCidr(AddHost(Empty(1), ip, expires), ip, now)
  {
    hide ContainsCidr, IpAddr.Key, Bucket, InCidr;
    SoundOfEmpty(1);
    NothingCovered(1, ip, now);
    AddBlockAnswers(Empty(1), Block(ip, Width(ip.family), expires), ip, now);
  }
}
