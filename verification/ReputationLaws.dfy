/** The reputation rules by their numbers: what one packet does to its source, and the exact score after a run. */
module ReputationLaws {
  import opened Addresses
  import opened Bits
  import IpSetTheory
  import opened Options
  import opened Reputation
  import opened TcpTheory

  // ----- one packet

  /** The score after a verdict: an accepted packet adds one point up to 100, a dropped one takes ten
      from 10 to 110 points; the unsigned score wraps below 10, and the cap of 100 catches all larger sums. */
  function ScoreAfter(score: Word, ruling: Verdict): Word {
    match ruling
    case Accept => if score < 100 then score + 1 else if score == 0xffff_ffff then 0 else 100
    case DropPacket => if 10 <= score <= 110 then score - 10 else 100
    case RateLimit => score
    case Challenge => score
  }

  /** What a packet that gets past both lists leaves of its source; score is what the HTTP rules left. */
  ghost predicate Scored(s: Standing, s': Standing, score: Word, ruling: Verdict, now: int, duration: nat) {
    && s'.score == ScoreAfter(score, ruling) && s'.whitelisted == s.whitelisted
    && if (ruling == Accept || ruling == DropPacket) && s'.score < 10 && !s.blacklisted
       then s'.blacklisted && s'.expires == now + duration
       else s'.blacklisted == s.blacklisted && s'.expires == s.expires
  }

  lemma UpdatedByNumbers(s: Standing, score: Word, ruling: Verdict, now: int, duration: nat)
    requires ruling == Accept || ruling == DropPacket
    ensures var b := s.(score := score);
            && Scored(s, Updated(b, DeltaOf(ruling), now, duration), score, ruling, now, duration)
            && (Blocks(b, DeltaOf(ruling)) <==> ScoreAfter(score, ruling) < 10 && !s.blacklisted)
  {
  }

  /** What a packet does: a whitelisted source is accepted and marked, another blacklisted one dropped and
      marked, and neither loses or gains a point; any other gets the verdict of the protocol rules, is scored,
      and goes on the blacklist exactly when its score falls below 10 and it was not marked before. */
  lemma PacketByNumbers(w: World, ip: IpAddr, ruling: Verdict, rescored: Option<Word>, t: Instants, duration: nat)
    requires Shaped(w)
    ensures var (w', verdict) := Process(w, ip, ruling, rescored, t, duration);
            var s, s' := StandingOf(w, ip.Key()), StandingOf(w', ip.Key());
            var score := if rescored.Some? then rescored.value else s.score;
            && w'.whitelist == w.whitelist
            && if IpSetTheory.ContainsCidr(w.whitelist, ip, t.white) then
                 verdict == Accept && w'.blacklist == w.blacklist && s' == Standing(s.score, s.blacklisted, true, s.expires)
               else if IpSetTheory.ContainsCidr(w.blacklist, ip, t.black) then
                 verdict == DropPacket && w'.blacklist == w.blacklist && s' == Standing(s.score, true, s.whitelisted, s.expires)
               else
                 && verdict == ruling && Scored(s, s', score, ruling, t.update, duration)
                 && w'.blacklist == if s'.blacklisted && !s.blacklisted then IpSetTheory.AddHost(w.blacklist, ip, t.update + duration)
                                    else w.blacklist
    ensures forall y {:trigger StandingOf(w, y)} :: y != ip.Key() ==>
              StandingOf(Process(w, ip, ruling, rescored, t, duration).0, y) == StandingOf(w, y)
  {
    hide IpSetTheory.ContainsCidr, IpSetTheory.AddHost, IpAddr.Key, Updated, Blocks, ScoreAfter;
    var s := StandingOf(w, ip.Key());
    var score := if rescored.Some? then rescored.value else s.score;
    assert Rescored(s, rescored) == s.(score := score);
    if ruling == Accept || ruling == DropPacket {
      UpdatedByNumbers(s, score, ruling, t.update, duration);
    } else {
      NoScore(score, ruling);
    }
  }

  lemma NoScore(score: Word, ruling: Verdict)
    requires ruling == RateLimit || ruling == Challenge
    ensures ScoreAfter(score, ruling) == score
  {
  }

  /** A source is new with 50 points and no mark. */
  lemma StartsNeutral(maxWhite: nat, maxBlack: nat, x: IpKey)
    ensures StandingOf(Start(maxWhite, maxBlack), x) == Standing(50, false, false, 0)
  {
    StartIsNeutral(maxWhite, maxBlack, x);
  }

  // ----- a run

  /** The score after d drops and a accepts, none of which met a full score before the last. */
  ghost predicate Exact(s: Standing, d: nat, a: nat) {
    !s.blacklisted ==> s.score == 50 - 10 * d + a
  }

  ghost predicate OnlyAccepts(s: Standing, d: nat, a: nat) {
    !s.blacklisted && d == 0 ==> s.score == if 50 + a < 100 then 50 + a else 100
  }

  lemma ScoredExact(s: Standing, s': Standing, ruling: Verdict, now: int, duration: nat, d: nat, a: nat)
    requires Scored(s, s', s.score, ruling, now, duration)
    requires Sandwiched(s, d, a)
    ensures var d' := d + if ruling == DropPacket then 1 else 0; var a' := a + if ruling == Accept then 1 else 0;
            && (Exact(s, d, a) && s.score < 100 ==> Exact(s', d', a'))
            && (OnlyAccepts(s, d, a) ==> OnlyAccepts(s', d', a'))
  {
  }

  /** One event of a run, as its source sees it. */
  lemma EventExact(w: World, e: Event, x: IpKey, duration: nat, d: nat, a: nat)
    requires Shaped(w) && Sandwiched(StandingOf(w, x), d, a)
    requires e.Arrival? && e.ip.Key() == x ==> e.rescored == None
    ensures var counts := e.Arrival? && e.ip.Key() == x && Passes(w, e.ip, e.t);
            var d' := d + if counts && e.ruling == DropPacket then 1 else 0;
            var a' := a + if counts && e.ruling == Accept then 1 else 0;
            var s, s' := StandingOf(w, x), StandingOf(Step(w, e, duration), x);
            && (Exact(s, d, a) && s.score < 100 ==> Exact(s', d', a'))
            && (OnlyAccepts(s, d, a) ==> OnlyAccepts(s', d', a'))
  {
    hide IpSetTheory.ContainsCidr, IpSetTheory.AddHost, IpAddr.Key, Process, Scored, IpSetTheory.Next, Sandwiched, StandingOf;
    if e.Arrival? {
      PacketByNumbers(w, e.ip, e.ruling, e.rescored, e.t, duration);
      if e.ip.Key() == x && Passes(w, e.ip, e.t) {
        ScoredExact(StandingOf(w, x), StandingOf(Step(w, e, duration), x), e.ruling, e.t.update, duration, d, a);
      }
    } else {
      ListsAside(w, e, x, duration);
    }
  }

  lemma ListsAside(w: World, e: Event, x: IpKey, duration: nat)
    requires Shaped(w) && !e.Arrival?
    ensures StandingOf(Step(w, e, duration), x) == StandingOf(w, x)
  {
  }

  /** The score never was full before the last event. */
  ghost predicate NeverFull(w: World, es: seq<Event>, x: IpKey, duration: nat)
    requires Shaped(w)
  {
    forall n :: 0 <= n < |es| ==> StandingOf(After(w, es[..n], duration), x).score < 100
  }

  lemma NeverFullRest(w: World, es: seq<Event>, x: IpKey, duration: nat)
    requires Shaped(w) && es != [] && NeverFull(w, es, x, duration)
    ensures NeverFull(w, es[..|es| - 1], x, duration)
    ensures StandingOf(After(w, es[..|es| - 1], duration), x).score < 100
  {
    hide After, StandingOf;
    var rest := es[..|es| - 1];
    forall n | 0 <= n < |rest|
      ensures StandingOf(After(w, rest[..n], duration), x).score < 100
    {
      assert rest[..n] == es[..n];
    }
  }

  /** For a source no HTTP rule touched, until it is first marked as blacklisted: after D drops and A accepts
      its score is exactly 50 - 10D + A as long as it was not full, and min(100, 50 + A) when D is 0. */
  lemma {:induction false} ExactScore(maxWhite: nat, maxBlack: nat, es: seq<Event>, x: IpKey, duration: nat)
    requires NotHttp(es, x)
    ensures var w := Start(maxWhite, maxBlack); var s := StandingOf(After(w, es, duration), x);
            var d, a := Updates(w, es, x, DropPacket, duration), Updates(w, es, x, Accept, duration);
            && (NeverFull(w, es, x, duration) ==> Exact(s, d, a))
            && OnlyAccepts(s, d, a)
  {
    hide Step, IpAddr.Key, Sandwiched, NotHttp, Exact, OnlyAccepts, NeverFull, Passes, StandingOf, Start;
    var w := Start(maxWhite, maxBlack);
    if es == [] {
      StartsNeutral(maxWhite, maxBlack, x);
      NeutralExact();
    } else {
      var rest, e := es[..|es| - 1], es[|es| - 1];
      NotHttpRest(es, x);
      ReputationSandwich(maxWhite, maxBlack, rest, x, duration);
      ExactScore(maxWhite, maxBlack, rest, x, duration);
      var d, a := Updates(w, rest, x, DropPacket, duration), Updates(w, rest, x, Accept, duration);
      EventExact(After(w, rest, duration), e, x, duration, d, a);
      if NeverFull(w, es, x, duration) {
        NeverFullRest(w, es, x, duration);
      }
    }
  }

  lemma NeutralExact()
    ensures Exact(Standing(50, false, false, 0), 0, 0) && OnlyAccepts(Standing(50, false, false, 0), 0, 0)
  {
  }
}
