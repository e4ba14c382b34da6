/** Whom a rediscovery asks: every round goes through the contacts it was started with, in order, and asks each
    one that is valid when its turn comes. */
module RediscoveryRounds {
  import opened NodeIds
  import opened SourceRoutes
  import opened Rediscovery

  /** The contacts asked for c, in the order of the requests. */
  function AskedFor(sent: seq<Request>, c: NodeId): seq<NodeId> {
    if sent == [] then []
    else
      var last := sent[|sent| - 1];
      AskedFor(sent[..|sent| - 1], c) + if last.node == c then [last.via] else []
  }

  /** The contacts asked for c between two states. */
  function AskedBetween(s: State, s': State, c: NodeId): seq<NodeId>
    requires s.sent <= s'.sent
  {
    AskedFor(s'.sent[|s.sent|..], c)
  }

  lemma {:induction false} AskedForAppends(a: seq<Request>, b: seq<Request>, c: NodeId)
    ensures AskedFor(a + b, c) == AskedFor(a, c) + AskedFor(b, c)
    decreases |b|
  {
    if b == [] {
      assert a + b == a;
    } else {
      var init := b[..|b| - 1];
      assert (a + b)[..|a + b| - 1] == a + init;
      AskedForAppends(a, init, c);
    }
  }

  lemma AskedAddsUp(s: State, s1: State, s2: State, c: NodeId)
    requires s.sent <= s1.sent <= s2.sent
    ensures AskedBetween(s, s2, c) == AskedBetween(s, s1, c) + AskedBetween(s1, s2, c)
  {
    var a, b := s1.sent[|s.sent|..], s2.sent[|s1.sent|..];
    assert s2.sent[|s.sent|..] == a + b;
    AskedForAppends(a, b, c);
  }

  lemma {:induction false} RequestsAreAsked(s: State, c: NodeId, vias: seq<NodeId>, nonces: seq<Nonce>, d: NodeId)
    requires |vias| == |nonces|
    ensures s.sent <= RequestingAll(s, c, vias, nonces).sent
    ensures AskedBetween(s, RequestingAll(s, c, vias, nonces), d) == if d == c then vias else []
  {
    if nonces == [] {
      NobodyIsAsked(s, s, d);
    } else {
      var last := |nonces| - 1;
      RequestsAreAsked(s, c, vias[..last], nonces[..last], d);
      OneMoreIsAsked(s, RequestingAll(s, c, vias[..last], nonces[..last]), c, vias[last], nonces[last], d);
      assert vias == vias[..last] + [vias[last]];
    }
  }

  lemma OneIsAsked(s: State, c: NodeId, via: NodeId, nonce: Nonce, d: NodeId)
    ensures s.sent <= Requesting(s, c, via, nonce).sent
    ensures AskedBetween(s, Requesting(s, c, via, nonce), d) == if d == c then [via] else []
  {
    var new_ := Requesting(s, c, via, nonce).sent[|s.sent|..];
    assert new_ == [Request(c, via, nonce)] && new_[..|new_| - 1] == [];
    assert AskedFor(new_[..|new_| - 1], d) == [];
  }

  lemma OneMoreIsAsked(s: State, s1: State, c: NodeId, via: NodeId, nonce: Nonce, d: NodeId)
    requires s.sent <= s1.sent
    ensures s.sent <= Requesting(s1, c, via, nonce).sent
    ensures AskedBetween(s, Requesting(s1, c, via, nonce), d)
         == AskedBetween(s, s1, d) + if d == c then [via] else []
  {
    OneIsAsked(s1, c, via, nonce, d);
    AskedAddsUp(s, s1, Requesting(s1, c, via, nonce), d);
  }

  lemma NobodyIsAsked(s: State, s': State, d: NodeId)
    requires s'.sent == s.sent
    ensures s.sent <= s'.sent && AskedBetween(s, s', d) == []
  {
    assert s'.sent[|s.sent|..] == [];
  }

  // ---------- one step ----------

  /** The list of c got shorter from its end, and the valid ones among those taken off were asked, first the
      one at the end. */
  ghost predicate AsksNext(s: State, s': State, c: NodeId) {
    && IsRediscovering(s, c) && IsRediscovering(s', c) && s.sent <= s'.sent
    && s'.contacts[c].revVia <= s.contacts[c].revVia
    && AskedBetween(s, s', c)
       == UsableOf(Reversed(s.contacts[c].revVia[|s'.contacts[c].revVia|..]), ValidContacts(s.contacts))
  }

  /** A round for c starts: its time is scheduled. */
  predicate StartsRound(s: State, ev: Event, s': State, c: NodeId) {
    && (ev.Invalidated? || ev.Timer?) && IsRediscovering(s', c)
    && s.nextTimer in s'.scheduled && s'.scheduled[s.nextTimer] == c
  }

  /** The round is over: nobody valid was left on the list, and nothing is pending but what just fired. */
  ghost predicate IsOver(s: State, ev: Event, s': State, c: NodeId) {
    && IsRediscovering(s, c) && ev.Timer? && s.sent == s'.sent
    && UsableOf(Reversed(s.contacts[c].revVia), ValidContacts(s.contacts)) == []
    && PendingOf(s, c).inflight <= {ev.id} && PendingOf(s, c).rate <= {ev.id}
  }

  lemma ExtractAsks(s: State, c: NodeId, n: nat)
    requires n >= 1 && IsRediscovering(s, c)
    ensures var (s', via) := Extract(s, c, n);
            && IsRediscovering(s', c) && s'.sent == s.sent && s'.contacts[c].revVia <= s.contacts[c].revVia
            && s'.contacts[c].retries == s.contacts[c].retries
            && via == UsableOf(Reversed(s.contacts[c].revVia[|s'.contacts[c].revVia|..]), ValidContacts(s.contacts))
            && (|via| < n ==> s'.contacts[c].revVia == [])
  {
    PickTakesUsable(s.contacts[c].revVia, ValidContacts(s.contacts), n);
  }

  /** At its scheduled time a round asks as many contacts as may be asked in parallel, or all that are left. */
  lemma SendAsks(cfg: Config, s: State, c: NodeId, nonces: seq<Nonce>)
    requires |nonces| >= cfg.parallelism >= 1 && IsRediscovering(s, c)
    ensures var s' := SendRediscovery(cfg, s, c, nonces);
            && AsksNext(s, s', c) && s'.contacts[c].retries == s.contacts[c].retries
            && |AskedBetween(s, s', c)| <= cfg.parallelism
            && (|AskedBetween(s, s', c)| < cfg.parallelism ==> s'.contacts[c].revVia == [])
  {
    ExtractAsks(s, c, cfg.parallelism);
    var (s1, via) := Extract(s, c, cfg.parallelism);
    if via == [] {
      NobodyIsAsked(s, RateLimiting(s1, c), c);
    } else {
      RequestsAreAsked(s1, c, via, nonces[..|via|], c);
      RequestingAllKeepsContacts(s1, c, via, nonces[..|via|]);
    }
  }

  lemma {:induction false} RequestingAllKeepsContacts(s: State, c: NodeId, vias: seq<NodeId>, nonces: seq<Nonce>)
    requires |vias| == |nonces|
    ensures RequestingAll(s, c, vias, nonces).contacts == s.contacts
    ensures RequestingAll(s, c, vias, nonces).scheduled == s.scheduled
  {
    if nonces != [] {
      RequestingAllKeepsContacts(s, c, vias[..|nonces| - 1], nonces[..|nonces| - 1]);
    }
  }

  lemma SomeoneLeftExactlyWhen(s: State, c: NodeId)
    requires IsRediscovering(s, c)
    ensures Extract(s, c, 1).1 == [] <==> UsableOf(Reversed(s.contacts[c].revVia), ValidContacts(s.contacts)) == []
  {
    ExtractAsks(s, c, 1);
    var s1 := Extract(s, c, 1).0;
    UsableOfSplit(s.contacts[c].revVia, |s1.contacts[c].revVia|, ValidContacts(s.contacts));
  }

  lemma RetryAsksOne(cfg: Config, s: State, c: NodeId, vias: seq<NodeId>, nonce: Nonce)
    requires IsRediscovering(s, c) && Extract(s, c, 1).1 != []
    ensures var s' := Retry(cfg, s, c, vias, nonce);
            && AsksNext(s, s', c) && |AskedBetween(s, s', c)| == 1
            && s'.contacts[c].retries == s.contacts[c].retries && s'.scheduled == s.scheduled
  {
    ExtractAsks(s, c, 1);
    var (s1, via) := Extract(s, c, 1);
    OneIsAsked(s1, c, via[0], nonce, c);
  }

  lemma {:induction false} RetryAsksNobody(cfg: Config, s: State, c: NodeId, vias: seq<NodeId>, nonce: Nonce)
    requires IsRediscovering(s, c) && Extract(s, c, 1).1 == []
    ensures var s' := Retry(cfg, s, c, vias, nonce);
            if PendingOf(s, c).inflight == {} && PendingOf(s, c).rate == {} then
              && s'.sent == s.sent
              && if s.contacts[c].retries < cfg.maxRounds then
                   && IsRediscovering(s', c) && s'.contacts[c].revVia == Reversed(vias)
                   && s'.contacts[c].retries == s.contacts[c].retries + 1
                   && s'.scheduled == s.scheduled[s.nextTimer := c]
                 else c !in s'.contacts
            else
              && AsksNext(s, s', c) && AskedBetween(s, s', c) == []
              && s'.contacts[c].retries == s.contacts[c].retries && s'.scheduled == s.scheduled
  {
    ExtractAsks(s, c, 1);
    RateOf(s, c);
    NobodyIsAsked(s, Extract(s, c, 1).0, c);
  }

  /** After a failed request one more contact is asked, if there is one; if there is none, the round is over
      unless something is still pending. */
  lemma {:induction false} RetryAsks(cfg: Config, s: State, c: NodeId, vias: seq<NodeId>, nonce: Nonce)
    requires IsRediscovering(s, c)
    ensures var s' := Retry(cfg, s, c, vias, nonce);
            var none := UsableOf(Reversed(s.contacts[c].revVia), ValidContacts(s.contacts)) == [];
            if none && PendingOf(s, c).inflight == {} && PendingOf(s, c).rate == {} then
              && s'.sent == s.sent
              && if s.contacts[c].retries < cfg.maxRounds then
                   && IsRediscovering(s', c) && s'.contacts[c].revVia == Reversed(vias)
                   && s'.contacts[c].retries == s.contacts[c].retries + 1
                   && s'.scheduled == s.scheduled[s.nextTimer := c]
                 else c !in s'.contacts
            else
              && AsksNext(s, s', c) && |AskedBetween(s, s', c)| == (if none then 0 else 1)
              && s'.contacts[c].retries == s.contacts[c].retries && s'.scheduled == s.scheduled
  {
    SomeoneLeftExactlyWhen(s, c);
    if Extract(s, c, 1).1 != [] {
      RetryAsksOne(cfg, s, c, vias, nonce);
    } else {
      RetryAsksNobody(cfg, s, c, vias, nonce);
    }
  }

  lemma RateOf(s: State, c: NodeId)
    ensures c in s.rate.Values <==> PendingOf(s, c).rate != {}
  {
    if c in s.rate.Values {
      var t :| t in s.rate && s.rate[t] == c;
      assert t in PendingOf(s, c).rate;
    }
  }

  lemma {:induction false} UsableOfAppends(a: seq<NodeId>, b: seq<NodeId>, valid: set<NodeId>)
    ensures UsableOf(a + b, valid) == UsableOf(a, valid) + UsableOf(b, valid)
  {
    if a == [] {
      assert a + b == b;
    } else {
      var first := if a[0] in valid then [a[0]] else [];
      assert (a + b)[0] == a[0] && (a + b)[1..] == a[1..] + b;
      UsableOfAppends(a[1..], b, valid);
      Associates(first, UsableOf(a[1..], valid), UsableOf(b, valid));
    }
  }

  lemma Associates(a: seq<NodeId>, b: seq<NodeId>, c: seq<NodeId>)
    ensures a + (b + c) == a + b + c
  {
  }

  lemma {:induction false} UsableOfSplit(rev: seq<NodeId>, k: nat, valid: set<NodeId>)
    requires k <= |rev|
    ensures UsableOf(Reversed(rev), valid) == UsableOf(Reversed(rev[k..]), valid) + UsableOf(Reversed(rev[..k]), valid)
  {
    assert Reversed(rev) == Reversed(rev[k..]) + Reversed(rev[..k]);
    UsableOfAppends(Reversed(rev[k..]), Reversed(rev[..k]), valid);
  }

  lemma SendAsksOnlyFor(cfg: Config, s: State, b: NodeId, nonces: seq<Nonce>, c: NodeId)
    requires |nonces| >= cfg.parallelism >= 1 && b != c
    ensures s.sent <= SendRediscovery(cfg, s, b, nonces).sent
            && AskedBetween(s, SendRediscovery(cfg, s, b, nonces), c) == []
  {
    var (s1, via) := Extract(s, b, cfg.parallelism);
    if via == [] {
      NobodyIsAsked(s, RateLimiting(s1, b), c);
    } else {
      RequestsAreAsked(s1, b, via, nonces[..|via|], c);
    }
  }

  lemma RetryAsksOnlyFor(cfg: Config, s: State, b: NodeId, vias: seq<NodeId>, nonce: Nonce, c: NodeId)
    requires b != c
    ensures s.sent <= Retry(cfg, s, b, vias, nonce).sent && AskedBetween(s, Retry(cfg, s, b, vias, nonce), c) == []
  {
    if IsRediscovering(s, b) {
      var (s1, via) := Extract(s, b, 1);
      if via != [] {
        OneIsAsked(s1, b, via[0], nonce, c);
      } else {
        NobodyIsAsked(s, Retry(cfg, s, b, vias, nonce), c);
      }
    } else {
      NobodyIsAsked(s, s, c);
    }
  }

  lemma OthersAskNobody(cfg: Config, s: State, ev: Event, c: NodeId)
    requires Usable(cfg, s, ev) && Subject(s, ev) != Some(c)
    ensures s.sent <= Next(cfg, s, ev).sent && AskedBetween(s, Next(cfg, s, ev), c) == []
  {
    if ev.Timer? && ev.id in s.scheduled {
      SendAsksOnlyFor(cfg, s.(scheduled := s.scheduled - {ev.id}), s.scheduled[ev.id], ev.nonces, c);
    } else if ev.Timer? && ev.id in s.inflight.timers {
      RetryAsksOnlyFor(cfg, s.(inflight := s.inflight.WithoutTimer(ev.id)), s.inflight.timers[ev.id].node, ev.vias,
          ev.nonces[0], c);
    } else if ev.Timer? && ev.id in s.rate {
      RetryAsksOnlyFor(cfg, s.(rate := s.rate - {ev.id}), s.rate[ev.id], ev.vias, ev.nonces[0], c);
    } else {
      NobodyIsAsked(s, Next(cfg, s, ev), c);
    }
  }

  /** What one step does to the round of c: it asks the next valid contacts of the list, or ends the round with
      nobody valid left, after which the next one is scheduled or the contact is given up. */
  ghost predicate RoundStep(cfg: Config, s: State, ev: Event, s': State, c: NodeId)
    requires IsRediscovering(s, c)
  {
    var retries := s.contacts[c].retries;
    if StartsRound(s, ev, s', c) then
      IsOver(s, ev, s', c) && s'.contacts[c] == Rediscovering(Reversed(ev.vias), retries + 1) && retries < cfg.maxRounds
    else if IsRediscovering(s', c) then AsksNext(s, s', c) && s'.contacts[c].retries == retries
    else if Subject(s, ev) == Some(c) && ev.Timer? then IsOver(s, ev, s', c) && retries >= cfg.maxRounds
    else true
  }

  lemma RetryTimerRound(cfg: Config, s: State, ev: Event, c: NodeId)
    requires IsRediscovering(s, c) && TimersDistinct(s) && Usable(cfg, s, ev)
    requires ev.Timer? && ev.id !in s.scheduled && Subject(s, ev) == Some(c)
    ensures RoundStep(cfg, s, ev, Next(cfg, s, ev), c)
  {
    var id := ev.id;
    if id in s.inflight.timers {
      DropRequestEffect(s, id, c);
      RetryAsks(cfg, s.(inflight := s.inflight.WithoutTimer(id)), c, ev.vias, ev.nonces[0]);
    } else {
      DropRateEffect(s, id, c);
      RetryAsks(cfg, s.(rate := s.rate - {id}), c, ev.vias, ev.nonces[0]);
    }
    assert s.nextTimer !in s.scheduled;
  }

  lemma ScheduledTimerRound(cfg: Config, s: State, ev: Event, c: NodeId)
    requires IsRediscovering(s, c) && TimersDistinct(s) && Usable(cfg, s, ev)
    requires ev.Timer? && ev.id in s.scheduled && s.scheduled[ev.id] == c
    ensures RoundStep(cfg, s, ev, Next(cfg, s, ev), c)
    ensures var s' := Next(cfg, s, ev);
            && AsksNext(s, s', c) && |AskedBetween(s, s', c)| <= cfg.parallelism
            && (|AskedBetween(s, s', c)| < cfg.parallelism ==> s'.contacts[c].revVia == [])
  {
    var s0 := s.(scheduled := s.scheduled - {ev.id});
    SendAsks(cfg, s0, c, ev.nonces);
    SendKeepsSchedule(cfg, s0, c, ev.nonces);
    assert s.nextTimer !in s.scheduled;
  }

  lemma SendKeepsSchedule(cfg: Config, s: State, c: NodeId, nonces: seq<Nonce>)
    requires |nonces| >= cfg.parallelism >= 1
    ensures SendRediscovery(cfg, s, c, nonces).scheduled == s.scheduled
  {
    var (s1, via) := Extract(s, c, cfg.parallelism);
    if via != [] { RequestingAllKeepsContacts(s1, c, via, nonces[..|via|]); }
  }

  lemma SameListAsksNobody(s: State, s': State, c: NodeId)
    requires IsRediscovering(s, c) && IsRediscovering(s', c) && s'.contacts[c] == s.contacts[c]
    requires s.sent <= s'.sent && AskedBetween(s, s', c) == []
    ensures AsksNext(s, s', c)
  {
    var rev := s.contacts[c].revVia;
    assert rev[|rev|..] == [] && Reversed(rev[|rev|..]) == [];
  }

  lemma OtherRound(cfg: Config, s: State, ev: Event, c: NodeId)
    requires IsRediscovering(s, c) && TimersDistinct(s) && Usable(cfg, s, ev) && Subject(s, ev) != Some(c)
    ensures RoundStep(cfg, s, ev, Next(cfg, s, ev), c)
  {
    var s' := Next(cfg, s, ev);
    StepIsForOne(cfg, s, ev, c);
    OthersAskNobody(cfg, s, ev, c);
    NotScheduled(cfg, s, ev, c);
    if IsRediscovering(s', c) { SameListAsksNobody(s, s', c); }
  }

  lemma NotScheduled(cfg: Config, s: State, ev: Event, c: NodeId)
    requires IsRediscovering(s, c) && TimersDistinct(s) && Usable(cfg, s, ev) && Subject(s, ev) != Some(c)
    ensures !StartsRound(s, ev, Next(cfg, s, ev), c)
  {
    var s' := Next(cfg, s, ev);
    assert s.nextTimer !in PendingOf(s, c).scheduled;
    StepIsForOne(cfg, s, ev, c);
    assert s.nextTimer in s'.scheduled && s'.scheduled[s.nextTimer] == c ==> s.nextTimer in PendingOf(s', c).scheduled;
  }

  lemma MessageRound(cfg: Config, s: State, ev: Event, c: NodeId)
    requires IsRediscovering(s, c) && TimersDistinct(s) && Usable(cfg, s, ev) && Subject(s, ev) == Some(c) && !ev.Timer?
    ensures RoundStep(cfg, s, ev, Next(cfg, s, ev), c)
  {
    var s' := Next(cfg, s, ev);
    NobodyIsAsked(s, s', c);
    if IsRediscovering(s', c) { SameListAsksNobody(s, s', c); }
  }

  /** Every step of every rediscovery is such a step. */
  lemma EveryStepIsOfARound(cfg: Config, s: State, ev: Event, c: NodeId)
    requires IsRediscovering(s, c) && TimersDistinct(s) && Usable(cfg, s, ev)
    ensures RoundStep(cfg, s, ev, Next(cfg, s, ev), c)
  {
    if Subject(s, ev) != Some(c) {
      OtherRound(cfg, s, ev, c);
    } else if !ev.Timer? {
      MessageRound(cfg, s, ev, c);
    } else if ev.id in s.scheduled {
      ScheduledTimerRound(cfg, s, ev, c);
    } else {
      RetryTimerRound(cfg, s, ev, c);
    }
  }

  /** The first round starts when a link of the path of a valid contact fails. */
  lemma FirstRound(cfg: Config, s: State, ev: Event, c: NodeId)
    requires TimersDistinct(s) && Usable(cfg, s, ev) && !IsRediscovering(s, c)
    ensures StartsRound(s, ev, Next(cfg, s, ev), c)
       <==> ev.Invalidated? && ev.c == c && c in s.contacts && s.contacts[c].Valid?
    ensures StartsRound(s, ev, Next(cfg, s, ev), c) ==>
              && Next(cfg, s, ev).contacts[c] == Rediscovering(Reversed(ev.vias), 0) && Next(cfg, s, ev).sent == s.sent
  {
    var s' := Next(cfg, s, ev);
    if StartsRound(s, ev, s', c) && !About(s, ev, c) {
      StepIsForOne(cfg, s, ev, c);
    }
    if ev.Timer? && Subject(s, ev) == Some(c) {
      assert s.nextTimer !in s.scheduled;
      if ev.id in s.scheduled { SendKeepsSchedule(cfg, s.(scheduled := s.scheduled - {ev.id}), c, ev.nonces); }
    }
  }

  // ---------- whole rounds ----------

  /** The contacts that were valid at the time their turn came. */
  function Valid(run: Run, vias: seq<NodeId>, times: seq<nat>): seq<NodeId>
    requires |vias| == |times|
  {
    if vias == [] then []
    else
      var last := |vias| - 1;
      Valid(run, vias[..last], times[..last])
      + if vias[last] in ValidContacts(run(times[last]).contacts) then [vias[last]] else []
  }

  /** Turns come one after the other, later than i and before j. */
  predicate Turns(times: seq<nat>, i: nat, j: nat) {
    && (forall k :: 0 <= k < |times| ==> i < times[k] < j)
    && forall k, l :: 0 <= k < l < |times| ==> times[k] <= times[l]
  }

  function AllAt(k: nat, n: nat): (times: seq<nat>)
    ensures |times| == n && forall l :: 0 <= l < n ==> times[l] == k
  {
    seq(n, l => k)
  }

  lemma {:induction false} ValidAtOnce(run: Run, vias: seq<NodeId>, times: seq<nat>, more: seq<NodeId>, k: nat)
    requires |vias| == |times|
    ensures Valid(run, vias + more, times + AllAt(k, |more|))
         == Valid(run, vias, times) + UsableOf(more, ValidContacts(run(k).contacts))
    decreases |more|
  {
    if more == [] {
      assert vias + more == vias && times + AllAt(k, 0) == times;
    } else {
      var last := |more| - 1;
      var init := more[..last];
      var all, at := vias + more, times + AllAt(k, |more|);
      assert all[..|all| - 1] == vias + init && at[..|all| - 1] == times + AllAt(k, |init|);
      ValidAtOnce(run, vias, times, init, k);
      assert more == init + [more[last]];
      UsableOfAppends(init, [more[last]], ValidContacts(run(k).contacts));
      OneUsable(more[last], ValidContacts(run(k).contacts));
    }
  }

  lemma {:induction false} OneUsable(via: NodeId, valid: set<NodeId>)
    ensures UsableOf([via], valid) == if via in valid then [via] else []
  {
    assert UsableOf([via][1..], valid) == [];
  }

  /** The i-th event starts a round for c that goes on until the j-th state. */
  ghost predicate SameRound(run: Run, evs: Events, c: NodeId, i: nat, j: nat) {
    && i < j && StartsRound(run(i), evs(i), run(i + 1), c)
    && (forall k :: i < k <= j ==> IsRediscovering(run(k), c))
    && (forall k: nat :: i < k < j ==> !StartsRound(run(k), evs(k), run(k + 1), c))
  }

  /** So far the first n contacts of the round had their turn: those valid then were asked, in order. */
  ghost predicate HadTheirTurn(run: Run, evs: Events, c: NodeId, i: nat, j: nat, times: seq<nat>)
    requires evs(i).Invalidated? || evs(i).Timer?
  {
    var vias := evs(i).vias;
    && |times| <= |vias| && Turns(times, i, j) && run(i + 1).sent <= run(j).sent
    && AskedBetween(run(i + 1), run(j), c) == Valid(run, vias[..|times|], times)
  }

  lemma RoundStarts(cfg: Config, run: Run, evs: Events, c: NodeId, i: nat)
    requires IsRun(cfg, run, evs) && StartsRound(run(i), evs(i), run(i + 1), c)
    ensures run(i + 1).contacts[c].revVia == Reversed(evs(i).vias)
    ensures run(i + 1).sent == run(i).sent
  {
    RunKeepsInv(cfg, run, evs, i);
    assert Rediscovery.RunStep(cfg, run, evs, i);
    if IsRediscovering(run(i), c) {
      EveryStepIsOfARound(cfg, run(i), evs(i), c);
    } else {
      FirstRound(cfg, run(i), evs(i), c);
    }
  }

  lemma ReversedRest(vias: seq<NodeId>, n: nat, rev: seq<NodeId>)
    requires n <= |vias| && rev <= Reversed(vias[n..])
    ensures n <= |vias| - |rev| && rev == Reversed(vias[|vias| - |rev|..])
  {
    var m, whole := |vias| - |rev|, Reversed(vias[n..]);
    forall k | 0 <= k < |rev| ensures rev[k] == Reversed(vias[m..])[k] {
      assert rev[k] == whole[k];
    }
  }

  lemma ReversedTaken(vias: seq<NodeId>, n: nat, m: nat)
    requires n <= m <= |vias|
    ensures Reversed(Reversed(vias[n..])[|vias| - m..]) == vias[n..m]
  {
    var rest := Reversed(vias[n..])[|vias| - m..];
    forall k | 0 <= k < m - n ensures Reversed(rest)[k] == vias[n..m][k] {
      assert Reversed(rest)[k] == rest[m - n - 1 - k];
    }
  }

  /** In every run, at every point of a round, the contacts that had their turn are the first ones of those the
      round was started with, and exactly the ones valid at their turn were asked, in that order. */
  lemma {:induction false} RoundAsksInOrder(cfg: Config, run: Run, evs: Events, c: NodeId, i: nat, j: nat)
    returns (times: seq<nat>)
    requires IsRun(cfg, run, evs) && SameRound(run, evs, c, i, j)
    ensures HadTheirTurn(run, evs, c, i, j, times)
    ensures run(j).contacts[c].revVia == Reversed(evs(i).vias[|times|..])
    decreases j
  {
    var vias := evs(i).vias;
    RoundStarts(cfg, run, evs, c, i);
    if j == i + 1 {
      times := [];
      assert vias[0..] == vias && vias[..0] == [];
      NobodyIsAsked(run(j), run(j), c);
    } else {
      var k := j - 1;
      var before := RoundAsksInOrder(cfg, run, evs, c, i, k);
      times := TurnTaken(cfg, run, evs, c, i, k, before);
    }
  }

  lemma TurnTaken(cfg: Config, run: Run, evs: Events, c: NodeId, i: nat, k: nat, before: seq<nat>)
    returns (times: seq<nat>)
    requires IsRun(cfg, run, evs) && i < k && (evs(i).Invalidated? || evs(i).Timer?)
    requires IsRediscovering(run(k), c) && IsRediscovering(run(k + 1), c) && !StartsRound(run(k), evs(k), run(k + 1), c)
    requires HadTheirTurn(run, evs, c, i, k, before) && run(k).contacts[c].revVia == Reversed(evs(i).vias[|before|..])
    ensures HadTheirTurn(run, evs, c, i, k + 1, times)
    ensures run(k + 1).contacts[c].revVia == Reversed(evs(i).vias[|times|..])
  {
    RunKeepsInv(cfg, run, evs, k);
    assert Rediscovery.RunStep(cfg, run, evs, k);
    EveryStepIsOfARound(cfg, run(k), evs(k), c);
    times := TurnsAdd(run, evs(i).vias, c, i, k, before);
  }

  lemma MoreTurns(run: Run, vias: seq<NodeId>, m: nat, i: nat, k: nat, before: seq<nat>) returns (times: seq<nat>)
    requires i < k && |before| <= m <= |vias| && Turns(before, i, k)
    ensures |times| == m && Turns(times, i, k + 1)
    ensures Valid(run, vias[..m], times)
         == Valid(run, vias[..|before|], before) + UsableOf(vias[|before|..m], ValidContacts(run(k).contacts))
  {
    var n := |before|;
    times := before + AllAt(k, m - n);
    ValidAtOnce(run, vias[..n], before, vias[n..m], k);
    assert vias[..m] == vias[..n] + vias[n..m];
  }

  lemma TurnsAdd(run: Run, vias: seq<NodeId>, c: NodeId, i: nat, k: nat, before: seq<nat>) returns (times: seq<nat>)
    requires i < k && AsksNext(run(k), run(k + 1), c) && |before| <= |vias| && Turns(before, i, k)
    requires run(k).contacts[c].revVia == Reversed(vias[|before|..]) && run(i + 1).sent <= run(k).sent
    requires AskedBetween(run(i + 1), run(k), c) == Valid(run, vias[..|before|], before)
    ensures |times| <= |vias| && Turns(times, i, k + 1) && run(i + 1).sent <= run(k + 1).sent
    ensures AskedBetween(run(i + 1), run(k + 1), c) == Valid(run, vias[..|times|], times)
    ensures run(k + 1).contacts[c].revVia == Reversed(vias[|times|..])
  {
    var n, rev := |before|, run(k + 1).contacts[c].revVia;
    ReversedRest(vias, n, rev);
    ReversedTaken(vias, n, |vias| - |rev|);
    AskedAddsUp(run(i + 1), run(k), run(k + 1), c);
    times := MoreTurns(run, vias, |vias| - |rev|, i, k, before);
  }

  /** A round ends only after all contacts it was started with have had their turn, with nothing of it pending;
      whoever was valid then was asked. */
  lemma RoundAsksAll(cfg: Config, run: Run, evs: Events, c: NodeId, i: nat, j: nat) returns (times: seq<nat>)
    requires IsRun(cfg, run, evs) && SameRound(run, evs, c, i, j)
    requires evs(j).Timer? && Subject(run(j), evs(j)) == Some(c)
    requires StartsRound(run(j), evs(j), run(j + 1), c) || c !in run(j + 1).contacts
    ensures |times| == |evs(i).vias| && HadTheirTurn(run, evs, c, i, j + 1, times)
    ensures PendingOf(run(j), c).inflight <= {evs(j).id} && PendingOf(run(j), c).rate <= {evs(j).id}
  {
    var vias := evs(i).vias;
    var before := RoundAsksInOrder(cfg, run, evs, c, i, j);
    RunKeepsInv(cfg, run, evs, j);
    assert Rediscovery.RunStep(cfg, run, evs, j);
    EveryStepIsOfARound(cfg, run(j), evs(j), c);
    times := LastTurns(run, vias, c, i, j, before);
  }

  lemma {:induction false} ReversedBack(vias: seq<NodeId>)
    ensures Reversed(Reversed(vias)) == vias
  {
  }

  lemma LastTurns(run: Run, vias: seq<NodeId>, c: NodeId, i: nat, j: nat, before: seq<nat>) returns (times: seq<nat>)
    requires i < j && |before| <= |vias| && Turns(before, i, j) && run(i + 1).sent <= run(j).sent == run(j + 1).sent
    requires AskedBetween(run(i + 1), run(j), c) == Valid(run, vias[..|before|], before)
    requires UsableOf(Reversed(Reversed(vias[|before|..])), ValidContacts(run(j).contacts)) == []
    ensures |times| == |vias| && Turns(times, i, j + 1) && run(i + 1).sent <= run(j + 1).sent
    ensures AskedBetween(run(i + 1), run(j + 1), c) == Valid(run, vias[..|times|], times)
  {
    ReversedBack(vias[|before|..]);
    assert vias[|before|..|vias|] == vias[|before|..];
    times := MoreTurns(run, vias, |vias|, i, j, before);
  }

  // ---------- how many rounds ----------

  /** The number of further rounds for c started from the i-th event up to the j-th state. */
  function FurtherRounds(run: Run, evs: Events, c: NodeId, i: nat, j: nat): nat
    requires i < j
    decreases j - i
  {
    if j == i + 1 then 0
    else
      FurtherRounds(run, evs, c, i, j - 1)
      + if StartsRound(run(j - 1), evs(j - 1), run(j - 1 + 1), c) then 1 else 0
  }

  /** The first round of a rediscovery starts with the i-th event, which goes on until the j-th state. */
  ghost predicate SameRediscovery(run: Run, evs: Events, c: NodeId, i: nat, j: nat) {
    && i < j && !IsRediscovering(run(i), c) && StartsRound(run(i), evs(i), run(i + 1), c)
    && (forall k :: i < k <= j ==> IsRediscovering(run(k), c))
  }

  lemma RetriesStep(cfg: Config, run: Run, evs: Events, c: NodeId, k: nat)
    requires IsRun(cfg, run, evs) && IsRediscovering(run(k), c) && IsRediscovering(run(k + 1), c)
    ensures run(k + 1).contacts[c].retries
         == run(k).contacts[c].retries + if StartsRound(run(k), evs(k), run(k + 1), c) then 1 else 0
  {
    RunKeepsInv(cfg, run, evs, k);
    assert Rediscovery.RunStep(cfg, run, evs, k);
    EveryStepIsOfARound(cfg, run(k), evs(k), c);
  }

  lemma FirstRetries(cfg: Config, run: Run, evs: Events, c: NodeId, i: nat)
    requires IsRun(cfg, run, evs) && !IsRediscovering(run(i), c) && StartsRound(run(i), evs(i), run(i + 1), c)
    ensures run(i + 1).contacts[c].retries == 0
  {
    RunKeepsInv(cfg, run, evs, i);
    assert Rediscovery.RunStep(cfg, run, evs, i);
    FirstRound(cfg, run(i), evs(i), c);
  }

  /** The retries recorded for a contact are the rounds started after the first. */
  lemma {:induction false} RetriesCountRounds(cfg: Config, run: Run, evs: Events, c: NodeId, i: nat, j: nat)
    requires IsRun(cfg, run, evs) && SameRediscovery(run, evs, c, i, j)
    ensures IsRediscovering(run(j), c) && run(j).contacts[c].retries == FurtherRounds(run, evs, c, i, j)
    decreases j - i
  {
    if j == i + 1 {
      FirstRetries(cfg, run, evs, c, i);
    } else {
      var k := j - 1;
      RetriesCountRounds(cfg, run, evs, c, i, k);
      RetriesStep(cfg, run, evs, c, k);
    }
  }

  /** A contact is given up after exactly as many further rounds as are configured. */
  lemma {:induction false} GivenUpAfterAllRounds(cfg: Config, run: Run, evs: Events, c: NodeId, i: nat, j: nat)
    requires IsRun(cfg, run, evs) && SameRediscovery(run, evs, c, i, j)
    requires evs(j).Timer? && Subject(run(j), evs(j)) == Some(c) && c !in run(j + 1).contacts
    ensures FurtherRounds(run, evs, c, i, j) == cfg.maxRounds
  {
    RetriesCountRounds(cfg, run, evs, c, i, j);
    RunKeepsInv(cfg, run, evs, j);
    assert Rediscovery.RunStep(cfg, run, evs, j);
    EveryStepIsOfARound(cfg, run(j), evs(j), c);
  }
}
