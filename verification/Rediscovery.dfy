/** Rediscovery of contacts whose path failed: timers, requests in flight, rounds of retries. */
module Rediscovery {
  import opened NodeIds
  import opened SourceRoutes

  type TimerId = nat
  type Nonce = nat

  // ---------- requests in flight ----------

  datatype ByTimer = ByTimer(node: NodeId, nonce: Nonce)
  datatype ByNonce = ByNonce(node: NodeId, timer: TimerId)

  /** Requests indexed by their timeout and by their nonce. */
  datatype Inflight = Inflight(timers: map<TimerId, ByTimer>, nonces: map<Nonce, ByNonce>) {

    /** The two indexes are inverse to each other. */
    ghost predicate Inverse() {
      && (forall t :: t in timers ==>
            timers[t].nonce in nonces && nonces[timers[t].nonce] == ByNonce(timers[t].node, t))
      && (forall n :: n in nonces ==>
            nonces[n].timer in timers && timers[nonces[n].timer] == ByTimer(nonces[n].node, n))
    }

    function With(node: NodeId, timer: TimerId, nonce: Nonce): Inflight {
      Inflight(timers[timer := ByTimer(node, nonce)], nonces[nonce := ByNonce(node, timer)])
    }

    function WithoutTimer(timer: TimerId): Inflight
      requires timer in timers
    {
      Inflight(timers - {timer}, nonces - {timers[timer].nonce})
    }

    function WithoutNonce(nonce: Nonce): Inflight
      requires nonce in nonces
    {
      Inflight(timers - {nonces[nonce].timer}, nonces - {nonce})
    }

    function WithoutNode(node: NodeId): Inflight {
      Inflight(map t | t in timers && timers[t].node != node :: timers[t],
               map n | n in nonces && nonces[n].node != node :: nonces[n])
    }

    function TimersOf(node: NodeId): set<TimerId> {
      set t | t in timers && timers[t].node == node
    }
  }

  lemma RequestsStayInverse(i: Inflight, node: NodeId, timer: TimerId, nonce: Nonce)
    requires i.Inverse()
    ensures timer !in i.timers && nonce !in i.nonces ==> i.With(node, timer, nonce).Inverse()
    ensures timer in i.timers ==> i.WithoutTimer(timer).Inverse()
    ensures nonce in i.nonces ==> i.WithoutNonce(nonce).Inverse()
    ensures i.WithoutNode(node).Inverse()
  {
  }

  // ---------- state ----------

  datatype ContactState =
    | Valid
    | Invalid
    | Unknown
    | Rediscovering(revVia: seq<NodeId>, retries: nat)   // contacts still to ask, the next one last

  datatype Config = Config(maxRounds: nat, parallelism: nat)

  /** A request for a contact, sent to another one. */
  datatype Request = Request(node: NodeId, via: NodeId, nonce: Nonce)

  datatype State = State(
    contacts: map<NodeId, ContactState>,
    scheduled: map<TimerId, NodeId>,
    rate: map<TimerId, NodeId>,
    inflight: Inflight,
    nextTimer: TimerId,
    sent: seq<Request>)   // every FindNodeReq sent so far

  function ValidContacts(contacts: map<NodeId, ContactState>): set<NodeId> {
    set c | c in contacts && contacts[c].Valid?
  }

  predicate IsRediscovering(s: State, c: NodeId) {
    c in s.contacts && s.contacts[c].Rediscovering?
  }

  /** The contacts asked next, and what is left of the reversed list: ask until n usable ones
      were found, passing over those that are no longer valid. */
  function Pick(rev: seq<NodeId>, valid: set<NodeId>, n: nat): (r: (seq<NodeId>, seq<NodeId>))
    requires n >= 1
    ensures |r.0| <= |rev| && r.0 == rev[..|r.0|]
    ensures |r.1| <= n && forall v :: v in r.1 ==> v in valid
    ensures r.1 == [] ==> r.0 == []
    ensures r.1 != [] ==> |r.0| < |rev|
  {
    if rev == [] then ([], [])
    else
      var init, last := rev[..|rev| - 1], rev[|rev| - 1];
      if last !in valid then Pick(init, valid, n)
      else if n == 1 then (init, [last])
      else var r := Pick(init, valid, n - 1); (r.0, [last] + r.1)
  }

  function UsableOf(ids: seq<NodeId>, valid: set<NodeId>): seq<NodeId> {
    if ids == [] then [] else (if ids[0] in valid then [ids[0]] else []) + UsableOf(ids[1..], valid)
  }

  /** What is asked are exactly the usable ones among those taken off the list, in list order. */
  lemma {:induction false} PickTakesUsable(rev: seq<NodeId>, valid: set<NodeId>, n: nat)
    requires n >= 1
    ensures var r := Pick(rev, valid, n);
            r.1 == UsableOf(Reversed(rev[|r.0|..]), valid) && (|r.1| < n ==> r.0 == [])
  {
    if rev != [] {
      var init, last := rev[..|rev| - 1], rev[|rev| - 1];
      var rest := Pick(rev, valid, n).0;
      assert rev[|rest|..] == init[|rest|..] + [last];
      UsableOfLast(init[|rest|..], last, valid);
      if last !in valid || n > 1 {
        PickTakesUsable(init, valid, if last in valid then n - 1 else n);
      }
    }
  }

  lemma {:induction false} UsableOfLast(ids: seq<NodeId>, last: NodeId, valid: set<NodeId>)
    ensures UsableOf(Reversed(ids + [last]), valid)
         == (if last in valid then [last] else []) + UsableOf(Reversed(ids), valid)
  {
    assert Reversed(ids + [last]) == [last] + Reversed(ids);
    assert ([last] + Reversed(ids))[1..] == Reversed(ids);
  }

  function Scheduling(s: State, c: NodeId): State {
    s.(scheduled := s.scheduled[s.nextTimer := c], nextTimer := s.nextTimer + 1)
  }

  function RateLimiting(s: State, c: NodeId): State {
    s.(rate := s.rate[s.nextTimer := c], nextTimer := s.nextTimer + 1)
  }

  function Requesting(s: State, c: NodeId, via: NodeId, nonce: Nonce): State {
    s.(inflight := s.inflight.With(c, s.nextTimer, nonce), nextTimer := s.nextTimer + 1,
       sent := s.sent + [Request(c, via, nonce)])
  }

  /** One request for c to each of the contacts, each under its own nonce. */
  function RequestingAll(s: State, c: NodeId, vias: seq<NodeId>, nonces: seq<Nonce>): State
    requires |vias| == |nonces|
  {
    if nonces == [] then s
    else
      var last := |nonces| - 1;
      Requesting(RequestingAll(s, c, vias[..last], nonces[..last]), c, vias[last], nonces[last])
  }

  /** Take up to n usable via contacts from the list of c. */
  function Extract(s: State, c: NodeId, n: nat): (r: (State, seq<NodeId>))
    requires n >= 1
    ensures r.1 != [] ==> IsRediscovering(s, c)
    ensures |r.1| <= n
  {
    if !IsRediscovering(s, c) then (s, [])
    else
      var picked := Pick(s.contacts[c].revVia, ValidContacts(s.contacts), n);
      (s.(contacts := s.contacts[c := s.contacts[c].(revVia := picked.0)]), picked.1)
  }

  /** The scheduled time of a round has come. */
  function SendRediscovery(cfg: Config, s: State, c: NodeId, nonces: seq<Nonce>): State
    requires cfg.parallelism >= 1 && |nonces| >= cfg.parallelism
  {
    var (s', via) := Extract(s, c, cfg.parallelism);
    if via == [] then RateLimiting(s', c)
    else RequestingAll(s', c, via, nonces[..|via|])
  }

  /** A request for c timed out, or its rate limit is over: ask one more contact, or see
      whether the round is over. */
  function Retry(cfg: Config, s: State, c: NodeId, vias: seq<NodeId>, nonce: Nonce): State {
    if !IsRediscovering(s, c) then s
    else
      var (s', via) := Extract(s, c, 1);
      if via != [] then Requesting(s', c, via[0], nonce) else RoundOver(cfg, s', c, vias)
  }

  /** Nobody is left to ask: wait for what is still in flight, or start the next round with
      the given contacts, or give up. */
  function RoundOver(cfg: Config, s: State, c: NodeId, vias: seq<NodeId>): State
    requires IsRediscovering(s, c)
  {
    var retries := s.contacts[c].retries;
    if s.inflight.TimersOf(c) != {} || c in s.rate.Values then s
    else if retries < cfg.maxRounds then
      Scheduling(s.(contacts := s.contacts[c := Rediscovering(Reversed(vias), retries + 1)]), c)
    else Removing(s, c)
  }

  /** The contact is dead or was removed: it leaves the table, its requests are forgotten. */
  function Removing(s: State, c: NodeId): State {
    s.(contacts := s.contacts - {c}, inflight := s.inflight.WithoutNode(c))
  }

  datatype Event =
    | Invalidated(c: NodeId, vias: seq<NodeId>)    // a link of its path failed
    | Learned(c: NodeId, valid: bool)              // another use case heard of it
    | Removed(c: NodeId)
    | Replaced(c: NodeId)                          // another contact takes its place in the bucket
    | Timer(id: TimerId, vias: seq<NodeId>, nonces: seq<Nonce>)
    | ErrorFor(nonce: Nonce)
    | Response(nonce: Nonce, found: bool)          // found: the contact was made valid by it
    | Elsewhere(timers: nat)                       // other use cases register timers

  /** Nonces are drawn until they are unused. */
  ghost predicate Usable(cfg: Config, s: State, ev: Event) {
    ev.Timer? ==>
      && |ev.nonces| >= cfg.parallelism >= 1
      && (forall n :: n in ev.nonces ==> n !in s.inflight.nonces)
      && (forall i, j :: 0 <= i < j < |ev.nonces| ==> ev.nonces[i] != ev.nonces[j])
  }

  function Next(cfg: Config, s: State, ev: Event): State
    requires ev.Timer? ==> |ev.nonces| >= cfg.parallelism >= 1
  {
    match ev
    case Invalidated(c, vias) =>
      if c !in s.contacts || s.contacts[c].Rediscovering? || s.contacts[c].Invalid? then s
      else if s.contacts[c].Unknown? then s.(contacts := s.contacts[c := Invalid])
      else Scheduling(s.(contacts := s.contacts[c := Rediscovering(Reversed(vias), 0)]), c)
    case Learned(c, valid) =>
      if valid then s.(contacts := s.contacts[c := Valid])
      else if c in s.contacts then s
      else s.(contacts := s.contacts[c := Unknown])
    case Removed(c) => if c in s.contacts then Removing(s, c) else s
    case Replaced(c) => s.(contacts := s.contacts - {c})
    case Timer(id, vias, nonces) =>
      if id in s.scheduled then
        SendRediscovery(cfg, s.(scheduled := s.scheduled - {id}), s.scheduled[id], nonces)
      else if id in s.inflight.timers then
        Retry(cfg, s.(inflight := s.inflight.WithoutTimer(id)), s.inflight.timers[id].node, vias, nonces[0])
      else if id in s.rate then
        Retry(cfg, s.(rate := s.rate - {id}), s.rate[id], vias, nonces[0])
      else s
    case ErrorFor(nonce) =>
      if nonce in s.inflight.nonces then
        RateLimiting(s.(inflight := s.inflight.WithoutNonce(nonce)), s.inflight.nonces[nonce].node)
      else s
    case Response(nonce, found) =>
      if nonce in s.inflight.nonces then
        var c := s.inflight.nonces[nonce].node;
        s.(inflight := s.inflight.WithoutNonce(nonce),
           contacts := if found then s.contacts[c := Valid] else s.contacts)
      else s
    case Elsewhere(timers) => s.(nextTimer := s.nextTimer + timers)
  }

  // ---------- invariant ----------

  datatype Pending = Pending(scheduled: set<TimerId>, rate: set<TimerId>, inflight: set<TimerId>)

  function TimersFor(m: map<TimerId, NodeId>, c: NodeId): set<TimerId> {
    set t | t in m && m[t] == c
  }

  /** The timers that will continue the rediscovery of c. */
  function PendingOf(s: State, c: NodeId): Pending {
    Pending(TimersFor(s.scheduled, c), TimersFor(s.rate, c), s.inflight.TimersOf(c))
  }

  /** Timer ids come from a counter, so no two entries share one. */
  ghost predicate TimersDistinct(s: State) {
    && s.inflight.Inverse()
    && (forall t :: t in s.scheduled || t in s.rate || t in s.inflight.timers ==> t < s.nextTimer)
    && s.scheduled.Keys !! s.rate.Keys && s.scheduled.Keys !! s.inflight.timers.Keys
        && s.rate.Keys !! s.inflight.timers.Keys
  }

  ghost predicate Stranded(s: State, c: NodeId) {
    IsRediscovering(s, c) && PendingOf(s, c) == Pending({}, {}, {})
  }

  ghost predicate Inv(cfg: Config, s: State) {
    && TimersDistinct(s)
    && (forall c :: IsRediscovering(s, c) ==> !Stranded(s, c) && s.contacts[c].retries <= cfg.maxRounds)
  }

  lemma RequestingKeepsTimers(s: State, c: NodeId, via: NodeId, nonce: Nonce)
    requires TimersDistinct(s) && nonce !in s.inflight.nonces
    ensures TimersDistinct(Requesting(s, c, via, nonce))
  {
    RequestsStayInverse(s.inflight, c, s.nextTimer, nonce);
  }

  lemma {:induction false} RequestingAllKeepsTimers(s: State, c: NodeId, vias: seq<NodeId>, nonces: seq<Nonce>)
    requires TimersDistinct(s) && |vias| == |nonces|
    requires forall n :: n in nonces ==> n !in s.inflight.nonces
    requires forall i, j :: 0 <= i < j < |nonces| ==> nonces[i] != nonces[j]
    ensures var s' := RequestingAll(s, c, vias, nonces);
            && TimersDistinct(s')
            && s'.contacts == s.contacts && s'.scheduled == s.scheduled && s'.rate == s.rate
            && s'.inflight.nonces.Keys == s.inflight.nonces.Keys + set n | n in nonces
  {
    if nonces != [] {
      var last := |nonces| - 1;
      RequestingAllKeepsTimers(s, c, vias[..last], nonces[..last]);
      RequestingKeepsTimers(RequestingAll(s, c, vias[..last], nonces[..last]), c, vias[last], nonces[last]);
    }
  }

  lemma {:induction false} RequestingAllIsForOne(s: State, c: NodeId, vias: seq<NodeId>, nonces: seq<Nonce>, d: NodeId)
    requires TimersDistinct(s) && |vias| == |nonces|
    requires forall n :: n in nonces ==> n !in s.inflight.nonces
    requires forall i, j :: 0 <= i < j < |nonces| ==> nonces[i] != nonces[j]
    ensures d != c ==> RequestingAll(s, c, vias, nonces).inflight.TimersOf(d) == s.inflight.TimersOf(d)
    ensures d == c && nonces != [] ==> RequestingAll(s, c, vias, nonces).inflight.TimersOf(d) != {}
  {
    if nonces != [] {
      var last := |nonces| - 1;
      var s1 := RequestingAll(s, c, vias[..last], nonces[..last]);
      RequestingAllKeepsTimers(s, c, vias[..last], nonces[..last]);
      RequestingAllIsForOne(s, c, vias[..last], nonces[..last], d);
      RequestingIsForOne(s1, c, vias[last], nonces[last], d);
    }
  }

  lemma RequestingIsForOne(s: State, c: NodeId, via: NodeId, nonce: Nonce, d: NodeId)
    requires TimersDistinct(s)
    ensures var i := Requesting(s, c, via, nonce).inflight;
            i.TimersOf(d) == if d == c then s.inflight.TimersOf(d) + {s.nextTimer} else s.inflight.TimersOf(d)
  {
    assert s.nextTimer !in s.inflight.timers;
  }

  // ---------- whom a step is about ----------

  /** The contact whose rediscovery a timer or message continues. */
  function Subject(s: State, ev: Event): Option<NodeId> {
    match ev
    case Timer(id, _, _) =>
      if id in s.scheduled then Some(s.scheduled[id])
      else if id in s.inflight.timers then Some(s.inflight.timers[id].node)
      else if id in s.rate then Some(s.rate[id])
      else None
    case ErrorFor(nonce) => if nonce in s.inflight.nonces then Some(s.inflight.nonces[nonce].node) else None
    case Response(nonce, _) => if nonce in s.inflight.nonces then Some(s.inflight.nonces[nonce].node) else None
    case _ => None
  }

  predicate About(s: State, ev: Event, c: NodeId) {
    Subject(s, ev) == Some(c) || ((ev.Invalidated? || ev.Learned? || ev.Removed? || ev.Replaced?) && ev.c == c)
  }

  predicate SameContact(s: State, s': State, d: NodeId) {
    (d in s'.contacts <==> d in s.contacts) && (d in s.contacts ==> s'.contacts[d] == s.contacts[d])
  }

  predicate Unaffected(s: State, s': State, d: NodeId) {
    SameContact(s, s', d) && PendingOf(s', d) == PendingOf(s, d)
  }

  /** Where the pending timers of d differ from before: at most at one timer of c. */
  predicate Others(s: State, s': State, c: NodeId, d: NodeId) {
    d != c ==> Unaffected(s, s', d)
  }

  lemma ScheduleEffect(s: State, c: NodeId, d: NodeId)
    requires TimersDistinct(s)
    ensures TimersDistinct(Scheduling(s, c)) && Others(s, Scheduling(s, c), c, d)
    ensures PendingOf(Scheduling(s, c), c) == PendingOf(s, c).(scheduled := PendingOf(s, c).scheduled + {s.nextTimer})
  {
    assert s.nextTimer !in s.scheduled;
  }

  lemma RateLimitEffect(s: State, c: NodeId, d: NodeId)
    requires TimersDistinct(s)
    ensures TimersDistinct(RateLimiting(s, c)) && Others(s, RateLimiting(s, c), c, d)
    ensures PendingOf(RateLimiting(s, c), c) == PendingOf(s, c).(rate := PendingOf(s, c).rate + {s.nextTimer})
  {
    assert s.nextTimer !in s.rate;
  }

  lemma RequestEffect(s: State, c: NodeId, via: NodeId, nonce: Nonce, d: NodeId)
    requires TimersDistinct(s) && nonce !in s.inflight.nonces
    ensures TimersDistinct(Requesting(s, c, via, nonce)) && Others(s, Requesting(s, c, via, nonce), c, d)
    ensures PendingOf(Requesting(s, c, via, nonce), c)
            == PendingOf(s, c).(inflight := PendingOf(s, c).inflight + {s.nextTimer})
  {
    RequestingKeepsTimers(s, c, via, nonce);
    RequestingIsForOne(s, c, via, nonce, d);
    RequestingIsForOne(s, c, via, nonce, c);
  }

  lemma RemoveEffect(s: State, c: NodeId, d: NodeId)
    requires TimersDistinct(s)
    ensures TimersDistinct(Removing(s, c)) && Others(s, Removing(s, c), c, d)
  {
    RequestsStayInverse(s.inflight, c, 0, 0);
  }

  lemma ExtractEffect(s: State, c: NodeId, n: nat, d: NodeId)
    requires n >= 1
    ensures var s' := Extract(s, c, n).0;
            && (TimersDistinct(s) ==> TimersDistinct(s')) && Others(s, s', c, d)
            && PendingOf(s', c) == PendingOf(s, c) && s'.inflight == s.inflight
  {
  }

  lemma SendIsForOne(cfg: Config, s: State, c: NodeId, nonces: seq<Nonce>, d: NodeId)
    requires TimersDistinct(s) && |nonces| >= cfg.parallelism >= 1
    requires forall n :: n in nonces ==> n !in s.inflight.nonces
    requires forall i, j :: 0 <= i < j < |nonces| ==> nonces[i] != nonces[j]
    ensures TimersDistinct(SendRediscovery(cfg, s, c, nonces)) && Others(s, SendRediscovery(cfg, s, c, nonces), c, d)
  {
    ExtractEffect(s, c, cfg.parallelism, d);
    var (s1, via) := Extract(s, c, cfg.parallelism);
    if via == [] {
      RateLimitEffect(s1, c, d);
    } else {
      RequestingAllKeepsTimers(s1, c, via, nonces[..|via|]);
      RequestingAllIsForOne(s1, c, via, nonces[..|via|], d);
    }
  }

  lemma RetryIsForOne(cfg: Config, s: State, c: NodeId, vias: seq<NodeId>, nonce: Nonce, d: NodeId)
    requires TimersDistinct(s) && nonce !in s.inflight.nonces
    ensures TimersDistinct(Retry(cfg, s, c, vias, nonce)) && Others(s, Retry(cfg, s, c, vias, nonce), c, d)
  {
    if IsRediscovering(s, c) {
      ExtractEffect(s, c, 1, d);
      var (s1, via) := Extract(s, c, 1);
      if via != [] {
        RequestEffect(s1, c, via[0], nonce, d);
      } else if s.inflight.TimersOf(c) != {} || c in s.rate.Values {
      } else if s.contacts[c].retries < cfg.maxRounds {
        var s2 := s1.(contacts := s1.contacts[c := Rediscovering(Reversed(vias), s.contacts[c].retries + 1)]);
        assert Others(s1, s2, c, d) && TimersDistinct(s2);
        ScheduleEffect(s2, c, d);
      } else {
        RemoveEffect(s1, c, d);
      }
    }
  }

  lemma DropScheduledEffect(s: State, id: TimerId, d: NodeId)
    requires TimersDistinct(s) && id in s.scheduled
    ensures var s' := s.(scheduled := s.scheduled - {id});
            && TimersDistinct(s') && Others(s, s', s.scheduled[id], d)
            && PendingOf(s', s.scheduled[id])
                == PendingOf(s, s.scheduled[id]).(scheduled := PendingOf(s, s.scheduled[id]).scheduled - {id})
  {
  }

  lemma DropRateEffect(s: State, id: TimerId, d: NodeId)
    requires TimersDistinct(s) && id in s.rate
    ensures var s' := s.(rate := s.rate - {id});
            && TimersDistinct(s') && Others(s, s', s.rate[id], d)
            && PendingOf(s', s.rate[id]) == PendingOf(s, s.rate[id]).(rate := PendingOf(s, s.rate[id]).rate - {id})
  {
  }

  lemma DropRequestEffect(s: State, id: TimerId, d: NodeId)
    requires TimersDistinct(s) && id in s.inflight.timers
    ensures var s', c := s.(inflight := s.inflight.WithoutTimer(id)), s.inflight.timers[id].node;
            && TimersDistinct(s') && Others(s, s', c, d)
            && PendingOf(s', c) == PendingOf(s, c).(inflight := PendingOf(s, c).inflight - {id})
  {
    RequestsStayInverse(s.inflight, 0, id, 0);
  }

  lemma NonceAndTimerAgree(s: State, nonce: Nonce)
    requires TimersDistinct(s) && nonce in s.inflight.nonces
    ensures var id := s.inflight.nonces[nonce].timer;
            && id in s.inflight.timers && s.inflight.timers[id].node == s.inflight.nonces[nonce].node
            && s.inflight.WithoutNonce(nonce) == s.inflight.WithoutTimer(id)
  {
  }

  /** Every step leaves all other contacts and their timers alone, and timers distinct. */
  lemma StepIsForOne(cfg: Config, s: State, ev: Event, d: NodeId)
    requires TimersDistinct(s) && Usable(cfg, s, ev)
    ensures TimersDistinct(Next(cfg, s, ev))
    ensures !About(s, ev, d) ==> Unaffected(s, Next(cfg, s, ev), d)
  {
    match ev
    case Timer(id, vias, nonces) => TimerStepIsForOne(cfg, s, ev, d);
    case ErrorFor(nonce) => ErrorStepIsForOne(cfg, s, nonce, d);
    case Response(nonce, found) => ResponseStepIsForOne(cfg, s, nonce, found, d);
    case Removed(c) => RemoveEffect(s, c, d);
    case Invalidated(c, vias) => InvalidationIsForOne(cfg, s, c, vias, d);
    case _ =>
  }

  lemma ErrorStepIsForOne(cfg: Config, s: State, nonce: Nonce, d: NodeId)
    requires TimersDistinct(s)
    ensures var s' := Next(cfg, s, ErrorFor(nonce));
            TimersDistinct(s') && (Subject(s, ErrorFor(nonce)) != Some(d) ==> Unaffected(s, s', d))
  {
    if nonce in s.inflight.nonces {
      NonceAndTimerAgree(s, nonce);
      DropRequestEffect(s, s.inflight.nonces[nonce].timer, d);
      RateLimitEffect(s.(inflight := s.inflight.WithoutNonce(nonce)), s.inflight.nonces[nonce].node, d);
    }
  }

  lemma ResponseStepIsForOne(cfg: Config, s: State, nonce: Nonce, found: bool, d: NodeId)
    requires TimersDistinct(s)
    ensures var s' := Next(cfg, s, Response(nonce, found));
            TimersDistinct(s') && (Subject(s, Response(nonce, found)) != Some(d) ==> Unaffected(s, s', d))
  {
    if nonce in s.inflight.nonces {
      NonceAndTimerAgree(s, nonce);
      DropRequestEffect(s, s.inflight.nonces[nonce].timer, d);
    }
  }

  lemma InvalidationIsForOne(cfg: Config, s: State, c: NodeId, vias: seq<NodeId>, d: NodeId)
    requires TimersDistinct(s)
    ensures var s' := Next(cfg, s, Invalidated(c, vias));
            TimersDistinct(s') && (d != c ==> Unaffected(s, s', d))
  {
    ScheduleEffect(s.(contacts := s.contacts[c := Rediscovering(Reversed(vias), 0)]), c, d);
  }

  lemma TimerStepIsForOne(cfg: Config, s: State, ev: Event, d: NodeId)
    requires TimersDistinct(s) && ev.Timer? && Usable(cfg, s, ev)
    ensures TimersDistinct(Next(cfg, s, ev))
    ensures Subject(s, ev) != Some(d) ==> Unaffected(s, Next(cfg, s, ev), d)
  {
    var id := ev.id;
    if id in s.scheduled {
      DropScheduledEffect(s, id, d);
      SendIsForOne(cfg, s.(scheduled := s.scheduled - {id}), s.scheduled[id], ev.nonces, d);
    } else if id in s.inflight.timers {
      DropRequestEffect(s, id, d);
      RetryIsForOne(cfg, s.(inflight := s.inflight.WithoutTimer(id)), s.inflight.timers[id].node, ev.vias,
          ev.nonces[0], d);
    } else if id in s.rate {
      DropRateEffect(s, id, d);
      RetryIsForOne(cfg, s.(rate := s.rate - {id}), s.rate[id], ev.vias, ev.nonces[0], d);
    }
  }

  // ---------- every step of a rediscovery makes progress ----------

  datatype Rank = Rank(rounds: nat, scheduled: nat, via: nat, load: nat)

  predicate Below(a: Rank, b: Rank) {
    || a.rounds < b.rounds
    || (a.rounds == b.rounds && a.scheduled < b.scheduled)
    || (a.rounds == b.rounds && a.scheduled == b.scheduled && a.via < b.via)
    || (a.rounds == b.rounds && a.scheduled == b.scheduled && a.via == b.via && a.load < b.load)
  }

  ghost predicate Active(cfg: Config, s: State, c: NodeId) {
    IsRediscovering(s, c) && s.contacts[c].retries <= cfg.maxRounds
  }

  /** Rounds left, rounds already scheduled, contacts left to ask in this round, and the
      timers of this round, a request counting for itself and for its rate limit. */
  ghost function Measure(cfg: Config, s: State, c: NodeId): Rank
    requires Active(cfg, s, c)
  {
    var p := PendingOf(s, c);
    Rank(cfg.maxRounds - s.contacts[c].retries, |p.scheduled|, |s.contacts[c].revVia|, 2 * |p.inflight| + |p.rate|)
  }

  /** A new round begins with the scheduled timer: its place is taken by requests, or by a
      timer that lets the round fail. */
  lemma ScheduledStep(cfg: Config, s: State, ev: Event, c: NodeId)
    requires Active(cfg, s, c) && TimersDistinct(s) && ev.Timer? && Usable(cfg, s, ev)
    requires ev.id in s.scheduled && s.scheduled[ev.id] == c
    ensures var s' := Next(cfg, s, ev);
            Active(cfg, s', c) && !Stranded(s', c) && Below(Measure(cfg, s', c), Measure(cfg, s, c))
  {
    var s0 := s.(scheduled := s.scheduled - {ev.id});
    DropScheduledEffect(s, ev.id, c);
    assert ev.id in PendingOf(s, c).scheduled;
    ExtractEffect(s0, c, cfg.parallelism, c);
    var (s1, via) := Extract(s0, c, cfg.parallelism);
    if via == [] {
      RateLimitEffect(s1, c, c);
    } else {
      RequestingAllKeepsTimers(s1, c, via, ev.nonces[..|via|]);
      RequestingAllIsForOne(s1, c, via, ev.nonces[..|via|], c);
    }
  }

  /** After a failed request: an extraction that finds nothing has emptied the list, so the
      refill for the next round finds it empty. */
  lemma NothingFoundMeansEmpty(s: State, c: NodeId, n: nat)
    requires n >= 1 && IsRediscovering(s, c) && Extract(s, c, n).1 == []
    ensures IsRediscovering(Extract(s, c, n).0, c) && Extract(s, c, n).0.contacts[c].revVia == []
  {
  }

  lemma RetryStep(cfg: Config, s: State, c: NodeId, vias: seq<NodeId>, nonce: Nonce)
    requires Active(cfg, s, c) && TimersDistinct(s) && nonce !in s.inflight.nonces
    ensures var s' := Retry(cfg, s, c, vias, nonce);
            if IsRediscovering(s', c) then
              && Active(cfg, s', c) && !Stranded(s', c)
              && (Below(Measure(cfg, s', c), Measure(cfg, s, c)) || Measure(cfg, s', c) == Measure(cfg, s, c))
            else
              && c !in s'.contacts && s.contacts[c].retries == cfg.maxRounds
              && PendingOf(s, c).inflight == {} && PendingOf(s, c).rate == {}
  {
    ExtractEffect(s, c, 1, c);
    var (s1, via) := Extract(s, c, 1);
    if via != [] {
      RequestEffect(s1, c, via[0], nonce, c);
    } else if s.inflight.TimersOf(c) != {} {
    } else if c in s.rate.Values {
      var t :| t in s.rate && s.rate[t] == c;
      assert t in PendingOf(s, c).rate;
    } else if s.contacts[c].retries < cfg.maxRounds {
      var s2 := s1.(contacts := s1.contacts[c := Rediscovering(Reversed(vias), s.contacts[c].retries + 1)]);
      assert TimersDistinct(s2);
      ScheduleEffect(s2, c, c);
    }
  }

  /** A contact gives up only when its last round is over and nothing of it is in flight. */
  ghost predicate GivesUp(cfg: Config, s: State, ev: Event, c: NodeId) {
    && ev.Timer? && Subject(s, ev) == Some(c) && IsRediscovering(s, c) && s.contacts[c].retries == cfg.maxRounds
    && PendingOf(s, c).inflight <= {ev.id} && PendingOf(s, c).rate <= {ev.id}
  }

  lemma RetryTimerStep(cfg: Config, s: State, ev: Event, c: NodeId)
    requires Active(cfg, s, c) && TimersDistinct(s) && Usable(cfg, s, ev)
    requires ev.Timer? && ev.id !in s.scheduled && Subject(s, ev) == Some(c)
    ensures var s' := Next(cfg, s, ev);
            if IsRediscovering(s', c) then
              Active(cfg, s', c) && !Stranded(s', c) && Below(Measure(cfg, s', c), Measure(cfg, s, c))
            else c !in s'.contacts && GivesUp(cfg, s, ev, c)
  {
    var id := ev.id;
    if id in s.inflight.timers {
      assert id in PendingOf(s, c).inflight;
      DropRequestEffect(s, id, c);
      RetryStep(cfg, s.(inflight := s.inflight.WithoutTimer(id)), c, ev.vias, ev.nonces[0]);
    } else {
      assert id in PendingOf(s, c).rate;
      DropRateEffect(s, id, c);
      RetryStep(cfg, s.(rate := s.rate - {id}), c, ev.vias, ev.nonces[0]);
    }
  }

  lemma ErrorStep(cfg: Config, s: State, ev: Event, c: NodeId)
    requires Active(cfg, s, c) && TimersDistinct(s) && ev.ErrorFor? && Subject(s, ev) == Some(c)
    ensures var s' := Next(cfg, s, ev);
            Active(cfg, s', c) && !Stranded(s', c) && Below(Measure(cfg, s', c), Measure(cfg, s, c))
  {
    var id := s.inflight.nonces[ev.nonce].timer;
    NonceAndTimerAgree(s, ev.nonce);
    assert id in PendingOf(s, c).inflight;
    DropRequestEffect(s, id, c);
    var s1 := s.(inflight := s.inflight.WithoutNonce(ev.nonce));
    RateLimitEffect(s1, c, c);
    assert s1.nextTimer !in PendingOf(s1, c).rate;
  }

  /** Each timer or error of a rediscovery lowers its measure, and leaves another timer
      behind, unless the contact is found or given up. */
  lemma StepOfRediscovery(cfg: Config, s: State, ev: Event, c: NodeId)
    requires Active(cfg, s, c) && TimersDistinct(s) && Usable(cfg, s, ev) && Subject(s, ev) == Some(c)
    requires ev.Response? ==> ev.found
    ensures var s' := Next(cfg, s, ev);
            if IsRediscovering(s', c) then
              Active(cfg, s', c) && !Stranded(s', c) && Below(Measure(cfg, s', c), Measure(cfg, s, c))
            else if ev.Response? then c in s'.contacts && s'.contacts[c].Valid?
            else c !in s'.contacts && GivesUp(cfg, s, ev, c)
  {
    match ev
    case Timer(id, _, _) =>
      if id in s.scheduled { ScheduledStep(cfg, s, ev, c); } else { RetryTimerStep(cfg, s, ev, c); }
    case ErrorFor(_) => ErrorStep(cfg, s, ev, c);
    case Response(_, _) =>
  }

  /** All other steps leave the measure as it is, unless they end the rediscovery. */
  lemma OtherSteps(cfg: Config, s: State, ev: Event, c: NodeId)
    requires Active(cfg, s, c) && TimersDistinct(s) && Usable(cfg, s, ev) && Subject(s, ev) != Some(c)
    ensures var s' := Next(cfg, s, ev);
            if IsRediscovering(s', c) then Active(cfg, s', c) && Measure(cfg, s', c) == Measure(cfg, s, c)
            else || (ev == Learned(c, true) && s'.contacts[c] == Valid)
                 || ((ev == Removed(c) || ev == Replaced(c)) && c !in s'.contacts)
  {
    StepIsForOne(cfg, s, ev, c);
  }

  lemma InvalidationStarts(cfg: Config, s: State, ev: Event)
    requires TimersDistinct(s) && ev.Invalidated? && ev.c in s.contacts && s.contacts[ev.c].Valid?
    ensures var s' := Next(cfg, s, ev); Active(cfg, s', ev.c) && !Stranded(s', ev.c)
  {
    ScheduleEffect(s.(contacts := s.contacts[ev.c := Rediscovering(Reversed(ev.vias), 0)]), ev.c, ev.c);
  }

  lemma StepStrandsNobody(cfg: Config, s: State, ev: Event, d: NodeId)
    requires Inv(cfg, s) && Usable(cfg, s, ev) && (ev.Response? ==> ev.found)
    requires IsRediscovering(Next(cfg, s, ev), d)
    ensures !Stranded(Next(cfg, s, ev), d) && Active(cfg, Next(cfg, s, ev), d)
  {
    if !About(s, ev, d) {
      StepIsForOne(cfg, s, ev, d);
    } else if IsRediscovering(s, d) {
      if Subject(s, ev) == Some(d) { StepOfRediscovery(cfg, s, ev, d); }
    } else if ev.Invalidated? && s.contacts[d].Valid? {
      InvalidationStarts(cfg, s, ev);
    }
  }

  /** No rediscovery is ever stranded: some timer will continue it. */
  lemma StepKeepsInv(cfg: Config, s: State, ev: Event)
    requires Inv(cfg, s) && Usable(cfg, s, ev) && (ev.Response? ==> ev.found)
    ensures Inv(cfg, Next(cfg, s, ev))
  {
    StepIsForOne(cfg, s, ev, 0);
    forall d | IsRediscovering(Next(cfg, s, ev), d)
      ensures !Stranded(Next(cfg, s, ev), d) && Next(cfg, s, ev).contacts[d].retries <= cfg.maxRounds
    {
      StepStrandsNobody(cfg, s, ev, d);
    }
  }

  // ---------- whole runs ----------

  type Run = nat -> State
  type Events = nat -> Event

  ghost predicate RunStep(cfg: Config, run: Run, evs: Events, i: nat) {
    && Usable(cfg, run(i), evs(i)) && (evs(i).Response? ==> evs(i).found)
    && run(i + 1) == Next(cfg, run(i), evs(i))
  }

  /** An infinite run in which every answer makes its contact valid. */
  ghost predicate IsRun(cfg: Config, run: Run, evs: Events) {
    Inv(cfg, run(0)) && forall i: nat :: RunStep(cfg, run, evs, i)
  }

  /** A pending timer of c fires at last, unless an answer or a removal comes first. */
  ghost predicate Continues(run: Run, evs: Events, c: NodeId, i: nat) {
    exists j: nat :: j >= i && HappensTo(run, evs, c, j)
  }

  predicate HappensTo(run: Run, evs: Events, c: NodeId, j: nat) {
    Subject(run(j), evs(j)) == Some(c) || evs(j) == Removed(c)
  }

  ghost predicate TimersFire(run: Run, evs: Events, c: NodeId) {
    forall i: nat :: PendingOf(run(i), c) != Pending({}, {}, {}) ==> Continues(run, evs, c, i)
  }

  lemma {:induction false} RunKeepsInv(cfg: Config, run: Run, evs: Events, i: nat)
    requires IsRun(cfg, run, evs)
    ensures Inv(cfg, run(i))
  {
    if i > 0 {
      RunKeepsInv(cfg, run, evs, i - 1);
      assert RunStep(cfg, run, evs, i - 1);
      StepKeepsInv(cfg, run(i - 1), evs(i - 1));
    }
  }

  // A descent: while alive, no step raises the rank, and those that happen to it lower it.

  ghost predicate Descends(alive: nat -> bool, rank: nat -> Rank, happens: nat -> bool, k: nat) {
    alive(k) && alive(k + 1) ==>
      if happens(k) then Below(rank(k + 1), rank(k)) else rank(k + 1) == rank(k) || Below(rank(k + 1), rank(k))
  }

  ghost predicate HappensAfter(alive: nat -> bool, happens: nat -> bool, k: nat) {
    alive(k) ==> exists j: nat :: j >= k && happens(j)
  }

  lemma {:induction false} DescendsTo(alive: nat -> bool, rank: nat -> Rank, happens: nat -> bool, i: nat, j: nat)
    returns (e: nat)
    requires (forall k: nat :: Descends(alive, rank, happens, k)) && i <= j && alive(i)
    ensures i <= e <= j && alive(e)
    ensures if e < j then !alive(e + 1) else rank(e) == rank(i) || Below(rank(e), rank(i))
    decreases j - i
  {
    e := i;
    if i < j && alive(i + 1) {
      assert Descends(alive, rank, happens, i);
      e := DescendsTo(alive, rank, happens, i + 1, j);
    }
  }

  lemma {:induction false} DescentEnds(alive: nat -> bool, rank: nat -> Rank, happens: nat -> bool, i: nat)
    returns (j: nat)
    requires forall k: nat :: Descends(alive, rank, happens, k)
    requires forall k: nat :: HappensAfter(alive, happens, k)
    requires alive(i)
    ensures j >= i && alive(j) && !alive(j + 1)
    decreases rank(i).rounds, rank(i).scheduled, rank(i).via, rank(i).load
  {
    assert HappensAfter(alive, happens, i);
    var k: nat :| k >= i && happens(k);
    j := DescendsTo(alive, rank, happens, i, k);
    if j == k && alive(k + 1) {
      assert Descends(alive, rank, happens, k);
      j := DescentEnds(alive, rank, happens, k + 1);
    }
  }

  ghost function RankOf(cfg: Config, s: State, c: NodeId): Rank {
    if Active(cfg, s, c) then Measure(cfg, s, c) else Rank(0, 0, 0, 0)
  }

  lemma RunDescends(cfg: Config, run: Run, evs: Events, c: NodeId, k: nat)
    requires RunStep(cfg, run, evs, k) && Inv(cfg, run(k))
    requires IsRediscovering(run(k), c) && IsRediscovering(run(k + 1), c)
    ensures if HappensTo(run, evs, c, k) then Below(RankOf(cfg, run(k + 1), c), RankOf(cfg, run(k), c))
            else RankOf(cfg, run(k + 1), c) == RankOf(cfg, run(k), c)
  {
    if Subject(run(k), evs(k)) == Some(c) {
      StepOfRediscovery(cfg, run(k), evs(k), c);
    } else {
      OtherSteps(cfg, run(k), evs(k), c);
    }
  }

  /** Every rediscovery ends, whatever happens to other contacts meanwhile. */
  lemma EveryRediscoveryEnds(cfg: Config, run: Run, evs: Events, c: NodeId, i: nat) returns (j: nat)
    requires IsRun(cfg, run, evs) && TimersFire(run, evs, c) && IsRediscovering(run(i), c)
    ensures j >= i && IsRediscovering(run(j), c) && !IsRediscovering(run(j + 1), c)
  {
    var alive := (k: nat) => IsRediscovering(run(k), c);
    var rank := (k: nat) => RankOf(cfg, run(k), c);
    var happens := (k: nat) => HappensTo(run, evs, c, k);
    forall k: nat ensures Descends(alive, rank, happens, k) {
      if alive(k) && alive(k + 1) {
        RunKeepsInv(cfg, run, evs, k);
        assert RunStep(cfg, run, evs, k);
        RunDescends(cfg, run, evs, c, k);
      }
    }
    forall k: nat ensures HappensAfter(alive, happens, k) {
      if alive(k) {
        RunKeepsInv(cfg, run, evs, k);
        assert !Stranded(run(k), c);
        assert Continues(run, evs, c, k);
        var j: nat :| j >= k && HappensTo(run, evs, c, j);
        assert happens(j);
      }
    }
    j := DescentEnds(alive, rank, happens, i);
  }

  /** Without an answer, a removal, or news from elsewhere, the contact is given up. */
  lemma WithoutAnswerGivenUp(cfg: Config, run: Run, evs: Events, c: NodeId, i: nat) returns (j: nat)
    requires IsRun(cfg, run, evs) && TimersFire(run, evs, c) && IsRediscovering(run(i), c)
    requires forall k: nat :: k >= i ==> evs(k) != Learned(c, true) && evs(k) != Removed(c) && evs(k) != Replaced(c)
    requires forall k: nat :: k >= i && evs(k).Response? ==> Subject(run(k), evs(k)) != Some(c)
    ensures j >= i && GivesUp(cfg, run(j), evs(j), c) && c !in run(j + 1).contacts
  {
    j := EveryRediscoveryEnds(cfg, run, evs, c, i);
    RunKeepsInv(cfg, run, evs, j);
    assert RunStep(cfg, run, evs, j);
    if Subject(run(j), evs(j)) == Some(c) {
      StepOfRediscovery(cfg, run(j), evs(j), c);
    } else {
      OtherSteps(cfg, run(j), evs(j), c);
    }
  }

  // ---------- a contact that is replaced ----------

  lemma RemovedHasNoRequests(s: State, c: NodeId)
    ensures PendingOf(Removing(s, c), c).inflight == {}
  {
  }

  lemma GivenUpHasNoRequests(cfg: Config, s: State, c: NodeId, vias: seq<NodeId>, nonce: Nonce)
    requires IsRediscovering(s, c) && c !in Retry(cfg, s, c, vias, nonce).contacts
    ensures PendingOf(Retry(cfg, s, c, vias, nonce), c).inflight == {}
  {
    RemovedHasNoRequests(Extract(s, c, 1).0, c);
  }

  lemma LastTimerLeavesNoRequests(cfg: Config, s: State, ev: Event, c: NodeId)
    requires Active(cfg, s, c) && TimersDistinct(s) && Usable(cfg, s, ev) && ev.Timer? && Subject(s, ev) == Some(c)
    requires c !in Next(cfg, s, ev).contacts
    ensures PendingOf(Next(cfg, s, ev), c).inflight == {}
  {
    var id := ev.id;
    if id in s.scheduled {
      ScheduledStep(cfg, s, ev, c);
    } else if id in s.inflight.timers {
      GivenUpHasNoRequests(cfg, s.(inflight := s.inflight.WithoutTimer(id)), c, ev.vias, ev.nonces[0]);
    } else {
      GivenUpHasNoRequests(cfg, s.(rate := s.rate - {id}), c, ev.vias, ev.nonces[0]);
    }
  }

  /** Whatever takes a contact away in the middle of its rediscovery also forgets its requests, except that
      another contact takes its place: the update then names two contacts and is passed over. */
  lemma RequestsOutliveExactlyWhen(cfg: Config, s: State, ev: Event, c: NodeId)
    requires Inv(cfg, s) && Usable(cfg, s, ev) && (ev.Response? ==> ev.found)
    requires IsRediscovering(s, c) && c !in Next(cfg, s, ev).contacts
    ensures PendingOf(Next(cfg, s, ev), c).inflight != {} <==> ev == Replaced(c) && PendingOf(s, c).inflight != {}
  {
    if Subject(s, ev) == Some(c) {
      StepOfRediscovery(cfg, s, ev, c);
      if ev.Timer? { LastTimerLeavesNoRequests(cfg, s, ev, c); }
    } else {
      OtherSteps(cfg, s, ev, c);
      if ev == Removed(c) { RemovedHasNoRequests(s, c); }
    }
  }

  /** From any state such a state is reached by one failed link, one request and the replacement. */
  lemma RequestsMayOutlive(cfg: Config, s: State, c: NodeId, via: NodeId, nonces: seq<Nonce>)
    requires Inv(cfg, s) && Usable(cfg, s, Timer(s.nextTimer, [], nonces)) && |nonces| >= cfg.parallelism >= 1
    requires c != via && {c, via} <= ValidContacts(s.contacts) && PendingOf(s, c) == Pending({}, {}, {})
    ensures var s2 := Next(cfg, Next(cfg, s, Invalidated(c, [via])), Timer(s.nextTimer, [], nonces));
            var s3 := Next(cfg, s2, Replaced(c));
            c !in s3.contacts && PendingOf(s3, c).inflight != {}
  {
    var s1 := Next(cfg, s, Invalidated(c, [via]));
    var s2 := Next(cfg, s1, Timer(s.nextTimer, [], nonces));
    FirstSchedule(cfg, s, c, via);
    FirstRequest(cfg, s1, s.nextTimer, c, via, nonces);
    assert s.nextTimer + 1 in PendingOf(s2, c).inflight;
    assert PendingOf(Next(cfg, s2, Replaced(c)), c) == PendingOf(s2, c);
  }

  // ---------- an answer that does not help ----------

  /** An answer that leaves its contact as it is strands it exactly when the request was all
      that was pending for it. */
  lemma AnswerStrandsExactlyWhen(cfg: Config, s: State, nonce: Nonce)
    requires Inv(cfg, s) && nonce in s.inflight.nonces
    ensures var c := s.inflight.nonces[nonce].node;
            (Stranded(Next(cfg, s, Response(nonce, false)), c)
             <==> IsRediscovering(s, c) && PendingOf(s, c) == Pending({}, {}, {s.inflight.nonces[nonce].timer}))
  {
    var id, c := s.inflight.nonces[nonce].timer, s.inflight.nonces[nonce].node;
    NonceAndTimerAgree(s, nonce);
    DropRequestEffect(s, id, c);
    assert id in PendingOf(s, c).inflight;
  }

  lemma {:induction false} PickOnlyOne(via: NodeId, valid: set<NodeId>, n: nat)
    requires n >= 1 && via in valid
    ensures Pick([via], valid, n) == ([], [via])
  {
    var rev := [via];
    assert rev[..|rev| - 1] == [] && rev[|rev| - 1] == via;
    assert [via] + [] == [via];
  }

  lemma RoundWithOneContact(cfg: Config, s: State, c: NodeId, via: NodeId, nonces: seq<Nonce>)
    requires |nonces| >= cfg.parallelism >= 1
    requires c in s.contacts && s.contacts[c] == Rediscovering([via], 0) && via in s.contacts && s.contacts[via].Valid?
    ensures SendRediscovery(cfg, s, c, nonces)
         == Requesting(s.(contacts := s.contacts[c := Rediscovering([], 0)]), c, via, nonces[0])
  {
    PickOnlyOne(via, ValidContacts(s.contacts), cfg.parallelism);
    var s1 := s.(contacts := s.contacts[c := Rediscovering([], 0)]);
    assert Extract(s, c, cfg.parallelism) == (s1, [via]);
    var one := nonces[..1];
    assert one[|one| - 1] == nonces[0] && one[..|one| - 1] == [];
    assert [via][..0] == [];
    assert RequestingAll(s1, c, [via], one) == Requesting(s1, c, via, nonces[0]);
  }

  lemma FirstSchedule(cfg: Config, s: State, c: NodeId, via: NodeId)
    requires TimersDistinct(s) && PendingOf(s, c) == Pending({}, {}, {})
    requires c != via && c in s.contacts && s.contacts[c].Valid?
    ensures var s1 := Next(cfg, s, Invalidated(c, [via]));
            && TimersDistinct(s1) && PendingOf(s1, c) == Pending({s.nextTimer}, {}, {}) && s1.inflight == s.inflight
            && s1.contacts == s.contacts[c := Rediscovering([via], 0)] && s1.nextTimer == s.nextTimer + 1
  {
    assert Reversed([via]) == [via];
    ScheduleEffect(s.(contacts := s.contacts[c := Rediscovering([via], 0)]), c, c);
  }

  lemma FirstRequest(cfg: Config, s: State, id: TimerId, c: NodeId, via: NodeId, nonces: seq<Nonce>)
    requires TimersDistinct(s) && |nonces| >= cfg.parallelism >= 1 && nonces[0] !in s.inflight.nonces
    requires c in s.contacts && s.contacts[c] == Rediscovering([via], 0) && via in s.contacts && s.contacts[via].Valid?
    requires PendingOf(s, c) == Pending({id}, {}, {})
    ensures var s2 := Next(cfg, s, Timer(id, [], nonces));
            && IsRediscovering(s2, c) && PendingOf(s2, c) == Pending({}, {}, {s.nextTimer})
            && nonces[0] in s2.inflight.nonces && s2.inflight.nonces[nonces[0]] == ByNonce(c, s.nextTimer)
  {
    assert id in PendingOf(s, c).scheduled;
    DropScheduledEffect(s, id, c);
    var s1 := s.(scheduled := s.scheduled - {id});
    RoundWithOneContact(cfg, s1, c, via, nonces);
    var s2 := s1.(contacts := s1.contacts[c := Rediscovering([], 0)]);
    assert TimersDistinct(s2) && PendingOf(s2, c) == PendingOf(s1, c);
    RequestEffect(s2, c, via, nonces[0], c);
  }

  /** From any state such a state is reached by one failed link, one request and one useless answer. */
  lemma AnswerMayStrand(cfg: Config, s: State, c: NodeId, via: NodeId, nonces: seq<Nonce>)
    requires Inv(cfg, s) && Usable(cfg, s, Timer(s.nextTimer, [], nonces)) && |nonces| >= cfg.parallelism >= 1
    requires c != via && {c, via} <= ValidContacts(s.contacts) && PendingOf(s, c) == Pending({}, {}, {})
    ensures var s2 := Next(cfg, Next(cfg, s, Invalidated(c, [via])), Timer(s.nextTimer, [], nonces));
            Inv(cfg, s2) && Stranded(Next(cfg, s2, Response(nonces[0], false)), c)
  {
    var s1 := Next(cfg, s, Invalidated(c, [via]));
    var s2 := Next(cfg, s1, Timer(s.nextTimer, [], nonces));
    StepKeepsInv(cfg, s, Invalidated(c, [via]));
    assert Usable(cfg, s1, Timer(s.nextTimer, [], nonces));
    StepKeepsInv(cfg, s1, Timer(s.nextTimer, [], nonces));
    FirstSchedule(cfg, s, c, via);
    FirstRequest(cfg, s1, s.nextTimer, c, via, nonces);
    AnswerStrandsExactlyWhen(cfg, s2, nonces[0]);
  }
}
