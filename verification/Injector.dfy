/** Requests injected into the distributed hash table: two-phase stores, fetches, timeouts,
    periodic restores, and the callbacks that are owed an answer. */
module Injector {
  import opened NodeIds
  import opened SourceRoutes

  type TimerId = nat
  type Nonce = nat
  type CallbackId = nat

  datatype Payload = Payload(handle: NodeId, data: seq<nat>)

  datatype Kind = FindNodeRsp | StoreRsp | FetchRsp

  /** What to do with the awaited response. */
  datatype Hook =
    | SendStores(payload: Payload, restore: bool)
    | AwaitStore(payload: Payload, closest: NodeId, restore: bool)
    | AwaitFetch

  function ExpectedKind(hook: Hook): Kind {
    match hook
    case SendStores(_, _) => FindNodeRsp
    case AwaitStore(_, _, _) => StoreRsp
    case AwaitFetch => FetchRsp
  }

  datatype TimerHook = Timeout(nonce: Nonce) | PeriodicRestore(payload: Payload)

  datatype Injection = Store(payload: Payload, restore: bool) | Fetch

  /** A result handed to a callback; accepted if its receiver still listened. */
  datatype Result = Result(id: CallbackId, answered: bool, accepted: bool)

  datatype State = State(
    hooks: map<TimerId, TimerHook>,
    pending: map<Nonce, Hook>,
    callbacks: map<Nonce, CallbackId>,
    nextTimer: TimerId,
    injections: seq<Injection>,   // every injected request; its index is its callback
    results: seq<Result>)         // every result handed out so far

  const Started := State(map[], map[], map[], 0, [], [])

  datatype Event =
    | Inject(nonce: Nonce, request: Injection)
    | Response(nonce: Nonce, kind: Kind, source: NodeId, listening: bool)
    | Timer(id: TimerId, unused: Nonce, listening: bool)   // unused: the nonce drawn for a restore

  function RegisterPending(s: State, nonce: Nonce, hook: Hook): State {
    s.(pending := s.pending[nonce := hook], hooks := s.hooks[s.nextTimer := Timeout(nonce)],
        nextTimer := s.nextTimer + 1)
  }

  function RegisterRestore(s: State, payload: Payload): State {
    s.(hooks := s.hooks[s.nextTimer := PeriodicRestore(payload)], nextTimer := s.nextTimer + 1)
  }

  /** Hand a result to the callback of the nonce, if there is one. */
  function Deliver(s: State, nonce: Nonce, answered: bool, listening: bool): State {
    if nonce in s.callbacks then
      s.(callbacks := s.callbacks - {nonce}, results := s.results + [Result(s.callbacks[nonce], answered, listening)])
    else s
  }

  function FirstHook(request: Injection): Hook {
    match request
    case Store(payload, restore) => SendStores(payload, restore)
    case Fetch => AwaitFetch
  }

  predicate Completes(hook: Hook, kind: Kind, source: NodeId) {
    kind == ExpectedKind(hook) && (hook.AwaitStore? ==> hook.closest == source)
  }

  function Answered(s: State, nonce: Nonce, hook: Hook, source: NodeId, listening: bool): State {
    match hook
    case SendStores(payload, restore) => RegisterPending(s, nonce, AwaitStore(payload, source, restore))
    case AwaitStore(payload, _, restore) =>
      var s' := Deliver(s, nonce, true, listening);
      if nonce in s.callbacks && listening && restore then RegisterRestore(s', payload) else s'
    case AwaitFetch => Deliver(s, nonce, true, listening)
  }

  function Next(s: State, ev: Event): State {
    match ev
    case Inject(nonce, request) =>
      RegisterPending(s.(callbacks := s.callbacks[nonce := |s.injections|], injections := s.injections + [request]),
                      nonce, FirstHook(request))
    case Response(nonce, kind, source, listening) =>
      if nonce in s.pending && Completes(s.pending[nonce], kind, source) then
        Answered(s.(pending := s.pending - {nonce}), nonce, s.pending[nonce], source, listening)
      else s
    case Timer(id, unused, listening) =>
      if id !in s.hooks then s
      else
        var s' := s.(hooks := s.hooks - {id});
        match s.hooks[id]
        case Timeout(nonce) =>
          if nonce in s.pending then Deliver(s'.(pending := s.pending - {nonce}), nonce, false, listening) else s'
        case PeriodicRestore(payload) =>
          RegisterRestore(RegisterPending(s', unused, SendStores(payload, false)), payload)
  }

  predicate Usable(s: State, ev: Event) {
    ev.Timer? ==> ev.unused !in s.pending
  }

  // ---------- invariant ----------

  ghost predicate HasTimeout(s: State, nonce: Nonce) {
    exists t :: t in s.hooks && s.hooks[t] == Timeout(nonce)
  }

  /** The hook of a pending request is the one of the injection whose callback it holds. */
  predicate Matches(request: Injection, hook: Hook) {
    match hook
    case SendStores(payload, restore) => request == Store(payload, restore)
    case AwaitStore(payload, _, restore) => request == Store(payload, restore)
    case AwaitFetch => request == Fetch
  }

  /** Every pending request has an armed timeout. */
  ghost predicate TimeoutsArmed(s: State) {
    && (forall t :: t in s.hooks ==> t < s.nextTimer)
    && (forall n :: n in s.pending ==> HasTimeout(s, n))
  }

  /** Every callback belongs to a pending request for its injection. */
  ghost predicate CallbacksPending(s: State) {
    forall n :: n in s.callbacks ==>
      n in s.pending && s.callbacks[n] < |s.injections| && Matches(s.injections[s.callbacks[n]], s.pending[n])
  }

  /** No callback is held twice, handed two results, or held after its result. */
  ghost predicate Once(s: State) {
    && (forall m, n :: m in s.callbacks && n in s.callbacks && s.callbacks[m] == s.callbacks[n] ==> m == n)
    && (forall i, j :: 0 <= i < j < |s.results| ==> s.results[i].id != s.results[j].id)
    && (forall r, n :: r in s.results && n in s.callbacks ==> r.id != s.callbacks[n])
    && (forall r :: r in s.results ==> r.id < |s.injections|)
  }

  ghost predicate Inv(s: State) {
    TimeoutsArmed(s) && CallbacksPending(s) && Once(s)
  }

  lemma ArmedStaysArmed(s: State, s': State, n: Nonce)
    requires HasTimeout(s, n)
    requires forall t :: t in s.hooks && s.hooks[t] == Timeout(n) ==> t in s'.hooks && s'.hooks[t] == Timeout(n)
    ensures HasTimeout(s', n)
  {
    var t :| t in s.hooks && s.hooks[t] == Timeout(n);
  }

  lemma RegisterPendingArms(s: State, nonce: Nonce, hook: Hook)
    requires TimeoutsArmed(s)
    ensures TimeoutsArmed(RegisterPending(s, nonce, hook))
  {
    var s' := RegisterPending(s, nonce, hook);
    assert s.nextTimer !in s.hooks && s'.hooks[s.nextTimer] == Timeout(nonce);
    forall n | n in s'.pending ensures HasTimeout(s', n) {
      if n != nonce { ArmedStaysArmed(s, s', n); }
    }
  }

  lemma RegisterRestoreArms(s: State, payload: Payload)
    requires TimeoutsArmed(s)
    ensures TimeoutsArmed(RegisterRestore(s, payload))
  {
    assert s.nextTimer !in s.hooks;
    forall n | n in s.pending ensures HasTimeout(RegisterRestore(s, payload), n) {
      ArmedStaysArmed(s, RegisterRestore(s, payload), n);
    }
  }

  lemma FiringKeepsArmed(s: State, id: TimerId)
    requires TimeoutsArmed(s) && id in s.hooks
    ensures TimeoutsArmed(s.(hooks := s.hooks - {id},
                             pending := if s.hooks[id].Timeout? then s.pending - {s.hooks[id].nonce} else s.pending))
  {
    var s' := s.(hooks := s.hooks - {id},
                 pending := if s.hooks[id].Timeout? then s.pending - {s.hooks[id].nonce} else s.pending);
    forall n | n in s'.pending ensures HasTimeout(s', n) {
      ArmedStaysArmed(s, s', n);
    }
  }

  lemma SameTablesSameArmed(s: State, s': State)
    requires TimeoutsArmed(s) && s'.hooks == s.hooks && s'.nextTimer == s.nextTimer && s'.pending.Keys <= s.pending.Keys
    ensures TimeoutsArmed(s')
  {
    forall n | n in s'.pending ensures HasTimeout(s', n) {
      ArmedStaysArmed(s, s', n);
    }
  }

  lemma TimeoutsStayArmed(s: State, ev: Event)
    requires TimeoutsArmed(s) && Usable(s, ev)
    ensures TimeoutsArmed(Next(s, ev))
  {
    match ev
    case Inject(nonce, request) =>
      var s0 := s.(callbacks := s.callbacks[nonce := |s.injections|], injections := s.injections + [request]);
      SameTablesSameArmed(s, s0);
      RegisterPendingArms(s0, nonce, FirstHook(request));
    case Response(nonce, kind, source, listening) =>
      if nonce in s.pending && Completes(s.pending[nonce], kind, source) {
        var s0, hook := s.(pending := s.pending - {nonce}), s.pending[nonce];
        SameTablesSameArmed(s, s0);
        match hook {
          case SendStores(payload, restore) =>
            RegisterPendingArms(s0, nonce, AwaitStore(payload, source, restore));
          case AwaitStore(payload, _, _) =>
            SameTablesSameArmed(s0, Deliver(s0, nonce, true, listening));
            RegisterRestoreArms(Deliver(s0, nonce, true, listening), payload);
          case AwaitFetch =>
            SameTablesSameArmed(s0, Deliver(s0, nonce, true, listening));
        }
      }
    case Timer(id, unused, listening) =>
      if id in s.hooks {
        FiringKeepsArmed(s, id);
        var s0 := s.(hooks := s.hooks - {id});
        match s.hooks[id] {
          case Timeout(nonce) =>
            var s1 := s0.(pending := s.pending - {nonce});
            assert nonce !in s.pending ==> s.pending - {nonce} == s.pending;
            SameTablesSameArmed(s1, Deliver(s1, nonce, false, listening));
          case PeriodicRestore(payload) =>
            RegisterPendingArms(s0, unused, SendStores(payload, false));
            RegisterRestoreArms(RegisterPending(s0, unused, SendStores(payload, false)), payload);
        }
      }
  }

  lemma DeliverStaysPending(s: State, nonce: Nonce, answered: bool, listening: bool)
    requires CallbacksPending(s)
    ensures CallbacksPending(Deliver(s.(pending := s.pending - {nonce}), nonce, answered, listening))
  {
  }

  lemma AnswerStaysPending(s: State, nonce: Nonce, source: NodeId, listening: bool)
    requires CallbacksPending(s) && nonce in s.pending
    ensures CallbacksPending(Answered(s.(pending := s.pending - {nonce}), nonce, s.pending[nonce], source, listening))
  {
    DeliverStaysPending(s, nonce, true, listening);
  }

  lemma CallbacksStayPending(s: State, ev: Event)
    requires CallbacksPending(s) && Usable(s, ev)
    ensures CallbacksPending(Next(s, ev))
  {
    match ev
    case Inject(_, _) =>
    case Response(nonce, _, source, listening) =>
      if nonce in s.pending { AnswerStaysPending(s, nonce, source, listening); }
    case Timer(id, _, listening) =>
      if id in s.hooks && s.hooks[id].Timeout? {
        DeliverStaysPending(s.(hooks := s.hooks - {id}), s.hooks[id].nonce, false, listening);
      }
  }

  lemma DeliverStaysOnce(s: State, nonce: Nonce, answered: bool, listening: bool)
    requires Once(s) && forall n :: n in s.callbacks ==> s.callbacks[n] < |s.injections|
    ensures Once(Deliver(s, nonce, answered, listening))
  {
    var s' := Deliver(s, nonce, answered, listening);
    forall i, j | 0 <= i < j < |s'.results| ensures s'.results[i].id != s'.results[j].id {
      assert s'.results[i] in s.results;
    }
  }

  lemma InjectStaysOnce(s: State, nonce: Nonce, request: Injection)
    requires Once(s) && forall n :: n in s.callbacks ==> s.callbacks[n] < |s.injections|
    ensures Once(s.(callbacks := s.callbacks[nonce := |s.injections|], injections := s.injections + [request]))
  {
  }

  predicate SameAccounts(s: State, s': State) {
    s'.callbacks == s.callbacks && s'.injections == s.injections && s'.results == s.results
  }

  /** A request was completed or timed out with this step, answered or not. */
  function Outcome(s: State, ev: Event): (bool, Nonce, bool) {
    match ev
    case Response(nonce, kind, source, _) =>
      (nonce in s.pending && Completes(s.pending[nonce], kind, source) && !s.pending[nonce].SendStores?, nonce, true)
    case Timer(id, _, _) =>
      if id in s.hooks && s.hooks[id].Timeout? then (s.hooks[id].nonce in s.pending, s.hooks[id].nonce, false)
          else (false, 0, false)
    case _ => (false, 0, false)
  }

  /** In the accounts of callbacks a step is an injection, a delivery, or nothing. */
  lemma StepAccounts(s: State, ev: Event)
    ensures var (over, nonce, answered) := Outcome(s, ev);
            if ev.Inject? then
              SameAccounts(s.(callbacks := s.callbacks[ev.nonce := |s.injections|],
                  injections := s.injections + [ev.request]), Next(s, ev))
            else if over then SameAccounts(Deliver(s, nonce, answered, ev.listening), Next(s, ev))
            else SameAccounts(s, Next(s, ev))
  {
  }

  lemma StaysOnce(s: State, ev: Event)
    requires CallbacksPending(s) && Once(s)
    ensures Once(Next(s, ev))
  {
    StepAccounts(s, ev);
    var (over, nonce, answered) := Outcome(s, ev);
    if ev.Inject? {
      InjectStaysOnce(s, ev.nonce, ev.request);
    } else if over {
      DeliverStaysOnce(s, nonce, answered, ev.listening);
    }
  }

  /** Every callback belongs to a pending request, every pending request has an armed timeout,
      and no callback gets two results. */
  lemma StepKeepsInv(s: State, ev: Event)
    requires Inv(s) && Usable(s, ev)
    ensures Inv(Next(s, ev))
  {
    TimeoutsStayArmed(s, ev);
    CallbacksStayPending(s, ev);
    StaysOnce(s, ev);
  }

  // ---------- conservation of callbacks ----------

  function HandedOut(s: State): set<CallbackId> {
    IdsOf(s.results)
  }

  function IdsOf(results: seq<Result>): set<CallbackId> {
    set r | r in results :: r.id
  }

  predicate Accounted(s: State, id: CallbackId) {
    id in HandedOut(s) || id in s.callbacks.Values
  }

  /** Every injected request was handed a result, or its callback is still held. */
  ghost predicate Conserved(s: State) {
    forall id :: 0 <= id < |s.injections| ==> Accounted(s, id)
  }

  lemma DeliverConserves(s: State, nonce: Nonce, answered: bool, listening: bool, id: CallbackId)
    requires Accounted(s, id)
    ensures Accounted(Deliver(s, nonce, answered, listening), id)
  {
    var s' := Deliver(s, nonce, answered, listening);
    if nonce in s.callbacks {
      assert s'.results[|s.results|].id == s.callbacks[nonce];
      if id in HandedOut(s) {
        var r :| r in s.results && r.id == id;
        assert r in s'.results;
      } else if id != s.callbacks[nonce] {
        var n :| n in s.callbacks && s.callbacks[n] == id;
        assert n in s'.callbacks && s'.callbacks[n] == id;
      }
    }
  }

  lemma InjectConserves(s: State, nonce: Nonce, request: Injection)
    requires Once(s) && CallbacksPending(s) && Conserved(s)
    ensures Conserved(s.(callbacks := s.callbacks[nonce := |s.injections|], injections := s.injections + [request]))
       <==> nonce !in s.callbacks
  {
    var s' := s.(callbacks := s.callbacks[nonce := |s.injections|], injections := s.injections + [request]);
    assert nonce in s'.callbacks && s'.callbacks[nonce] == |s.injections|;
    if nonce in s.callbacks {
      assert !Accounted(s', s.callbacks[nonce]);
    } else {
      forall id | 0 <= id < |s'.injections| ensures Accounted(s', id) {
        if id < |s.injections| && id !in HandedOut(s) {
          assert Accounted(s, id);
          var n :| n in s.callbacks && s.callbacks[n] == id;
          assert n in s'.callbacks && s'.callbacks[n] == id;
        }
      }
    }
  }

  lemma SameAccountsSameConserved(s: State, s': State)
    requires SameAccounts(s, s')
    ensures Conserved(s) <==> Conserved(s')
  {
    forall id ensures Accounted(s, id) <==> Accounted(s', id) { }
  }

  /** A step loses a callback exactly when it injects a request under an outstanding nonce. */
  lemma ConservedExactlyWhen(s: State, ev: Event)
    requires Inv(s) && Conserved(s)
    ensures Conserved(Next(s, ev)) <==> !(ev.Inject? && ev.nonce in s.callbacks)
  {
    StepAccounts(s, ev);
    var (over, nonce, answered) := Outcome(s, ev);
    if ev.Inject? {
      InjectConserves(s, ev.nonce, ev.request);
      SameAccountsSameConserved(
        s.(callbacks := s.callbacks[ev.nonce := |s.injections|], injections := s.injections + [ev.request]),
            Next(s, ev));
    } else {
      forall id | 0 <= id < |s.injections| ensures Accounted(Next(s, ev), id) {
        assert Accounted(s, id);
        if over { DeliverConserves(s, nonce, answered, ev.listening, id); }
      }
    }
  }

  lemma {:induction false} ResultsCount(results: seq<Result>)
    requires forall i, j :: 0 <= i < j < |results| ==> results[i].id != results[j].id
    ensures |IdsOf(results)| == |results|
  {
    if results != [] {
      var init, last := results[..|results| - 1], results[|results| - 1];
      ResultsCount(init);
      assert last.id !in IdsOf(init);
      assert IdsOf(results) == IdsOf(init) + {last.id};
    }
  }

  lemma {:induction false} CallbacksCount(callbacks: map<Nonce, CallbackId>)
    requires forall m, n :: m in callbacks && n in callbacks && callbacks[m] == callbacks[n] ==> m == n
    ensures |callbacks.Values| == |callbacks|
    decreases |callbacks|
  {
    if callbacks != map[] {
      var n :| n in callbacks;
      var rest := callbacks - {n};
      CallbacksCount(rest);
      assert callbacks.Keys == rest.Keys + {n};
      forall id | id in callbacks.Values && id != callbacks[n] ensures id in rest.Values {
        var m :| m in callbacks && callbacks[m] == id;
        assert m in rest;
      }
      assert callbacks.Values == rest.Values + {callbacks[n]};
    }
  }

  function UpTo(n: nat): (ids: set<CallbackId>)
    ensures |ids| == n && forall id :: id in ids <==> 0 <= id < n
  {
    if n == 0 then {} else UpTo(n - 1) + {n - 1}
  }

  lemma HandedOutOrHeld(s: State, id: CallbackId)
    requires Inv(s) && Conserved(s)
    ensures id in HandedOut(s) ==> id !in s.callbacks.Values
    ensures Accounted(s, id) <==> id < |s.injections|
  {
  }

  lemma PartitionCounts(a: set<nat>, b: set<nat>, n: nat)
    requires a !! b && forall id :: id in a || id in b <==> 0 <= id < n
    ensures |a| + |b| == n
  {
    assert a + b == UpTo(n);
  }

  /** In numbers: injected requests are results handed out plus callbacks still held. */
  lemma CountsAddUp(s: State)
    requires Inv(s) && Conserved(s)
    ensures |s.injections| == |s.results| + |s.callbacks|
  {
    ResultsCount(s.results);
    CallbacksCount(s.callbacks);
    forall id: nat
      ensures !(id in HandedOut(s) && id in s.callbacks.Values) && (Accounted(s, id) <==> id < |s.injections|)
    {
      HandedOutOrHeld(s, id);
    }
    PartitionCounts(HandedOut(s), s.callbacks.Values, |s.injections|);
  }

  // ---------- conservation of periodic restores ----------

  type Selection = Payload -> bool

  type Hooks = map<TimerId, TimerHook>

  /** Armed restores of the selected payloads. */
  function Restores(hooks: Hooks, selected: Selection): set<TimerId> {
    set t | t in hooks && hooks[t].PeriodicRestore? && selected(hooks[t].payload)
  }

  predicate IsRestored(injections: seq<Injection>, r: Result, selected: Selection) {
    && r.answered && r.accepted && r.id < |injections|
    && var request := injections[r.id];
    request.Store? && request.restore && selected(request.payload)
  }

  /** Injected stores of the selected payloads that were to be restored and whose answer was
      delivered. */
  function Restored(injections: seq<Injection>, results: seq<Result>, selected: Selection): set<nat> {
    set i | 0 <= i < |results| && IsRestored(injections, results[i], selected)
  }

  ghost predicate RestoresConserved(s: State, selected: Selection) {
    |Restores(s.hooks, selected)| == |Restored(s.injections, s.results, selected)|
  }

  lemma HookAdds(hooks: Hooks, t: TimerId, hook: TimerHook, selected: Selection)
    requires t !in hooks
    ensures |Restores(hooks[t := hook], selected)|
         == |Restores(hooks, selected)| + (if hook.PeriodicRestore? && selected(hook.payload) then 1 else 0)
  {
    assert Restores(hooks[t := hook], selected)
        == Restores(hooks, selected) + (if hook.PeriodicRestore? && selected(hook.payload) then {t} else {});
  }

  lemma HookDrops(hooks: Hooks, t: TimerId, selected: Selection)
    requires t in hooks
    ensures |Restores(hooks - {t}, selected)|
         == |Restores(hooks, selected)| - (if hooks[t].PeriodicRestore? && selected(hooks[t].payload) then 1 else 0)
  {
    assert Restores(hooks - {t}, selected) == Restores(hooks, selected) - {t};
  }

  lemma ResultAdds(injections: seq<Injection>, results: seq<Result>, r: Result, selected: Selection)
    ensures |Restored(injections, results + [r], selected)|
         == |Restored(injections, results, selected)| + (if IsRestored(injections, r, selected) then 1 else 0)
  {
    assert Restored(injections, results + [r], selected)
        == Restored(injections, results, selected) + (if IsRestored(injections, r, selected) then {|results|} else {});
  }

  lemma InjectionAddsNone(injections: seq<Injection>, results: seq<Result>, request: Injection, selected: Selection)
    requires forall r :: r in results ==> r.id < |injections|
    ensures Restored(injections + [request], results, selected) == Restored(injections, results, selected)
  {
    forall i | 0 <= i < |results|
      ensures IsRestored(injections + [request], results[i], selected) <==> IsRestored(injections, results[i], selected)
    {
      assert results[i] in results;
    }
  }

  lemma AnswerConservesRestores(s: State, nonce: Nonce, source: NodeId, listening: bool, selected: Selection)
    requires Inv(s) && RestoresConserved(s, selected) && nonce in s.pending
    ensures RestoresConserved(Answered(s.(pending := s.pending - {nonce}), nonce, s.pending[nonce], source, listening),
            selected)
  {
    var hook := s.pending[nonce];
    assert s.nextTimer !in s.hooks;
    if hook.SendStores? {
      HookAdds(s.hooks, s.nextTimer, Timeout(nonce), selected);
    } else if nonce in s.callbacks {
      assert Matches(s.injections[s.callbacks[nonce]], hook);
      ResultAdds(s.injections, s.results, Result(s.callbacks[nonce], true, listening), selected);
      if hook.AwaitStore? { HookAdds(s.hooks, s.nextTimer, PeriodicRestore(hook.payload), selected); }
    }
  }

  lemma TimerConservesRestores(s: State, ev: Event, selected: Selection)
    requires Inv(s) && RestoresConserved(s, selected) && ev.Timer? && ev.id in s.hooks
    ensures RestoresConserved(Next(s, ev), selected)
  {
    HookDrops(s.hooks, ev.id, selected);
    match s.hooks[ev.id] {
      case Timeout(nonce) =>
        if nonce in s.callbacks {
          ResultAdds(s.injections, s.results, Result(s.callbacks[nonce], false, ev.listening), selected);
        }
      case PeriodicRestore(payload) =>
        var hooks := s.hooks - {ev.id};
        HookAdds(hooks, s.nextTimer, Timeout(ev.unused), selected);
        HookAdds(hooks[s.nextTimer := Timeout(ev.unused)], s.nextTimer + 1, PeriodicRestore(payload), selected);
    }
  }

  /** Between events the armed restores are as many as the stores to be restored whose answer
      was delivered, for every selection of payloads: firing a restore arms exactly one again
      and the answer to its own store arms none. */
  lemma StepConservesRestores(s: State, ev: Event, selected: Selection)
    requires Inv(s) && RestoresConserved(s, selected)
    ensures RestoresConserved(Next(s, ev), selected)
  {
    match ev
    case Inject(nonce, request) =>
      HookAdds(s.hooks, s.nextTimer, Timeout(nonce), selected);
      InjectionAddsNone(s.injections, s.results, request, selected);
    case Response(nonce, kind, source, listening) =>
      if nonce in s.pending && Completes(s.pending[nonce], kind, source) {
        AnswerConservesRestores(s, nonce, source, listening, selected);
      }
    case Timer(id, _, _) =>
      if id in s.hooks { TimerConservesRestores(s, ev, selected); }
  }

  // ---------- whole runs ----------

  function After(evs: seq<Event>): State {
    if evs == [] then Started else Next(After(evs[..|evs| - 1]), evs[|evs| - 1])
  }

  ghost predicate IsRun(evs: seq<Event>) {
    evs == [] || (IsRun(evs[..|evs| - 1]) && Usable(After(evs[..|evs| - 1]), evs[|evs| - 1]))
  }

  /** No request is injected under a nonce whose request is still outstanding. */
  ghost predicate NoncesDistinct(evs: seq<Event>) {
    evs == [] || (
      var before, ev := After(evs[..|evs| - 1]), evs[|evs| - 1];
      NoncesDistinct(evs[..|evs| - 1]) && !(ev.Inject? && ev.nonce in before.callbacks))
  }

  lemma {:induction false} EveryRunKeepsInv(evs: seq<Event>, selected: Selection)
    requires IsRun(evs)
    ensures Inv(After(evs)) && RestoresConserved(After(evs), selected)
  {
    if evs == [] {
      assert Restores(Started.hooks, selected) == {} && Restored([], [], selected) == {};
    } else {
      var init, ev := evs[..|evs| - 1], evs[|evs| - 1];
      EveryRunKeepsInv(init, selected);
      StepKeepsInv(After(init), ev);
      StepConservesRestores(After(init), ev, selected);
    }
  }

  /** A run conserves callbacks exactly when it injects no request under an outstanding nonce. */
  lemma {:induction false} RunConservesExactlyWhen(evs: seq<Event>)
    requires IsRun(evs)
    ensures Conserved(After(evs)) <==> NoncesDistinct(evs)
  {
    if evs != [] {
      var init, ev := evs[..|evs| - 1], evs[|evs| - 1];
      EveryRunKeepsInv(init, p => true);
      RunConservesExactlyWhen(init);
      if Conserved(After(init)) {
        ConservedExactlyWhen(After(init), ev);
      } else {
        LostStaysLost(After(init), ev);
      }
    }
  }

  /** The run of two injections under one nonce loses the callback of the first. */
  lemma {:induction false} SecondInjectionLosesFirst(nonce: Nonce, first: Injection, second: Injection)
    ensures var evs := [Inject(nonce, first), Inject(nonce, second)];
            IsRun(evs) && !Accounted(After(evs), 0) && !Conserved(After(evs))
  {
    var evs := [Inject(nonce, first), Inject(nonce, second)];
    var s := After(evs);
    assert evs[..1][..0] == [] && After(evs[..1]) == Next(Started, Inject(nonce, first));
    assert IsRun(evs[..1][..0]) && IsRun(evs[..1]);
    assert s == Next(Next(Started, Inject(nonce, first)), Inject(nonce, second));
    assert s.callbacks == map[nonce := 1] && s.results == [];
  }

  lemma LostStaysLost(s: State, ev: Event)
    requires Inv(s) && !Conserved(s)
    ensures !Conserved(Next(s, ev))
  {
    var id :| 0 <= id < |s.injections| && !Accounted(s, id);
    StepAccounts(s, ev);
    assert !Accounted(Next(s, ev), id);
  }

  // ---------- timers of earlier requests under the same nonce ----------

  /** The nonce an event arms a timeout for. */
  function Arms(s: State, ev: Event): Option<Nonce> {
    match ev
    case Inject(nonce, _) => Some(nonce)
    case Response(nonce, kind, source, _) =>
      if nonce in s.pending && s.pending[nonce].SendStores? && Completes(s.pending[nonce], kind, source)
      then Some(nonce) else None
    case Timer(id, unused, _) => if id in s.hooks && s.hooks[id].PeriodicRestore? then Some(unused) else None
  }

  /** All timeouts armed for a nonce in the course of a run. */
  function ArmedFor(evs: seq<Event>, nonce: Nonce): set<TimerId> {
    if evs == [] then {}
    else
      var init, ev := evs[..|evs| - 1], evs[|evs| - 1];
      ArmedFor(init, nonce) + if Arms(After(init), ev) == Some(nonce) then {After(init).nextTimer} else {}
  }

  /** The timeout armed last, which is the one of the request now pending. */
  function OwnTimer(evs: seq<Event>, nonce: Nonce): Option<TimerId> {
    if evs == [] then None
    else
      var init, ev := evs[..|evs| - 1], evs[|evs| - 1];
      if Arms(After(init), ev) == Some(nonce) then Some(After(init).nextTimer) else OwnTimer(init, nonce)
  }

  /** The timer fired after it was armed. */
  predicate Fired(evs: seq<Event>, id: TimerId) {
    evs != [] && (
      var init, ev := evs[..|evs| - 1], evs[|evs| - 1];
      Fired(init, id) || (ev.Timer? && ev.id == id && id < After(init).nextTimer))
  }

  function Timeouts(s: State, nonce: Nonce): set<TimerId> {
    set t | t in s.hooks && s.hooks[t] == Timeout(nonce)
  }

  lemma TimeoutsStep(s: State, ev: Event, nonce: Nonce)
    requires forall t :: t in s.hooks ==> t < s.nextTimer
    ensures Timeouts(Next(s, ev), nonce)
         == Timeouts(s, nonce) - (if ev.Timer? then {ev.id} else {})
            + (if Arms(s, ev) == Some(nonce) then {s.nextTimer} else {})
    ensures Next(s, ev).nextTimer >= s.nextTimer && (Arms(s, ev).Some? ==> Next(s, ev).nextTimer > s.nextTimer)
  {
  }

  lemma PendingStep(s: State, ev: Event, nonce: Nonce)
    requires nonce in Next(s, ev).pending && Arms(s, ev) != Some(nonce)
    ensures nonce in s.pending
    ensures ev.Timer? ==> ev.id !in Timeouts(s, nonce)
  {
  }

  /** In every run the timeouts armed for a nonce are those that were armed and have not fired. */
  lemma {:induction false} TimeoutsAreUnfired(evs: seq<Event>, nonce: Nonce)
    requires IsRun(evs)
    ensures forall t :: t in Timeouts(After(evs), nonce) <==> t in ArmedFor(evs, nonce) && !Fired(evs, t)
    ensures forall t: TimerId :: t in ArmedFor(evs, nonce) || Fired(evs, t) ==> t < After(evs).nextTimer
  {
    if evs != [] {
      var init, ev := evs[..|evs| - 1], evs[|evs| - 1];
      EveryRunKeepsInv(init, p => true);
      TimeoutsAreUnfired(init, nonce);
      TimeoutsStep(After(init), ev, nonce);
    }
  }

  /** In every run a pending request has its own timeout armed, and it is the youngest for its nonce. */
  lemma {:induction false} OwnTimerIsArmed(evs: seq<Event>, nonce: Nonce)
    requires IsRun(evs) && nonce in After(evs).pending
    ensures OwnTimer(evs, nonce).Some? && OwnTimer(evs, nonce).value in Timeouts(After(evs), nonce)
    ensures forall t :: t in Timeouts(After(evs), nonce) ==> t <= OwnTimer(evs, nonce).value
  {
    if evs != [] {
      var init, ev := evs[..|evs| - 1], evs[|evs| - 1];
      EveryRunKeepsInv(init, p => true);
      TimeoutsStep(After(init), ev, nonce);
      if Arms(After(init), ev) != Some(nonce) {
        PendingStep(After(init), ev, nonce);
        OwnTimerIsArmed(init, nonce);
      }
    }
  }

  /** A pending request is ended by a timer that is not its own exactly when that timer was armed for an
      earlier request under the same nonce and has not fired yet. */
  lemma {:induction false} EndedByOtherTimerExactlyWhen(evs: seq<Event>, ev: Event, nonce: Nonce)
    requires IsRun(evs) && ev.Timer? && Usable(After(evs), ev) && nonce in After(evs).pending
    ensures (nonce !in Next(After(evs), ev).pending && OwnTimer(evs, nonce) != Some(ev.id))
       <==> (ev.id in ArmedFor(evs, nonce) && !Fired(evs, ev.id) && OwnTimer(evs, nonce) != Some(ev.id))
  {
    TimeoutsAreUnfired(evs, nonce);
    var hooks := After(evs).hooks;
    assert ev.id in Timeouts(After(evs), nonce) <==> ev.id in hooks && hooks[ev.id] == Timeout(nonce);
  }

  /** The answer to a lookup is what always leaves such a timer behind: in every run the timeout of the lookup
      ends the store it led to. The requester is told of a timeout, and the answer to the store is ignored. */
  lemma {:induction false} LookupTimerEndsStore(evs: seq<Event>, nonce: Nonce, source: NodeId, heard: bool,
                                                unused: Nonce, listening: bool, answer: Event)
    requires IsRun(evs) && nonce in After(evs).callbacks
    requires nonce in After(evs).pending && After(evs).pending[nonce].SendStores?
    requires answer.Response? && answer.nonce == nonce
    ensures OwnTimer(evs, nonce).Some?
    ensures var s := Next(After(evs), Response(nonce, FindNodeRsp, source, heard));
            var s' := Next(s, Timer(OwnTimer(evs, nonce).value, unused, listening));
            && nonce in s.pending && s.pending[nonce].AwaitStore? && nonce !in s'.pending
            && s'.results == After(evs).results + [Result(After(evs).callbacks[nonce], false, listening)]
            && Next(s', answer) == s'
  {
    EveryRunKeepsInv(evs, p => true);
    OwnTimerIsArmed(evs, nonce);
    TimeoutsStep(After(evs), Response(nonce, FindNodeRsp, source, heard), nonce);
    var s := Next(After(evs), Response(nonce, FindNodeRsp, source, heard));
    assert OwnTimer(evs, nonce).value in Timeouts(s, nonce);
  }
}
