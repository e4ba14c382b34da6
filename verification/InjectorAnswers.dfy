/** Injected requests are answered: which responses count, and that they reach the callback. */
module InjectorAnswers {
  import opened NodeIds
  import opened SourceRoutes
  import opened Injector

  /** The response a request waits for: its kind and, in the second phase of a store, who has to send it. */
  datatype Awaited = Awaited(kind: Kind, from: Option<NodeId>)

  predicate IsAnswer(ev: Event, nonce: Nonce, awaited: Awaited) {
    && ev.Response? && ev.nonce == nonce && ev.kind == awaited.kind
    && (awaited.from.Some? ==> ev.source == awaited.from.value)
  }

  /** The event is neither the awaited answer, nor a timeout for the nonce, nor another injection under it. */
  predicate Leaves(s: State, ev: Event, nonce: Nonce, awaited: Awaited) {
    && !IsAnswer(ev, nonce, awaited) && !(ev.Inject? && ev.nonce == nonce)
    && !(ev.Timer? && ev.id in s.hooks && s.hooks[ev.id] == Timeout(nonce))
  }

  /** From the i-th to the j-th event of the run nothing concerns the request. */
  ghost predicate Quiet(evs: seq<Event>, nonce: Nonce, awaited: Awaited, i: nat, j: nat) {
    j <= |evs| && forall k: nat :: i <= k < j ==> Leaves(After(evs[..k]), evs[k], nonce, awaited)
  }

  /** The request waits for this answer, on behalf of this callback, if any. */
  predicate Awaits(s: State, nonce: Nonce, hook: Hook, callback: Option<CallbackId>) {
    && nonce in s.pending && s.pending[nonce] == hook
    && (if callback.Some? then nonce in s.callbacks && s.callbacks[nonce] == callback.value else nonce !in s.callbacks)
  }

  /** A lookup is answered by any FindNodeRsp, a fetch by any FetchRsp, a store by the StoreRsp of one node. */
  function AwaitedBy(hook: Hook): Awaited {
    match hook
    case SendStores(_, _) => Awaited(FindNodeRsp, None)
    case AwaitStore(_, closest, _) => Awaited(StoreRsp, Some(closest))
    case AwaitFetch => Awaited(FetchRsp, None)
  }

  lemma StillAwaits(s: State, ev: Event, nonce: Nonce, hook: Hook, callback: Option<CallbackId>)
    requires Awaits(s, nonce, hook, callback) && Usable(s, ev) && Leaves(s, ev, nonce, AwaitedBy(hook))
    ensures Awaits(Next(s, ev), nonce, hook, callback)
  {
  }

  lemma {:induction false} PrefixIsRun(evs: seq<Event>, k: nat)
    requires IsRun(evs) && k <= |evs|
    ensures IsRun(evs[..k])
    decreases |evs| - k
  {
    if k == |evs| {
      assert evs[..k] == evs;
    } else {
      PrefixIsRun(evs, k + 1);
      assert evs[..k + 1][..k] == evs[..k];
    }
  }

  lemma {:induction false} RunStep(evs: seq<Event>, k: nat)
    requires IsRun(evs) && k < |evs|
    ensures IsRun(evs[..k]) && Usable(After(evs[..k]), evs[k])
    ensures After(evs[..k + 1]) == Next(After(evs[..k]), evs[k])
  {
    PrefixIsRun(evs, k + 1);
    assert evs[..k + 1][..k] == evs[..k];
  }

  lemma {:induction false} AwaitsThroughout(
    evs: seq<Event>, nonce: Nonce, hook: Hook, callback: Option<CallbackId>, i: nat, j: nat)
    requires IsRun(evs) && i <= j && Quiet(evs, nonce, AwaitedBy(hook), i, j)
    requires Awaits(After(evs[..i]), nonce, hook, callback)
    ensures Awaits(After(evs[..j]), nonce, hook, callback)
    decreases j - i
  {
    if i < j {
      RunStep(evs, i);
      assert Leaves(After(evs[..i]), evs[i], nonce, AwaitedBy(hook));
      StillAwaits(After(evs[..i]), evs[i], nonce, hook, callback);
      AwaitsThroughout(evs, nonce, hook, callback, i + 1, j);
    }
  }

  /** A waiting request takes exactly the answer it waits for: every other response under its nonce, whatever
      its kind and whoever sent it, changes nothing at all. */
  lemma TakesExactlyItsAnswer(s: State, ev: Event, nonce: Nonce, hook: Hook, callback: Option<CallbackId>)
    requires Awaits(s, nonce, hook, callback) && ev.Response? && ev.nonce == nonce
    requires forall t :: t in s.hooks ==> t < s.nextTimer
    ensures Next(s, ev) == s <==> !IsAnswer(ev, nonce, AwaitedBy(hook))
  {
    if IsAnswer(ev, nonce, AwaitedBy(hook)) {
      assert s.nextTimer !in s.hooks;
      if hook.SendStores? { assert s.nextTimer in Next(s, ev).hooks; } else { assert nonce !in Next(s, ev).pending; }
    }
  }

  /** What is left of a request after its last answer: nothing under its nonce, one result for its callback, and
      the restore to come, if there is one. */
  predicate Ends(s: State, s': State, nonce: Nonce, callback: Option<CallbackId>, heard: bool,
                 restored: Option<Payload>)
  {
    && s'.pending == s.pending - {nonce} && s'.callbacks == s.callbacks - {nonce} && s'.injections == s.injections
    && s'.results == s.results + (if callback.Some? then [Result(callback.value, true, heard)] else [])
    && s'.hooks == (if restored.Some? then s.hooks[s.nextTimer := PeriodicRestore(restored.value)] else s.hooks)
  }

  lemma LookupAnswered(s: State, ev: Event, nonce: Nonce, payload: Payload, restore: bool, callback: Option<CallbackId>)
    requires Awaits(s, nonce, SendStores(payload, restore), callback)
    requires IsAnswer(ev, nonce, Awaited(FindNodeRsp, None))
    ensures Awaits(Next(s, ev), nonce, AwaitStore(payload, ev.source, restore), callback)
  {
  }

  /** The restore that the confirmation of a store arms: there is someone to tell, and they listen. */
  function RestoreOf(payload: Payload, restore: bool, callback: Option<CallbackId>, heard: bool): Option<Payload> {
    if callback.Some? && restore && heard then Some(payload) else None
  }

  lemma StoreAnswered(s: State, ev: Event, nonce: Nonce, payload: Payload, closest: NodeId, restore: bool,
                      callback: Option<CallbackId>)
    requires Awaits(s, nonce, AwaitStore(payload, closest, restore), callback)
    requires IsAnswer(ev, nonce, Awaited(StoreRsp, Some(closest)))
    ensures Ends(s, Next(s, ev), nonce, callback, ev.listening, RestoreOf(payload, restore, callback, ev.listening))
  {
    assert callback.None? ==> s.callbacks - {nonce} == s.callbacks;
  }

  /** From the start of a store until its confirmation it waits for the node that answered its lookup. */
  lemma {:induction false} AwaitsConfirmation(
    evs: seq<Event>, nonce: Nonce, payload: Payload, restore: bool, callback: Option<CallbackId>, i: nat, j: nat)
    requires IsRun(evs) && i <= j < |evs| && IsAnswer(evs[j], nonce, Awaited(FindNodeRsp, None))
    requires Awaits(After(evs[..i]), nonce, SendStores(payload, restore), callback)
    requires Quiet(evs, nonce, Awaited(FindNodeRsp, None), i, j)
    requires Quiet(evs, nonce, Awaited(StoreRsp, Some(evs[j].source)), j + 1, |evs|)
    ensures Awaits(After(evs), nonce, AwaitStore(payload, evs[j].source, restore), callback)
  {
    AwaitsThroughout(evs, nonce, SendStores(payload, restore), callback, i, j);
    RunStep(evs, j);
    LookupAnswered(After(evs[..j]), evs[j], nonce, payload, restore, callback);
    AwaitsThroughout(evs, nonce, AwaitStore(payload, evs[j].source, restore), callback, j + 1, |evs|);
    assert evs[..|evs|] == evs;
  }

  lemma {:induction false} StoreEnds(
    evs: seq<Event>, nonce: Nonce, payload: Payload, closest: NodeId, restore: bool, callback: Option<CallbackId>,
    answer: Event)
    requires IsRun(evs) && Awaits(After(evs), nonce, AwaitStore(payload, closest, restore), callback)
    requires answer.Response? && answer.nonce == nonce
    ensures if answer.kind == StoreRsp && answer.source == closest
            then Ends(After(evs), Next(After(evs), answer), nonce, callback, answer.listening,
                      RestoreOf(payload, restore, callback, answer.listening))
            else Next(After(evs), answer) == After(evs)
  {
    if IsAnswer(answer, nonce, Awaited(StoreRsp, Some(closest))) {
      StoreAnswered(After(evs), answer, nonce, payload, closest, restore, callback);
    } else {
      EveryRunKeepsInv(evs, p => true);
      TakesExactlyItsAnswer(After(evs), answer, nonce, AwaitStore(payload, closest, restore), callback);
    }
  }

  /** The callback of the request injected by the i-th event. */
  function CallbackOf(evs: seq<Event>, i: nat): CallbackId
    requires i <= |evs|
  {
    |After(evs[..i]).injections|
  }

  predicate HasResult(s: State, id: CallbackId) {
    exists r :: r in s.results && r.id == id
  }

  lemma {:induction false} WaitingHasNoResult(evs: seq<Event>, nonce: Nonce, hook: Hook, id: CallbackId)
    requires IsRun(evs) && Awaits(After(evs), nonce, hook, Some(id))
    ensures !HasResult(After(evs), id)
  {
    EveryRunKeepsInv(evs, p => true);
  }

  /** In every run: a store is injected, its lookup is answered by a node, and no timeout for its nonce fires and
      nothing else is injected under it. Then its requester has been told nothing so far. The confirmation of
      that node is delivered to the requester as its one result, ends the request, and arms a restore of the
      very payload if one was asked for and the requester listens. Any other response changes nothing. */
  lemma {:induction false} StoreIsConfirmed(
    evs: seq<Event>, nonce: Nonce, payload: Payload, restore: bool, i: nat, j: nat, answer: Event)
    requires IsRun(evs) && i < j < |evs| && evs[i] == Inject(nonce, Store(payload, restore))
    requires IsAnswer(evs[j], nonce, Awaited(FindNodeRsp, None))
    requires Quiet(evs, nonce, Awaited(FindNodeRsp, None), i + 1, j)
    requires Quiet(evs, nonce, Awaited(StoreRsp, Some(evs[j].source)), j + 1, |evs|)
    requires answer.Response? && answer.nonce == nonce
    ensures nonce in After(evs).pending && !HasResult(After(evs), CallbackOf(evs, i))
    ensures if answer.kind == StoreRsp && answer.source == evs[j].source
            then Ends(After(evs), Next(After(evs), answer), nonce, Some(CallbackOf(evs, i)), answer.listening,
                      if restore && answer.listening then Some(payload) else None)
            else Next(After(evs), answer) == After(evs)
  {
    RunStep(evs, i);
    var id := CallbackOf(evs, i);
    assert Awaits(After(evs[..i + 1]), nonce, SendStores(payload, restore), Some(id));
    AwaitsConfirmation(evs, nonce, payload, restore, Some(id), i + 1, j);
    StoreEnds(evs, nonce, payload, evs[j].source, restore, Some(id), answer);
    WaitingHasNoResult(evs, nonce, AwaitStore(payload, evs[j].source, restore), id);
  }

  /** In every run a restore that fires stores its payload again under the nonce drawn for it, on nobody's
      behalf: the confirmation by the node its lookup found ends it, hands out nothing and arms nothing. */
  lemma {:induction false} RestoreIsConfirmed(
    evs: seq<Event>, payload: Payload, i: nat, j: nat, answer: Event)
    requires IsRun(evs) && i < j < |evs| && evs[i].Timer?
    requires evs[i].id in After(evs[..i]).hooks && After(evs[..i]).hooks[evs[i].id] == PeriodicRestore(payload)
    requires IsAnswer(evs[j], evs[i].unused, Awaited(FindNodeRsp, None))
    requires Quiet(evs, evs[i].unused, Awaited(FindNodeRsp, None), i + 1, j)
    requires Quiet(evs, evs[i].unused, Awaited(StoreRsp, Some(evs[j].source)), j + 1, |evs|)
    requires answer.Response? && answer.nonce == evs[i].unused
    ensures answer.nonce in After(evs).pending
    ensures if answer.kind == StoreRsp && answer.source == evs[j].source
            then Ends(After(evs), Next(After(evs), answer), answer.nonce, None, answer.listening, None)
            else Next(After(evs), answer) == After(evs)
  {
    RunStep(evs, i);
    EveryRunKeepsInv(evs[..i], p => true);
    assert Awaits(After(evs[..i + 1]), evs[i].unused, SendStores(payload, false), None);
    AwaitsConfirmation(evs, evs[i].unused, payload, false, None, i + 1, j);
    StoreEnds(evs, evs[i].unused, payload, evs[j].source, false, None, answer);
  }

  /** In every run: a fetch whose nonce saw no timeout and no other injection takes the first response to a
      fetch, whoever sent it, and hands it to its requester as its one result. No other response counts. */
  lemma {:induction false} FetchIsAnswered(evs: seq<Event>, nonce: Nonce, i: nat, answer: Event)
    requires IsRun(evs) && i < |evs| && evs[i] == Inject(nonce, Fetch)
    requires Quiet(evs, nonce, Awaited(FetchRsp, None), i + 1, |evs|)
    requires answer.Response? && answer.nonce == nonce
    ensures nonce in After(evs).pending && !HasResult(After(evs), CallbackOf(evs, i))
    ensures if answer.kind == FetchRsp
            then Ends(After(evs), Next(After(evs), answer), nonce, Some(CallbackOf(evs, i)), answer.listening, None)
            else Next(After(evs), answer) == After(evs)
  {
    RunStep(evs, i);
    var id := CallbackOf(evs, i);
    AwaitsThroughout(evs, nonce, AwaitFetch, Some(id), i + 1, |evs|);
    assert evs[..|evs|] == evs;
    WaitingHasNoResult(evs, nonce, AwaitFetch, id);
    EveryRunKeepsInv(evs, p => true);
    TakesExactlyItsAnswer(After(evs), answer, nonce, AwaitFetch, Some(id));
  }

  /** In every run a request that waits is never stranded: its own timer is armed, and if that fires before the
      answer the requester gets the one result that nothing answered, and no later response is looked at. */
  lemma {:induction false} UnansweredTimesOut(
    evs: seq<Event>, nonce: Nonce, hook: Hook, id: CallbackId, unused: Nonce, listening: bool, late: Event)
    requires IsRun(evs) && Awaits(After(evs), nonce, hook, Some(id)) && late.Response? && late.nonce == nonce
    ensures OwnTimer(evs, nonce).Some? && !HasResult(After(evs), id)
    ensures var s := Next(After(evs), Timer(OwnTimer(evs, nonce).value, unused, listening));
            && nonce !in s.pending && nonce !in s.callbacks && Next(s, late) == s
            && s.results == After(evs).results + [Result(id, false, listening)]
  {
    OwnTimerIsArmed(evs, nonce);
    WaitingHasNoResult(evs, nonce, hook, id);
  }
}
