/** The injector in its own form: three maps changed in place per event. */
module InjectorNode {
  import opened NodeIds
  import opened Injector

  class DistributedHashTableInjector {
    var timerHooks: map<TimerId, TimerHook>
    var pendingReqs: map<Nonce, Hook>
    var callbacks: map<Nonce, CallbackId>
    var nextTimer: TimerId                  // the timer counter of the runtime
    var results: seq<Result>                // what callbacks were sent
    var injections: seq<Injection>          // every injected request; its index stands for its callback

    ghost function View(): State
      reads this
    {
      State(timerHooks, pendingReqs, callbacks, nextTimer, injections, results)
    }

    constructor ()
      ensures View() == Started
    {
      timerHooks, pendingReqs, callbacks, nextTimer := map[], map[], map[], 0;
      results, injections := [], [];
    }

    method SendInjectResult(id: CallbackId, answered: bool, listening: bool) returns (sent: bool)
      modifies this`results
      ensures results == old(results) + [Result(id, answered, listening)] && sent == listening
    {
      results := results + [Result(id, answered, listening)];
      sent := listening;
    }

    method RegisterPendingReq(nonce: Nonce, hook: Hook)
      modifies this
      ensures View() == RegisterPending(old(View()), nonce, hook)
    {
      pendingReqs := pendingReqs[nonce := hook];
      timerHooks := timerHooks[nextTimer := Timeout(nonce)];
      nextTimer := nextTimer + 1;
    }

    method RegisterPeriodicRestore(payload: Payload)
      modifies this
      ensures View() == RegisterRestore(old(View()), payload)
    {
      timerHooks := timerHooks[nextTimer := PeriodicRestore(payload)];
      nextTimer := nextTimer + 1;
    }

    method InitRedundancyLookup(payload: Payload, restore: bool, nonce: Nonce)
      modifies this
      ensures View() == RegisterPending(old(View()), nonce, SendStores(payload, restore))
    {
      RegisterPendingReq(nonce, SendStores(payload, restore));
    }

    method InitRedundantStore(payload: Payload, closest: NodeId, nonce: Nonce, restore: bool)
      modifies this
      ensures View() == RegisterPending(old(View()), nonce, AwaitStore(payload, closest, restore))
    {
      RegisterPendingReq(nonce, AwaitStore(payload, closest, restore));
    }

    method HandleResponse(hook: Hook, nonce: Nonce, source: NodeId, listening: bool)
      modifies this
      ensures View() == Answered(old(View()), nonce, hook, source, listening)
    {
      match hook {
        case SendStores(payload, restore) =>
          InitRedundantStore(payload, source, nonce, restore);
        case AwaitStore(payload, _, restore) =>
          if nonce !in callbacks { return; }
          var id := callbacks[nonce];
          callbacks := callbacks - {nonce};
          var sent := SendInjectResult(id, true, listening);
          if !sent { return; }
          if restore { RegisterPeriodicRestore(payload); }
        case AwaitFetch =>
          if nonce !in callbacks { return; }
          var id := callbacks[nonce];
          callbacks := callbacks - {nonce};
          var _ := SendInjectResult(id, true, listening);
      }
    }

    /** The assertion that no orphan callback is left over holds in every reachable state. */
    method HandleTimer(id: TimerId, unused: Nonce, listening: bool)
      requires Inv(View()) && unused !in pendingReqs
      modifies this
      ensures View() == Next(old(View()), Timer(id, unused, listening))
    {
      if id !in timerHooks { return; }
      var hook := timerHooks[id];
      timerHooks := timerHooks - {id};
      match hook {
        case Timeout(nonce) =>
          if nonce in pendingReqs {
            pendingReqs := pendingReqs - {nonce};
            if nonce in callbacks {
              var callback := callbacks[nonce];
              callbacks := callbacks - {nonce};
              var _ := SendInjectResult(callback, false, listening);
            }
          } else {
            assert nonce !in callbacks;
          }
        case PeriodicRestore(payload) =>
          InitRedundancyLookup(payload, false, unused);
          RegisterPeriodicRestore(payload);
      }
    }

    method HandleEvent(ev: Event)
      requires Inv(View()) && Usable(View(), ev)
      modifies this
      ensures View() == Next(old(View()), ev) && Inv(View())
    {
      StepKeepsInv(View(), ev);
      match ev {
        case Inject(nonce, request) =>
          callbacks := callbacks[nonce := |injections|];
          injections := injections + [request];
          RegisterPendingReq(nonce, FirstHook(request));
        case Response(nonce, kind, source, listening) =>
          if nonce !in pendingReqs { return; }
          var hook := pendingReqs[nonce];
          if kind != ExpectedKind(hook) { return; }
          if hook.AwaitStore? && hook.closest != source { return; }
          pendingReqs := pendingReqs - {nonce};
          HandleResponse(hook, nonce, source, listening);
        case Timer(id, unused, listening) =>
          HandleTimer(id, unused, listening);
      }
    }
  }
}
