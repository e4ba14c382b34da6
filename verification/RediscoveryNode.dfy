/** The failure handling use case in its own form: maps and lists changed in place. */
module RediscoveryNode {
  import opened NodeIds
  import opened SourceRoutes
  import opened Rediscovery

  datatype InsertResult = Inserted | DuplicateTimer | DuplicateNonce

  class InflightReqMap {
    var timers: map<TimerId, ByTimer>
    var nonces: map<Nonce, ByNonce>

    ghost function View(): Inflight
      reads this
    {
      Inflight(timers, nonces)
    }

    constructor ()
      ensures View() == Inflight(map[], map[])
    {
      timers, nonces := map[], map[];
    }

    method Insert(node: NodeId, timer: TimerId, nonce: Nonce) returns (r: InsertResult)
      modifies this
      ensures r == if timer in old(timers) then DuplicateTimer else if nonce in old(nonces) then DuplicateNonce
              else Inserted
      ensures View() == if r == Inserted then old(View()).With(node, timer, nonce) else old(View())
    {
      if timer in timers { return DuplicateTimer; }
      if nonce in nonces { return DuplicateNonce; }
      timers := timers[timer := ByTimer(node, nonce)];
      nonces := nonces[nonce := ByNonce(node, timer)];
      r := Inserted;
    }

    /** The two assertions of the removal hold because the indexes are inverse. */
    method RemoveByNonce(nonce: Nonce) returns (removed: Option<ByNonce>)
      requires View().Inverse()
      modifies this
      ensures View().Inverse()
      ensures nonce !in old(nonces) ==> removed == None && View() == old(View())
      ensures nonce in old(nonces) ==> removed == Some(old(nonces)[nonce]) && View() == old(View()).WithoutNonce(nonce)
    {
      if nonce !in nonces { return None; }
      var entry := nonces[nonce];
      nonces := nonces - {nonce};
      var mirrored := timers[entry.timer];
      timers := timers - {entry.timer};
      assert mirrored.node == entry.node && mirrored.nonce == nonce;
      removed := Some(entry);
    }

    method RemoveByTimer(timer: TimerId) returns (removed: Option<ByTimer>)
      requires View().Inverse()
      modifies this
      ensures View().Inverse()
      ensures timer !in old(timers) ==> removed == None && View() == old(View())
      ensures timer in old(timers) ==> removed == Some(old(timers)[timer]) && View() == old(View()).WithoutTimer(timer)
    {
      if timer !in timers { return None; }
      var entry := timers[timer];
      timers := timers - {timer};
      var mirrored := nonces[entry.nonce];
      nonces := nonces - {entry.nonce};
      assert mirrored.node == entry.node && mirrored.timer == timer;
      removed := Some(entry);
    }

    method RemoveById(node: NodeId)
      requires View().Inverse()
      modifies this
      ensures View().Inverse() && View() == old(View()).WithoutNode(node)
    {
      timers := map t | t in timers && timers[t].node != node :: timers[t];
      nonces := map n | n in nonces && nonces[n].node != node :: nonces[n];
    }

    /** Searches the nonces; the answer is the same for the timers. */
    method Exists(node: NodeId) returns (found: bool)
      requires View().Inverse()
      ensures found <==> View().TimersOf(node) != {}
    {
      var rest := nonces.Keys;
      while rest != {}
        invariant rest <= nonces.Keys
        invariant forall n :: n in nonces && nonces[n].node == node ==> n in rest
      {
        var n :| n in rest;
        if nonces[n].node == node {
          assert nonces[n].timer in View().TimersOf(node);
          return true;
        }
        rest := rest - {n};
      }
      assert forall t :: t in timers ==> timers[t].nonce in nonces && nonces[timers[t].nonce].node == timers[t].node;
      found := false;
    }
  }

  /** What picking comes to when via was already found and rest is still to look at. */
  ghost function Continued(rest: seq<NodeId>, valid: set<NodeId>, n: nat, via: seq<NodeId>): (seq<NodeId>, seq<NodeId>)
    requires |via| <= n
  {
    if |via| == n then (rest, via)
    else var r := Pick(rest, valid, n - |via|); (r.0, via + r.1)
  }

  lemma ContinuedStep(rest: seq<NodeId>, valid: set<NodeId>, n: nat, via: seq<NodeId>)
    requires rest != [] && |via| < n
    ensures var init, last := rest[..|rest| - 1], rest[|rest| - 1];
            Continued(rest, valid, n, via) == Continued(init, valid, n, if last in valid then via + [last] else via)
  {
    var init, last := rest[..|rest| - 1], rest[|rest| - 1];
    if last in valid && n - |via| > 1 {
      var r := Pick(init, valid, n - |via| - 1);
      assert via + ([last] + r.1) == (via + [last]) + r.1;
    }
  }

  class FailureHandling {
    const cfg: Config
    const inflight: InflightReqMap
    var contacts: map<NodeId, ContactState>   // the routing table
    var scheduled: map<TimerId, NodeId>
    var rate: map<TimerId, NodeId>
    var nextTimer: TimerId                    // the timer counter of the runtime
    var sent: seq<Request>                    // what was handed to the runtime to send

    ghost function View(): State
      reads this, inflight
    {
      State(contacts, scheduled, rate, inflight.View(), nextTimer, sent)
    }

    constructor (cfg: Config, contacts: map<NodeId, ContactState>, nextTimer: TimerId)
      ensures this.cfg == cfg && fresh(inflight)
      ensures View() == State(contacts, map[], map[], Inflight(map[], map[]), nextTimer, [])
    {
      this.cfg, this.contacts, this.nextTimer := cfg, contacts, nextTimer;
      scheduled, rate, sent := map[], map[], [];
      inflight := new InflightReqMap();
    }

    method RegisterTimer() returns (id: TimerId)
      modifies this`nextTimer
      ensures id == old(nextTimer) && nextTimer == old(nextTimer) + 1
    {
      id := nextTimer;
      nextTimer := nextTimer + 1;
    }

    /** Goes through the list of contacts still to ask, the reversed list from its end. */
    method CollectEligible(rev: seq<NodeId>, n: nat) returns (processed: nat, via: seq<NodeId>)
      requires n >= 1
      ensures processed <= |rev| && (rev[..|rev| - processed], via) == Pick(rev, ValidContacts(contacts), n)
    {
      processed, via := 0, [];
      ghost var valid := ValidContacts(contacts);
      assert rev[..|rev|] == rev && [] + Pick(rev, valid, n).1 == Pick(rev, valid, n).1;
      while processed < |rev| && |via| < n
        invariant processed <= |rev| && |via| <= n
        invariant Continued(rev[..|rev| - processed], valid, n, via) == Pick(rev, valid, n)
      {
        ghost var rest := rev[..|rev| - processed];
        var candidate := rev[|rev| - processed - 1];
        ContinuedStep(rest, valid, n, via);
        assert rest[..|rest| - 1] == rev[..|rev| - (processed + 1)];
        processed := processed + 1;
        if candidate in contacts && contacts[candidate].Valid? {
          via := via + [candidate];
        }
      }
      if |via| < n { assert rev[..|rev| - processed] == [] && via + [] == via; }
    }

    /** Afterwards the list is truncated by the number of entries gone past. */
    method ExtractEligibleViaContacts(c: NodeId, n: nat) returns (via: seq<NodeId>)
      requires n >= 1
      modifies this`contacts
      ensures (View(), via) == Extract(old(View()), c, n)
    {
      via := [];
      if c !in contacts || !contacts[c].Rediscovering? { return; }
      var rev := contacts[c].revVia;
      var processed;
      processed, via := CollectEligible(rev, n);
      if processed > 0 {
        contacts := contacts[c := contacts[c].(revVia := rev[..|rev| - processed])];
      } else {
        assert rev[..|rev|] == rev;
      }
      assert contacts == old(contacts)[c := old(contacts)[c].(revVia := rev[..|rev| - processed])];
    }

    /** One request per contact asked in parallel; nonces are the unused ones drawn. */
    /** One request for c over a via contact, under an unused nonce. */
    method SendRequest(c: NodeId, via: NodeId, nonce: Nonce)
      requires nextTimer !in inflight.timers && nonce !in inflight.nonces
      modifies this`nextTimer, this`sent, inflight
      ensures View() == Requesting(old(View()), c, via, nonce)
    {
      var timer := RegisterTimer();
      var inserted := inflight.Insert(c, timer, nonce);
      assert inserted == Inserted;
      sent := sent + [Request(c, via, nonce)];
    }

    method SendRediscoveryForContact(c: NodeId, nonces: seq<Nonce>)
      requires TimersDistinct(View()) && |nonces| >= cfg.parallelism >= 1
      requires forall n :: n in nonces ==> n !in inflight.nonces
      requires forall i, j :: 0 <= i < j < |nonces| ==> nonces[i] != nonces[j]
      modifies this, inflight
      ensures View() == SendRediscovery(cfg, old(View()), c, nonces)
    {
      var via := ExtractEligibleViaContacts(c, cfg.parallelism);
      if via == [] {
        var timer := RegisterTimer();
        rate := rate[timer := c];
        return;
      }
      ghost var s := View();
      var k := 0;
      while k < |via|
        invariant k <= |via| <= |nonces|
        invariant View() == RequestingAll(s, c, via[..k], nonces[..k])
      {
        assert nonces[..k + 1][..k] == nonces[..k] && via[..k + 1][..k] == via[..k];
        RequestingAllKeepsTimers(s, c, via[..k], nonces[..k]);
        assert nonces[k] in nonces;
        SendRequest(c, via[k], nonces[k]);
        k := k + 1;
      }
      assert via[..|via|] == via;
    }

    method ScheduleRediscovery(c: NodeId)
      modifies this
      ensures View() == Scheduling(old(View()), c)
    {
      var timer := RegisterTimer();
      scheduled := scheduled[timer := c];
    }

    /** The list must be used up before it is refilled. */
    method SetViaContactList(c: NodeId, vias: seq<NodeId>)
      requires c in contacts && contacts[c].Rediscovering? && contacts[c].revVia == []
      modifies this`contacts
      ensures contacts == old(contacts)[c := Rediscovering(Reversed(vias), old(contacts)[c].retries)]
    {
      contacts := contacts[c := contacts[c].(revVia := Reversed(vias))];
    }

    method StartRediscovery(c: NodeId, vias: seq<NodeId>)
      requires c in contacts && contacts[c].Invalid?
      modifies this
      ensures View() == Scheduling(old(View()).(contacts := old(contacts)[c := Rediscovering(Reversed(vias), 0)]), c)
    {
      contacts := contacts[c := Rediscovering(Reversed(vias), 0)];
      ScheduleRediscovery(c);
    }

    /** The entry of the failed request, or of its rate limit, is already gone. */
    method HandleRediscoveryFailure(c: NodeId, vias: seq<NodeId>, nonce: Nonce)
      requires TimersDistinct(View()) && nonce !in inflight.nonces
      modifies this, inflight
      ensures View() == Retry(cfg, old(View()), c, vias, nonce)
    {
      if c !in contacts { return; }
      var via := ExtractEligibleViaContacts(c, 1);
      if via == [] {
        if contacts[c].Rediscovering? { FinishRound(c, vias); }
        return;
      }
      SendRequest(c, via[0], nonce);
    }

    /** The refill is only reached with the list used up. */
    method FinishRound(c: NodeId, vias: seq<NodeId>)
      requires inflight.View().Inverse() && IsRediscovering(View(), c) && contacts[c].revVia == []
      modifies this, inflight
      ensures View() == RoundOver(cfg, old(View()), c, vias)
    {
      var other := inflight.Exists(c);
      if other || c in rate.Values { return; }
      if contacts[c].retries < cfg.maxRounds {
        contacts := contacts[c := contacts[c].(retries := contacts[c].retries + 1)];
        SetViaContactList(c, vias);
        ScheduleRediscovery(c);
      } else {
        contacts := contacts - {c};
        inflight.RemoveById(c);
      }
    }

    method HandleEvent(ev: Event)
      requires TimersDistinct(View()) && Usable(cfg, View(), ev)
      modifies this, inflight
      ensures View() == Next(cfg, old(View()), ev)
    {
      match ev {
        case Invalidated(c, vias) =>
          if c !in contacts || contacts[c].Rediscovering? || contacts[c].Invalid? { return; }
          var wasValid := contacts[c].Valid?;
          contacts := contacts[c := Invalid];
          if wasValid { StartRediscovery(c, vias); }
        case Learned(c, valid) =>
          if valid {
            contacts := contacts[c := Valid];
          } else if c !in contacts {
            contacts := contacts[c := Unknown];
          }
        case Removed(c) =>
          if c in contacts {
            contacts := contacts - {c};
            inflight.RemoveById(c);
          }
        case Replaced(c) =>
          contacts := contacts - {c};
        case Timer(id, vias, nonces) =>
          HandleTimer(id, vias, nonces);
        case ErrorFor(nonce) =>
          HandleError(nonce);
        case Response(nonce, found) =>
          HandleResponse(nonce, found);
        case Elsewhere(timers) =>
          nextTimer := nextTimer + timers;
      }
    }

    /** An error came back at once: the next request waits for the rate limit. */
    method HandleError(nonce: Nonce)
      requires inflight.View().Inverse()
      modifies this, inflight
      ensures View() == Next(cfg, old(View()), ErrorFor(nonce))
    {
      var removed := inflight.RemoveByNonce(nonce);
      if removed.Some? {
        var timer := RegisterTimer();
        rate := rate[timer := removed.value.node];
      }
    }

    method HandleResponse(nonce: Nonce, found: bool)
      requires inflight.View().Inverse()
      modifies this, inflight
      ensures View() == Next(cfg, old(View()), Response(nonce, found))
    {
      var removed := inflight.RemoveByNonce(nonce);
      if removed.Some? && found { contacts := contacts[removed.value.node := Valid]; }
    }

    method HandleTimer(id: TimerId, vias: seq<NodeId>, nonces: seq<Nonce>)
      requires TimersDistinct(View()) && Usable(cfg, View(), Timer(id, vias, nonces))
      modifies this, inflight
      ensures View() == Next(cfg, old(View()), Timer(id, vias, nonces))
    {
      assert nonces[0] in nonces;
      if id in scheduled {
        DropScheduledEffect(View(), id, scheduled[id]);
        var c := scheduled[id];
        scheduled := scheduled - {id};
        SendRediscoveryForContact(c, nonces);
      } else if id in inflight.timers {
        DropRequestEffect(View(), id, inflight.timers[id].node);
        var removed := inflight.RemoveByTimer(id);
        HandleRediscoveryFailure(removed.value.node, vias, nonces[0]);
      } else if id in rate {
        DropRateEffect(View(), id, rate[id]);
        var c := rate[id];
        rate := rate - {id};
        HandleRediscoveryFailure(c, vias, nonces[0]);
      }
    }
  }
}
