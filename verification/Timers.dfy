/** The timer runtime: one-shot and periodic timers, and the loop that drains the due ones. */
module Timers {

  type TimerId = nat

  /** Due time per timer, period per periodic timer, and the current time. */
  datatype Runtime = Runtime(counter: nat, timers: map<TimerId, nat>, periodic: map<TimerId, nat>, now: nat) {

    /** Ids are below the counter, so the next one is new; periods are positive. */
    ghost predicate Valid() {
      && (forall id :: id in timers || id in periodic ==> id < counter)
      && (forall id :: id in periodic ==> periodic[id] > 0)
    }

    function Due(): set<TimerId> {
      set id | id in timers && timers[id] <= now
    }
  }

  /** What a use case may do while it handles a timer event. */
  datatype Op = Register(duration: nat) | RegisterPeriodic(duration: nat) | Remove(id: TimerId)

  predicate Allowed(ops: seq<Op>) {
    forall op :: op in ops ==> op.Remove? || op.duration > 0
  }

  function Apply(rt: Runtime, op: Op): Runtime {
    match op
    case Register(d) => rt.(counter := rt.counter + 1, timers := rt.timers[rt.counter := rt.now + d])
    case RegisterPeriodic(d) =>
      rt.(counter := rt.counter + 1, timers := rt.timers[rt.counter := rt.now + d],
          periodic := rt.periodic[rt.counter := d])
    case Remove(id) => rt.(timers := rt.timers - {id})
  }

  function ApplyAll(rt: Runtime, ops: seq<Op>): Runtime {
    if ops == [] then rt else Apply(ApplyAll(rt, ops[..|ops| - 1]), ops[|ops| - 1])
  }

  /** The order of firing: earlier first, and of two due at the same time the younger first. */
  predicate Before(rt: Runtime, a: TimerId, b: TimerId) {
    && a in rt.timers && b in rt.timers
    && (rt.timers[a] < rt.timers[b] || (rt.timers[a] == rt.timers[b] && a > b))
  }

  ghost predicate IsNext(rt: Runtime, id: TimerId) {
    id in rt.Due() && forall other :: other in rt.timers && other != id ==> Before(rt, id, other)
  }

  /** The fired timer leaves; a periodic one is registered again under its id, from now on. */
  function Fired(rt: Runtime, id: TimerId): Runtime {
    rt.(timers := if id in rt.periodic then rt.timers[id := rt.now + rt.periodic[id]] else rt.timers - {id})
  }

  // ---------- what handlers can change ----------

  /** Handlers add timers due later, under new ids, and take away what they remove. */
  lemma {:induction false} HandlersOnlyRemove(rt: Runtime, ops: seq<Op>)
    requires rt.Valid() && Allowed(ops)
    ensures var rt' := ApplyAll(rt, ops);
            && rt'.Valid() && rt'.now == rt.now && rt'.counter >= rt.counter
            && (forall id :: id < rt.counter ==> (id in rt'.timers <==> id in rt.timers && Remove(id) !in ops))
            && (forall id :: id < rt.counter && id in rt'.timers ==> rt'.timers[id] == rt.timers[id])
            && (forall id :: id in rt'.timers && id >= rt.counter ==> rt'.timers[id] > rt.now)
            && (forall id :: id < rt.counter ==> (id in rt'.periodic <==> id in rt.periodic))
            && (forall id :: id < rt.counter && id in rt.periodic ==> rt'.periodic[id] == rt.periodic[id])
  {
    if ops != [] {
      HandlersOnlyRemove(rt, ops[..|ops| - 1]);
    }
  }

  /** The number of timers that the operations register. */
  function Made(ops: seq<Op>): nat {
    if ops == [] then 0 else Made(ops[..|ops| - 1]) + if ops[|ops| - 1].Remove? then 0 else 1
  }

  /** Every registration takes the next id. Afterwards the timer is armed exactly if it was not removed since,
      is due the given time from now, and is periodic with that period if it was registered as such. */
  lemma {:induction false} RegisteredIsArmed(rt: Runtime, ops: seq<Op>, k: nat)
    requires rt.Valid() && Allowed(ops) && k < |ops| && !ops[k].Remove?
    ensures var id, rt' := rt.counter + Made(ops[..k]), ApplyAll(rt, ops);
            && id < rt'.counter && (id in rt'.timers <==> Remove(id) !in ops[k + 1..])
            && (id in rt'.timers ==> rt'.timers[id] == rt.now + ops[k].duration)
            && (id in rt'.periodic <==> ops[k].RegisterPeriodic?)
            && (id in rt'.periodic ==> rt'.periodic[id] == ops[k].duration)
    decreases |ops|
  {
    var init := ops[..|ops| - 1];
    HandlersOnlyRemove(rt, init);
    CountersFollow(rt, init);
    if k < |init| {
      RegisteredIsArmed(rt, init, k);
      assert init[..k] == ops[..k] && ops[k + 1..] == init[k + 1..] + [ops[|ops| - 1]];
    } else {
      assert init == ops[..k];
    }
  }

  lemma {:induction false} CountersFollow(rt: Runtime, ops: seq<Op>)
    ensures ApplyAll(rt, ops).counter == rt.counter + Made(ops)
  {
    if ops != [] { CountersFollow(rt, ops[..|ops| - 1]); }
  }

  lemma {:induction false} DueAfterHandler(rt: Runtime, id: TimerId, ops: seq<Op>)
    requires rt.Valid() && Allowed(ops) && id in rt.Due()
    ensures var rt' := ApplyAll(Fired(rt, id), ops);
            && rt'.Valid() && rt'.now == rt.now
            && rt'.Due() == set d | d in rt.Due() && d != id && Remove(d) !in ops
            && (forall d :: d in rt'.Due() ==> d in rt.timers && rt'.timers[d] == rt.timers[d])
  {
    HandlersOnlyRemove(Fired(rt, id), ops);
  }

  // ---------- draining ----------

  lemma {:induction false} LeastExists(rt: Runtime, ids: set<TimerId>) returns (least: TimerId)
    requires ids != {} && ids <= rt.timers.Keys
    ensures least in ids && forall other :: other in ids && other != least ==> Before(rt, least, other)
    decreases |ids|
  {
    var id :| id in ids;
    least := id;
    if ids != {id} {
      var l := LeastExists(rt, ids - {id});
      if Before(rt, l, id) { least := l; }
      assert forall other :: other in ids && other != id ==> other in ids - {id};
    }
  }

  lemma NextExists(rt: Runtime)
    requires rt.Due() != {}
    ensures exists id :: IsNext(rt, id)
  {
    var id := LeastExists(rt, rt.timers.Keys);
    var due :| due in rt.Due();
    assert IsNext(rt, id);
  }

  ghost function NextDue(rt: Runtime): (id: TimerId)
    requires rt.Due() != {}
    ensures IsNext(rt, id)
  {
    NextExists(rt);
    var id :| IsNext(rt, id); id
  }

  /** What the handlers do at the k-th firing; any behaviour of the use cases is some oracle. */
  type Oracle = nat -> seq<Op>

  ghost predicate Handles(oracle: Oracle) {
    forall k :: Allowed(oracle(k))
  }

  /** One turn of the loop. */
  ghost function Turn(rt: Runtime, oracle: Oracle, k: nat): Runtime
    requires rt.Due() != {}
  {
    ApplyAll(Fired(rt, NextDue(rt)), oracle(k))
  }

  lemma TurnEffect(rt: Runtime, oracle: Oracle, k: nat)
    requires rt.Valid() && Handles(oracle) && rt.Due() != {}
    ensures var first, rt1 := NextDue(rt), Turn(rt, oracle, k);
            && rt1.Valid() && rt1.now == rt.now && rt1.counter >= rt.counter && rt1.Due() < rt.Due()
            && rt1.Due() == (set d | d in rt.Due() && d != first && Remove(d) !in oracle(k))
            && (forall d :: d in rt1.Due() ==> d in rt.timers && rt1.timers[d] == rt.timers[d])
  {
    DueAfterHandler(rt, NextDue(rt), oracle(k));
    HandlersOnlyRemove(Fired(rt, NextDue(rt)), oracle(k));
  }

  lemma TurnLeaves(rt: Runtime, oracle: Oracle, k: nat, id: TimerId)
    requires rt.Valid() && Handles(oracle) && rt.Due() != {} && id < rt.counter
    ensures var first, rt1 := NextDue(rt), Turn(rt, oracle, k);
            && (id in rt1.timers <==> (id in rt.timers && (id == first ==> id in rt.periodic)
                && Remove(id) !in oracle(k)))
            && (id in rt1.timers ==> rt1.timers[id] == if id == first then rt.now + rt.periodic[id] else rt.timers[id])
            && (id in rt1.periodic <==> id in rt.periodic)
            && (id in rt.periodic ==> rt1.periodic[id] == rt.periodic[id])
  {
    HandlersOnlyRemove(Fired(rt, NextDue(rt)), oracle(k));
  }

  /** The loop, and the timers in the order they fired. It ends because only due timers fire
      and no handler can make another one due. */
  ghost function Drain(rt: Runtime, oracle: Oracle, k: nat): (Runtime, seq<TimerId>)
    requires rt.Valid() && Handles(oracle)
    decreases rt.Due()
  {
    if rt.Due() == {} then (rt, [])
    else
      TurnEffect(rt, oracle, k);
      var rest := Drain(Turn(rt, oracle, k), oracle, k + 1);
      (rest.0, [NextDue(rt)] + rest.1)
  }

  /** In firing order, which is without repetition. */
  predicate InOrder(rt: Runtime, fired: seq<TimerId>) {
    && (forall id :: id in fired ==> id in rt.Due())
    && (forall i, j :: 0 <= i < j < |fired| ==> Before(rt, fired[i], fired[j]))
  }

  lemma OrderGrows(rt: Runtime, rt1: Runtime, first: TimerId, rest: seq<TimerId>)
    requires IsNext(rt, first) && InOrder(rt1, rest) && first !in rt1.Due() && rt1.Due() <= rt.Due()
    requires forall d :: d in rt1.Due() ==> d in rt.timers && rt1.timers[d] == rt.timers[d]
    ensures InOrder(rt, [first] + rest)
  {
    var fired := [first] + rest;
    forall i, j | 0 <= i < j < |fired| ensures Before(rt, fired[i], fired[j]) {
      assert fired[j] == rest[j - 1] && rest[j - 1] in rt1.Due();
      if i > 0 { assert Before(rt1, rest[i - 1], rest[j - 1]) && rest[i - 1] in rt1.Due(); }
    }
  }

  /** Afterwards nothing is due; what fired was due, each at most once, in firing order. */
  lemma {:induction false} DrainEmptiesInOrder(rt: Runtime, oracle: Oracle, k: nat)
    requires rt.Valid() && Handles(oracle)
    ensures var d := Drain(rt, oracle, k);
            && d.0.Valid() && d.0.now == rt.now && d.0.Due() == {} && d.0.counter >= rt.counter
            && InOrder(rt, d.1)
    decreases rt.Due()
  {
    if rt.Due() != {} {
      var rt1 := Turn(rt, oracle, k);
      TurnEffect(rt, oracle, k);
      DrainEmptiesInOrder(rt1, oracle, k + 1);
      OrderGrows(rt, rt1, NextDue(rt), Drain(rt1, oracle, k + 1).1);
    }
  }

  /** The timer fired before the handler of turn i ran, or is the one it ran for. */
  predicate FiredBy(fired: seq<TimerId>, k: nat, i: nat, id: TimerId) {
    k <= i < k + |fired| && id in fired[..i - k + 1]
  }

  /** A handler removed the timer before it was its turn. */
  ghost predicate RemovedInTime(oracle: Oracle, k: nat, fired: seq<TimerId>, id: TimerId) {
    exists i :: k <= i < k + |fired| && Remove(id) in oracle(i) && !FiredBy(fired, k, i, id)
  }

  /** A handler removed the timer at or after its turn. */
  ghost predicate RemovedLate(oracle: Oracle, k: nat, fired: seq<TimerId>, id: TimerId) {
    exists i :: k <= i < k + |fired| && Remove(id) in oracle(i) && FiredBy(fired, k, i, id)
  }

  lemma FiredByLater(k: nat, first: TimerId, rest: seq<TimerId>, i: nat, id: TimerId)
    requires k <= i < k + 1 + |rest|
    ensures FiredBy([first] + rest, k, i, id) <==> id == first || FiredBy(rest, k + 1, i, id)
  {
    assert ([first] + rest)[..i - k + 1] == [first] + rest[..i - k];
  }

  lemma RemovalsLater(oracle: Oracle, k: nat, first: TimerId, rest: seq<TimerId>, id: TimerId)
    requires id != first
    ensures RemovedInTime(oracle, k, [first] + rest, id) <==>
              Remove(id) in oracle(k) || RemovedInTime(oracle, k + 1, rest, id)
    ensures RemovedLate(oracle, k, [first] + rest, id) <==> RemovedLate(oracle, k + 1, rest, id)
  {
    forall i | k <= i < k + 1 + |rest| ensures FiredBy([first] + rest, k, i, id) <==> FiredBy(rest, k + 1, i, id) {
      FiredByLater(k, first, rest, i, id);
    }
    assert !FiredBy(rest, k + 1, k, id);
  }

  lemma RemovalsOfFirst(oracle: Oracle, k: nat, first: TimerId, rest: seq<TimerId>)
    ensures !RemovedInTime(oracle, k, [first] + rest, first)
    ensures RemovedLate(oracle, k, [first] + rest, first) <==> !Spared(oracle, k, |rest| + 1, first)
  {
    forall i | k <= i < k + 1 + |rest| ensures FiredBy([first] + rest, k, i, first) {
      FiredByLater(k, first, rest, i, first);
    }
  }

  /** The timers that fire are the due ones that no handler removed before their turn. */
  lemma {:induction false} FiresUnlessRemoved(rt: Runtime, oracle: Oracle, k: nat, id: TimerId)
    requires rt.Valid() && Handles(oracle) && id in rt.Due()
    ensures id in Drain(rt, oracle, k).1 <==> !RemovedInTime(oracle, k, Drain(rt, oracle, k).1, id)
    decreases rt.Due()
  {
    var first, rt1 := NextDue(rt), Turn(rt, oracle, k);
    TurnEffect(rt, oracle, k);
    var rest := Drain(rt1, oracle, k + 1).1;
    if id == first {
      RemovalsOfFirst(oracle, k, first, rest);
    } else {
      RemovalsLater(oracle, k, first, rest, id);
      if Remove(id) in oracle(k) {
        DrainEmptiesInOrder(rt1, oracle, k + 1);
      } else {
        FiresUnlessRemoved(rt1, oracle, k + 1, id);
      }
    }
  }

  /** A timer gone and not due does not come back; ids registered meanwhile are new. */
  lemma {:induction false} GoneStaysGone(rt: Runtime, oracle: Oracle, k: nat, id: TimerId)
    requires rt.Valid() && Handles(oracle) && id < rt.counter && id !in rt.timers
    ensures id !in Drain(rt, oracle, k).0.timers
    decreases rt.Due()
  {
    if rt.Due() != {} {
      TurnEffect(rt, oracle, k);
      TurnLeaves(rt, oracle, k, id);
      GoneStaysGone(Turn(rt, oracle, k), oracle, k + 1, id);
    }
  }

  /** No handler from turn k on, for n turns, removes the timer. */
  ghost predicate Spared(oracle: Oracle, k: nat, n: nat, id: TimerId) {
    forall i :: k <= i < k + n ==> Remove(id) !in oracle(i)
  }

  lemma {:induction false} SparedFirst(oracle: Oracle, k: nat, n: nat, id: TimerId)
    ensures Spared(oracle, k, n + 1, id) <==> Remove(id) !in oracle(k) && Spared(oracle, k + 1, n, id)
  {
  }

  ghost predicate Stays(rt: Runtime, rt': Runtime, id: TimerId, spared: bool)
    requires id in rt.timers
  {
    (id in rt'.timers <==> spared) && (id in rt'.timers ==> rt'.timers[id] == rt.timers[id])
  }

  /** A timer that is not due stays, as it is, exactly when no handler removes it. */
  lemma {:induction false} StaysUnlessRemoved(rt: Runtime, oracle: Oracle, k: nat, id: TimerId)
    requires rt.Valid() && Handles(oracle) && id in rt.timers && id !in rt.Due()
    ensures Stays(rt, Drain(rt, oracle, k).0, id, Spared(oracle, k, |Drain(rt, oracle, k).1|, id))
    decreases rt.Due()
  {
    if rt.Due() != {} {
      var rt1 := Turn(rt, oracle, k);
      TurnEffect(rt, oracle, k);
      TurnLeaves(rt, oracle, k, id);
      SparedFirst(oracle, k, |Drain(rt1, oracle, k + 1).1|, id);
      if id in rt1.timers {
        StaysUnlessRemoved(rt1, oracle, k + 1, id);
      } else {
        GoneStaysGone(rt1, oracle, k + 1, id);
      }
    }
  }

  ghost predicate Rearmed(rt: Runtime, rt': Runtime, id: TimerId, removed: bool) {
    && (id in rt'.timers <==> id in rt.periodic && !removed)
    && (id in rt'.timers ==> id in rt.periodic && rt'.timers[id] == rt.now + rt.periodic[id])
  }

  lemma {:induction false} FirstRearmsUnlessRemoved(rt: Runtime, oracle: Oracle, k: nat)
    requires rt.Valid() && Handles(oracle) && rt.Due() != {}
    ensures Rearmed(rt, Drain(rt, oracle, k).0, NextDue(rt),
            RemovedLate(oracle, k, Drain(rt, oracle, k).1, NextDue(rt)))
  {
    var first, rt1 := NextDue(rt), Turn(rt, oracle, k);
    TurnEffect(rt, oracle, k);
    TurnLeaves(rt, oracle, k, first);
    RemovalsOfFirst(oracle, k, first, Drain(rt1, oracle, k + 1).1);
    SparedFirst(oracle, k, |Drain(rt1, oracle, k + 1).1|, first);
    if first in rt1.timers {
      StaysUnlessRemoved(rt1, oracle, k + 1, first);
    } else {
      GoneStaysGone(rt1, oracle, k + 1, first);
    }
  }

  /** A timer that fires is armed again exactly when it is periodic and neither its own handler
      nor a later one removes it, and then for one period from now, however many periods
      were missed. */
  lemma {:induction false} RearmsUnlessRemoved(rt: Runtime, oracle: Oracle, k: nat, id: TimerId)
    requires rt.Valid() && Handles(oracle) && id in rt.Due() && id in Drain(rt, oracle, k).1
    ensures Rearmed(rt, Drain(rt, oracle, k).0, id, RemovedLate(oracle, k, Drain(rt, oracle, k).1, id))
    decreases rt.Due()
  {
    var first, rt1 := NextDue(rt), Turn(rt, oracle, k);
    if id == first {
      FirstRearmsUnlessRemoved(rt, oracle, k);
    } else {
      TurnEffect(rt, oracle, k);
      TurnLeaves(rt, oracle, k, id);
      DrainEmptiesInOrder(rt1, oracle, k + 1);
      RemovalsLater(oracle, k, first, Drain(rt1, oracle, k + 1).1, id);
      RearmsUnlessRemoved(rt1, oracle, k + 1, id);
    }
  }
}
