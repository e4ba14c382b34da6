/** The runtime in its own form: a heap of timers changed in place, drained by a loop. */
module TimerRuntime {
  import opened Timers

  datatype Timer = Timer(due: nat, id: TimerId)

  /** The heap order is reversed in the due time, so that its greatest timer is due first. */
  predicate Less(a: Timer, b: Timer) {
    a.due > b.due || (a.due == b.due && a.id < b.id)
  }

  /** Every id is in the heap at most once. */
  ghost predicate DistinctIds(heap: seq<Timer>) {
    forall i, j :: 0 <= i < j < |heap| ==> heap[i].id != heap[j].id
  }

  ghost function Dues(heap: seq<Timer>): map<TimerId, nat>
    requires DistinctIds(heap)
  {
    map t | t in heap :: t.id := t.due
  }

  lemma PushedDues(heap: seq<Timer>, t: Timer)
    requires DistinctIds(heap) && t.id !in Dues(heap)
    ensures DistinctIds(heap + [t]) && Dues(heap + [t]) == Dues(heap)[t.id := t.due]
  {
    forall i | 0 <= i < |heap| ensures heap[i].id != t.id {
      assert heap[i] in heap;
    }
  }

  lemma PoppedTimers(heap: seq<Timer>, i: nat, t: Timer)
    requires DistinctIds(heap) && i < |heap|
    ensures t in heap[..i] + heap[i + 1..] <==> t in heap && t.id != heap[i].id
  {
    var rest := heap[..i] + heap[i + 1..];
    if t in heap && t.id != heap[i].id {
      var j :| 0 <= j < |heap| && heap[j] == t;
      assert if j < i then rest[j] == t else rest[j - 1] == t;
    }
  }

  lemma PoppedDues(heap: seq<Timer>, i: nat)
    requires DistinctIds(heap) && i < |heap|
    ensures var rest := heap[..i] + heap[i + 1..];
            DistinctIds(rest) && Dues(rest) == Dues(heap) - {heap[i].id}
  {
    var rest := heap[..i] + heap[i + 1..];
    assert DistinctIds(rest);
    forall t ensures t in rest <==> t in heap && t.id != heap[i].id {
      PoppedTimers(heap, i, t);
    }
  }

  class R2KadRuntime {
    var counter: nat
    var heap: seq<Timer>
    var periodic: map<TimerId, nat>
    var now: nat

    ghost predicate Valid()
      reads this
    {
      DistinctIds(heap) && View().Valid()
    }

    ghost function View(): Runtime
      requires DistinctIds(heap)
      reads this
    {
      Runtime(counter, Dues(heap), periodic, now)
    }

    constructor (now: nat)
      ensures Valid() && View() == Runtime(0, map[], map[], now)
    {
      counter, heap, periodic, this.now := 0, [], map[], now;
    }

    method RegisterTimerWithId(duration: nat, id: TimerId)
      requires DistinctIds(heap) && id !in Dues(heap)
      modifies this`heap
      ensures DistinctIds(heap) && View() == old(View()).(timers := old(View()).timers[id := now + duration])
    {
      var timer := Timer(now + duration, id);
      PushedDues(heap, timer);
      heap := heap + [timer];
    }

    method RegisterTimer(duration: nat) returns (id: TimerId)
      requires Valid() && duration > 0
      modifies this
      ensures Valid() && View() == Apply(old(View()), Register(duration))
      ensures id == old(counter) && id !in old(Dues(heap)) && id !in old(periodic)
    {
      id := counter;
      RegisterTimerWithId(duration, id);
      counter := counter + 1;
    }

    method RegisterPeriodicTimer(duration: nat) returns (id: TimerId)
      requires Valid() && duration > 0
      modifies this
      ensures Valid() && View() == Apply(old(View()), RegisterPeriodic(duration))
      ensures id == old(counter) && id !in old(Dues(heap)) && id !in old(periodic)
    {
      id := RegisterTimer(duration);
      periodic := periodic[id := duration];
    }

    method RemoveTimer(id: TimerId)
      requires Valid()
      modifies this`heap
      ensures Valid() && View() == Apply(old(View()), Remove(id))
    {
      var i := 0;
      ghost var before := Dues(heap);
      while i < |heap|
        invariant 0 <= i <= |heap| && DistinctIds(heap)
        invariant Dues(heap) - {id} == before - {id}
        invariant forall j :: 0 <= j < i ==> heap[j].id != id
      {
        if heap[i].id == id {
          PoppedDues(heap, i);
          heap := heap[..i] + heap[i + 1..];
        } else {
          i := i + 1;
        }
      }
      assert Dues(heap) == before - {id};
    }

    /** Takes the greatest timer off the heap if it is due, and re-arms a periodic one. */
    method NextTimer() returns (fired: bool, id: TimerId)
      requires Valid()
      modifies this`heap
      ensures Valid()
      ensures fired <==> old(View()).Due() != {}
      ensures fired ==> IsNext(old(View()), id) && View() == Fired(old(View()), id)
      ensures !fired ==> View() == old(View())
    {
      fired, id := false, 0;
      if heap == [] { return; }
      var top, i := 0, 1;
      while i < |heap|
        invariant 0 <= top < i <= |heap|
        invariant forall j :: 0 <= j < i && j != top ==> Less(heap[j], heap[top])
      {
        if Less(heap[top], heap[i]) { top := i; }
        i := i + 1;
      }
      var timer := heap[top];
      ghost var rt := View();
      assert timer in heap && rt.timers[timer.id] == timer.due;
      forall other | other in rt.timers && other != timer.id ensures Before(rt, timer.id, other) {
        var t :| t in heap && t.id == other;
      }
      if timer.due > now { return; }
      assert timer.id in rt.Due();
      PoppedDues(heap, top);
      heap := heap[..top] + heap[top + 1..];
      fired, id := true, timer.id;
      if id in periodic {
        RegisterTimerWithId(periodic[id], id);
      }
    }

    /** What the use cases do on one timer event. */
    method ProcessEvent(ops: seq<Op>)
      requires Valid() && Allowed(ops)
      modifies this
      ensures Valid() && View() == ApplyAll(old(View()), ops)
    {
      var i := 0;
      while i < |ops|
        invariant 0 <= i <= |ops| && Valid() && View() == ApplyAll(old(View()), ops[..i])
      {
        assert ops[..i + 1][..i] == ops[..i] && ops[i] in ops;
        match ops[i] {
          case Register(duration) =>
            var _ := RegisterTimer(duration);
          case RegisterPeriodic(duration) =>
            var _ := RegisterPeriodicTimer(duration);
          case Remove(id) =>
            RemoveTimer(id);
        }
        i := i + 1;
      }
      assert ops[..|ops|] == ops;
    }

    /** One turn of the loop: the next due timer fires and is handled. */
    method HandleNext(ghost start: Runtime, oracle: Oracle, fired: seq<TimerId>)
      returns (due: bool, fired': seq<TimerId>)
      requires Valid() && Handles(oracle) && start.Valid() && DrainsOn(start, View(), oracle, fired)
      modifies this
      ensures Valid() && DrainsOn(start, View(), oracle, fired')
      ensures due ==> |fired'| == |fired| + 1 && View().Due() < old(View().Due())
      ensures !due ==> fired' == fired && (View(), fired) == Drain(start, oracle, 0)
    {
      ghost var rt := View();
      var id;
      due, id := NextTimer();
      if !due {
        assert fired + [] == fired;
        return false, fired;
      }
      ProcessEvent(oracle(|fired|));
      TurnDrainsOn(start, rt, oracle, fired, id);
      fired' := fired + [id];
    }

    /** The timer part of handling a timeout. The first event that leaves a use case in an error state
        ends the loop, with the timers after it still to be drained. */
    method HandleTimeout(time: nat, oracle: Oracle, fails: nat -> bool) returns (ok: bool, fired: seq<TimerId>)
      requires Valid() && Handles(oracle)
      modifies this
      ensures Valid() && DrainsOn(old(View()).(now := time), View(), oracle, fired)
      ensures ok ==> (View(), fired) == Drain(old(View()).(now := time), oracle, 0) && NoneFails(fails, |fired|)
      ensures !ok ==> fired != [] && fails(|fired| - 1) && NoneFails(fails, |fired| - 1)
    {
      now := time;
      fired := [];
      ghost var start := View();
      assert [] + Drain(start, oracle, 0).1 == Drain(start, oracle, 0).1;
      while true
        invariant Valid() && DrainsOn(start, View(), oracle, fired) && NoneFails(fails, |fired|)
        decreases View().Due()
      {
        var due;
        due, fired := HandleNext(start, oracle, fired);
        if !due {
          return true, fired;
        }
        if fails(|fired| - 1) {
          return false, fired;
        }
      }
    }
  }

  predicate NoneFails(fails: nat -> bool, n: nat) {
    forall k :: 0 <= k < n ==> !fails(k)
  }

  /** Draining start comes to having fired the given timers and draining rt. */
  ghost predicate DrainsOn(start: Runtime, rt: Runtime, oracle: Oracle, fired: seq<TimerId>)
    requires start.Valid() && rt.Valid() && Handles(oracle)
  {
    var rest := Drain(rt, oracle, |fired|);
    Drain(start, oracle, 0) == (rest.0, fired + rest.1)
  }

  lemma TurnDrainsOn(start: Runtime, rt: Runtime, oracle: Oracle, fired: seq<TimerId>, id: TimerId)
    requires start.Valid() && rt.Valid() && Handles(oracle)
    requires DrainsOn(start, rt, oracle, fired) && IsNext(rt, id)
    ensures var rt' := ApplyAll(Timers.Fired(rt, id), oracle(|fired|));
            rt'.Valid() && DrainsOn(start, rt', oracle, fired + [id]) && rt'.Due() < rt.Due()
  {
    assert id == NextDue(rt);
    TurnEffect(rt, oracle, |fired|);
    var rest := Drain(Turn(rt, oracle, |fired|), oracle, |fired| + 1);
    assert (fired + [id]) + rest.1 == fired + ([id] + rest.1);
  }
}
