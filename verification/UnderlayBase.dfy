/** What is known about underlay neighbours: three maps that stay consistent while interfaces
    come up and go down, and a 32-bit connection id allocator per interface. */
module UnderlayBase {

  type InterfaceId = nat
  type ConnectionId = nat

  const CIDS: nat := 0x1_0000_0000   // connection ids are 32-bit words

  datatype Interface = Interface(id: InterfaceId, addresses: seq<nat>)
  datatype Neighbor = Neighbor(interfaceId: InterfaceId, address: seq<nat>)
  datatype NeighborId = NeighborId(interfaceId: InterfaceId, connection: ConnectionId)

  datatype InterfaceState = InterfaceState(interface: Interface, nextCid: ConnectionId, live: set<ConnectionId>) {
    function NeighborIds(): set<NeighborId> {
      set c | c in live :: NeighborId(interface.id, c)
    }
  }

  datatype Base = Base(
    neighbors: map<NeighborId, Neighbor>,
    ids: map<Neighbor, NeighborId>,
    interfaces: map<InterfaceId, InterfaceState>)

  /** Neighbours and their ids are inverse to each other; the ids in use on an interface that
      is up are exactly its live connections, and none is in use on any other interface. */
  ghost predicate Consistent(b: Base) {
    && (forall u :: u in b.neighbors ==> b.neighbors[u] in b.ids && b.ids[b.neighbors[u]] == u
                                         && b.neighbors[u].interfaceId == u.interfaceId)
    && (forall n :: n in b.ids ==> b.ids[n] in b.neighbors && b.neighbors[b.ids[n]] == n)
    && (forall u :: u in b.neighbors ==>
          u.interfaceId in b.interfaces && u.connection in b.interfaces[u.interfaceId].live)
    && (forall i, c :: i in b.interfaces && c in b.interfaces[i].live ==> NeighborId(i, c) in b.neighbors)
    && (forall i :: i in b.interfaces ==> b.interfaces[i].interface.id == i)
  }

  /** The id after cid: it wraps around to 1. */
  function NextCid(cid: ConnectionId): ConnectionId {
    if cid + 1 < CIDS then cid + 1 else 1
  }

  datatype Registered =
    | Known(id: NeighborId)
    | New(id: NeighborId)
    | InterfaceDown(interfaceId: InterfaceId)
    | Collision

  function RegisterResult(b: Base, n: Neighbor): Registered {
    if n in b.ids then Known(b.ids[n])
    else if n.interfaceId !in b.interfaces then InterfaceDown(n.interfaceId)
    else
      var id := NeighborId(n.interfaceId, b.interfaces[n.interfaceId].nextCid);
      if id in b.neighbors then Collision else New(id)
  }

  function Register(b: Base, n: Neighbor): Base {
    match RegisterResult(b, n)
    case New(id) =>
      var st := b.interfaces[n.interfaceId];
      Base(b.neighbors[id := n], b.ids[n := id],
           b.interfaces[n.interfaceId := InterfaceState(st.interface, NextCid(st.nextCid), st.live + {st.nextCid})])
    case _ => b
  }

  function Unregister(b: Base, u: NeighborId): Base {
    if u in b.neighbors && u.interfaceId in b.interfaces then
      var st := b.interfaces[u.interfaceId];
      Base(b.neighbors - {u}, b.ids - {b.neighbors[u]},
          b.interfaces[u.interfaceId := st.(live := st.live - {u.connection})])
    else b
  }

  function Down(b: Base, i: InterfaceId): Base {
    if i in b.interfaces then
      Base(map u | u in b.neighbors && u.interfaceId != i :: b.neighbors[u],
           map n | n in b.ids && n.interfaceId != i :: b.ids[n],
           b.interfaces - {i})
    else b
  }

  function Up(b: Base, interface: Interface): Base {
    var i := interface.id;
    if i in b.interfaces then b.(interfaces := b.interfaces[i := b.interfaces[i].(interface := interface)])
    else b.(interfaces := b.interfaces[i := InterfaceState(interface, 0, {})])
  }

  datatype Event = Registering(neighbor: Neighbor) | Unregistering(id: NeighborId)
                 | GoingUp(interface: Interface) | GoingDown(interfaceId: InterfaceId)

  function Next(b: Base, ev: Event): Base {
    match ev
    case Registering(n) => Register(b, n)
    case Unregistering(u) => Unregister(b, u)
    case GoingUp(interface) => Up(b, interface)
    case GoingDown(i) => Down(b, i)
  }

  lemma RegisterStaysConsistent(b: Base, n: Neighbor)
    requires Consistent(b)
    ensures Consistent(Register(b, n))
  {
  }

  lemma UnregisterStaysConsistent(b: Base, u: NeighborId)
    requires Consistent(b)
    ensures Consistent(Unregister(b, u))
  {
  }

  /** Whatever registers, leaves, comes up or goes down, the three maps agree. */
  lemma StaysConsistent(b: Base, ev: Event)
    requires Consistent(b)
    ensures Consistent(Next(b, ev))
  {
    match ev
    case Registering(n) => RegisterStaysConsistent(b, n);
    case Unregistering(u) => UnregisterStaysConsistent(b, u);
    case _ =>
  }

  /** Exactly the neighbours of the interface go with it, and exactly they are reported. */
  lemma DownRemovesExactly(b: Base, i: InterfaceId)
    requires Consistent(b) && i in b.interfaces
    ensures b.interfaces[i].NeighborIds() == set u | u in b.neighbors && u.interfaceId == i
    ensures Down(b, i).neighbors == b.neighbors - b.interfaces[i].NeighborIds()
  {
  }

  /** A neighbour that is known gets the id it is filed under; one that is not gets an id nobody has, on its
      own interface, if that is up. */
  lemma RegistersExactlyWhen(b: Base, n: Neighbor, u: NeighborId)
    requires Consistent(b)
    ensures RegisterResult(b, n) == Known(u) <==> u in b.neighbors && b.neighbors[u] == n
    ensures RegisterResult(b, n).Known? ==> Register(b, n) == b
    ensures RegisterResult(b, n) == New(u) ==>
              && u !in b.neighbors && n.interfaceId in b.interfaces && u.interfaceId == n.interfaceId
              && Register(b, n).neighbors == b.neighbors[u := n] && RegisterResult(Register(b, n), n) == Known(u)
    ensures RegisterResult(b, n).InterfaceDown? <==> n !in b.neighbors.Values && n.interfaceId !in b.interfaces
  {
    if n in b.ids { assert b.neighbors[b.ids[n]] == n; }
  }

  // ---------- the id allocator ----------

  /** The registrations on each interface since it came up. */
  type Counts = map<InterfaceId, nat>

  function Counting(b: Base, counts: Counts, ev: Event): Counts {
    match ev
    case Registering(n) =>
      if RegisterResult(b, n).New? && n.interfaceId in counts then counts[n.interfaceId := counts[n.interfaceId] + 1]
          else counts
    case Unregistering(_) => counts
    case GoingUp(interface) => if interface.id in b.interfaces then counts else counts[interface.id := 0]
    case GoingDown(i) => counts - {i}
  }

  /** The connection id given to the registration with this number, counted from 0. */
  function CidOf(number: nat): ConnectionId {
    if number < CIDS then number else 1 + Wrapped(number - CIDS)
  }

  function Wrapped(over: nat): (r: nat)
    ensures r < CIDS - 1
  {
    over % (CIDS - 1)
  }

  lemma WrappedNext(over: nat)
    ensures Wrapped(over + 1) == if Wrapped(over) + 1 < CIDS - 1 then Wrapped(over) + 1 else 0
  {
  }

  lemma CidsFollow(number: nat)
    ensures CidOf(number + 1) == NextCid(CidOf(number))
  {
    if number + 1 < CIDS {
    } else if number + 1 == CIDS {
      assert Wrapped(0) == 0;
    } else {
      WrappedNext(number - CIDS);
    }
  }

  ghost predicate Counted(b: Base, counts: Counts) {
    && counts.Keys == b.interfaces.Keys
    && (forall i :: i in b.interfaces ==> AllocatorOk(b.interfaces[i], counts[i]))
  }

  ghost predicate AllocatorOk(st: InterfaceState, count: nat) {
    && st.nextCid == CidOf(count)
    && (forall c :: c in st.live ==> c < CIDS && (c < count || count >= CIDS))
  }

  lemma StaysCounted(b: Base, counts: Counts, ev: Event)
    requires Counted(b, counts)
    ensures Counted(Next(b, ev), Counting(b, counts, ev))
  {
    if ev.Registering? && RegisterResult(b, ev.neighbor).New? {
      CidsFollow(counts[ev.neighbor.interfaceId]);
    }
  }

  /** Registration fails exactly when the next id of the interface is still in use. */
  lemma CollidesExactlyWhen(b: Base, n: Neighbor)
    requires Consistent(b)
    ensures RegisterResult(b, n) == Collision
       <==> n !in b.ids && n.interfaceId in b.interfaces
            && b.interfaces[n.interfaceId].nextCid in b.interfaces[n.interfaceId].live
  {
  }

  /** It cannot happen to the first 2^32 registrations since the interface came up. */
  lemma NoCollisionBeforeWrap(b: Base, counts: Counts, n: Neighbor)
    requires Consistent(b) && Counted(b, counts) && n.interfaceId in b.interfaces && counts[n.interfaceId] < CIDS
    ensures RegisterResult(b, n) != Collision
  {
    assert AllocatorOk(b.interfaces[n.interfaceId], counts[n.interfaceId]);
  }

  /** The very next one gets id 1 and fails exactly when the second neighbour ever registered
      on the interface, or a later one under its id, never left. */
  lemma FirstCollisionExactlyWhen(b: Base, counts: Counts, n: Neighbor)
    requires Consistent(b) && Counted(b, counts) && n !in b.ids
    requires n.interfaceId in b.interfaces && counts[n.interfaceId] == CIDS
    ensures RegisterResult(b, n) == Collision <==> NeighborId(n.interfaceId, 1) in b.neighbors
  {
    assert AllocatorOk(b.interfaces[n.interfaceId], counts[n.interfaceId]);
    assert CidOf(CIDS) == 1;
  }

  // ---------- whole runs ----------

  const Empty := Base(map[], map[], map[])

  function After(evs: seq<Event>): (Base, Counts) {
    if evs == [] then (Empty, map[])
    else
      var (b, counts) := After(evs[..|evs| - 1]);
      (Next(b, evs[|evs| - 1]), Counting(b, counts, evs[|evs| - 1]))
  }

  lemma {:induction false} EveryRunIsConsistent(evs: seq<Event>)
    ensures Consistent(After(evs).0) && Counted(After(evs).0, After(evs).1)
  {
    if evs != [] {
      EveryRunIsConsistent(evs[..|evs| - 1]);
      var (b, counts) := After(evs[..|evs| - 1]);
      StaysConsistent(b, evs[|evs| - 1]);
      StaysCounted(b, counts, evs[|evs| - 1]);
    }
  }


  predicate Drops(ev: Event, u: NeighborId) {
    ev == Unregistering(u) || ev == GoingDown(u.interfaceId)
  }

  lemma KeepsNeighbor(b: Base, ev: Event, u: NeighborId)
    requires Consistent(b) && u in b.neighbors && !Drops(ev, u)
    ensures u in Next(b, ev).neighbors && Next(b, ev).neighbors[u] == b.neighbors[u]
  {
  }

  /** In every run an id stands for the neighbour it was given to until that neighbour is unregistered or its
      interface goes down: registering it again returns the same id, and nobody else gets it. */
  lemma {:induction false} IdIsStable(evs: seq<Event>, k: nat, u: NeighborId, other: Neighbor)
    requires k <= |evs| && u in After(evs[..k]).0.neighbors
    requires forall i :: k <= i < |evs| ==> !Drops(evs[i], u)
    ensures var n, b := After(evs[..k]).0.neighbors[u], After(evs).0;
            && u in b.neighbors && b.neighbors[u] == n && RegisterResult(b, n) == Known(u)
            && (other != n ==> RegisterResult(b, other) != Known(u) && RegisterResult(b, other) != New(u))
    decreases |evs|
  {
    EveryRunIsConsistent(evs);
    if k == |evs| {
      assert evs[..k] == evs;
    } else {
      var init := evs[..|evs| - 1];
      assert init[..k] == evs[..k];
      IdIsStable(init, k, u, other);
      EveryRunIsConsistent(init);
      KeepsNeighbor(After(init).0, evs[|evs| - 1], u);
    }
    RegistersExactlyWhen(After(evs).0, After(evs).0.neighbors[u], u);
    RegistersExactlyWhen(After(evs).0, other, u);
  }

  lemma {:induction false} AfterOneMore(evs: seq<Event>, ev: Event)
    ensures After(evs + [ev]) == (Next(After(evs).0, ev), Counting(After(evs).0, After(evs).1, ev))
  {
    assert (evs + [ev])[..|evs|] == evs;
  }

  /** A neighbour registers second and stays, while another one comes and goes until there were k
      registrations on the interface. */
  function OneStays(interface: Interface, stays: Neighbor, visits: Neighbor, k: nat): seq<Event>
    requires k >= 2
  {
    if k == 2 then
      [GoingUp(interface)] + [Registering(visits)] + [Unregistering(NeighborId(interface.id, 0))] + [Registering(stays)]
    else
      OneStays(interface, stays, visits, k - 1)
      + [Registering(visits)] + [Unregistering(NeighborId(interface.id, k - 1))]
  }

  function OnlyOne(interface: Interface, stays: Neighbor, k: nat): Base {
    var id := NeighborId(interface.id, 1);
    Base(map[id := stays], map[stays := id], map[interface.id := InterfaceState(interface, CidOf(k), {1})])
  }

  lemma VisitPasses(interface: Interface, stays: Neighbor, visits: Neighbor, k: nat)
    requires 2 <= k < CIDS && stays != visits && stays.interfaceId == visits.interfaceId == interface.id
    ensures var b := OnlyOne(interface, stays, k);
            && RegisterResult(b, visits) == New(NeighborId(interface.id, k))
            && Unregister(Register(b, visits), NeighborId(interface.id, k)) == OnlyOne(interface, stays, k + 1)
  {
    CidsFollow(k);
    var id, visit := NeighborId(interface.id, 1), NeighborId(interface.id, k);
    var b := OnlyOne(interface, stays, k);
    var registered := Register(b, visits);
    var st := registered.interfaces[interface.id];
    assert st.nextCid == CidOf(k + 1) && st.live == {1} + {k};
    assert st.(live := st.live - {k}) == InterfaceState(interface, CidOf(k + 1), {1});
    var left := Unregister(registered, visit);
    assert left.neighbors == map[id := stays];
    assert left.ids == map[stays := id];
    assert left.interfaces == OnlyOne(interface, stays, k + 1).interfaces;
  }

  lemma {:induction false} StartOfRun(interface: Interface, stays: Neighbor, visits: Neighbor)
    requires stays != visits && stays.interfaceId == visits.interfaceId == interface.id
    ensures After(OneStays(interface, stays, visits, 2)) == (OnlyOne(interface, stays, 2), map[interface.id := 2])
  {
    var i := interface.id;
    var up := [GoingUp(interface)];
    assert up == [] + up;
    AfterOneMore([], GoingUp(interface));
    assert After(up) == (Base(map[], map[], map[i := InterfaceState(interface, 0, {})]), map[i := 0]);
    AfterOneMore(up, Registering(visits));
    var first := up + [Registering(visits)];
    var id := NeighborId(i, 0);
    FirstVisit(interface, visits);
    AfterOneMore(first, Unregistering(id));
    var second := first + [Unregistering(id)];
    AfterOneMore(second, Registering(stays));
    SecondStays(interface, stays);
    var counts: Counts := map[i := 0];
    assert counts[i := 1] == map[i := 1] && counts[i := 1][i := 2] == map[i := 2];
  }

  lemma FirstVisit(interface: Interface, visits: Neighbor)
    requires visits.interfaceId == interface.id
    ensures var b := Base(map[], map[], map[interface.id := InterfaceState(interface, 0, {})]);
            && RegisterResult(b, visits).New?
            && Unregister(Register(b, visits), NeighborId(interface.id, 0))
            == Base(map[], map[], map[interface.id := InterfaceState(interface, 1, {})])
  {
    var b := Base(map[], map[], map[interface.id := InterfaceState(interface, 0, {})]);
    var registered := Register(b, visits);
    assert registered.interfaces[interface.id] == InterfaceState(interface, 1, {0});
    var left := Unregister(registered, NeighborId(interface.id, 0));
    assert left.neighbors == map[] && left.ids == map[];
    assert left.interfaces == map[interface.id := InterfaceState(interface, 1, {})];
  }

  lemma SecondStays(interface: Interface, stays: Neighbor)
    requires stays.interfaceId == interface.id
    ensures var b := Base(map[], map[], map[interface.id := InterfaceState(interface, 1, {})]);
            RegisterResult(b, stays).New? && Register(b, stays) == OnlyOne(interface, stays, 2)
  {
    var b := Base(map[], map[], map[interface.id := InterfaceState(interface, 1, {})]);
    var registered := Register(b, stays);
    assert registered.interfaces[interface.id] == InterfaceState(interface, 2, {1});
    assert registered.interfaces == OnlyOne(interface, stays, 2).interfaces;
  }

  lemma {:induction false} OneMoreVisit(evs: seq<Event>, interface: Interface, stays: Neighbor, visits: Neighbor,
                                        k: nat)
    requires 2 <= k < CIDS && stays != visits && stays.interfaceId == visits.interfaceId == interface.id
    requires After(evs) == (OnlyOne(interface, stays, k), map[interface.id := k])
    ensures After(evs + [Registering(visits)] + [Unregistering(NeighborId(interface.id, k))])
         == (OnlyOne(interface, stays, k + 1), map[interface.id := k + 1])
  {
    VisitPasses(interface, stays, visits, k);
    AfterOneMore(evs, Registering(visits));
    AfterOneMore(evs + [Registering(visits)], Unregistering(NeighborId(interface.id, k)));
    var counts: Counts := map[interface.id := k];
    assert counts[interface.id := k + 1] == map[interface.id := k + 1];
  }

  lemma {:induction false} OneStaysRun(interface: Interface, stays: Neighbor, visits: Neighbor, k: nat)
    returns (evs: seq<Event>)
    requires 2 <= k <= CIDS && stays != visits && stays.interfaceId == visits.interfaceId == interface.id
    ensures evs == OneStays(interface, stays, visits, k)
    ensures After(evs) == (OnlyOne(interface, stays, k), map[interface.id := k])
  {
    if k == 2 {
      StartOfRun(interface, stays, visits);
      evs := OneStays(interface, stays, visits, 2);
    } else {
      var before := OneStaysRun(interface, stays, visits, k - 1);
      OneMoreVisit(before, interface, stays, visits, k - 1);
      evs := before + [Registering(visits)] + [Unregistering(NeighborId(interface.id, k - 1))];
    }
  }

  /** So the assertion is reached: two neighbours suffice, one of which stays. */
  lemma {:induction false} CollisionHappens(interface: Interface, stays: Neighbor, visits: Neighbor)
    requires stays != visits && stays.interfaceId == visits.interfaceId == interface.id
    ensures RegisterResult(After(OneStays(interface, stays, visits, CIDS)).0, visits) == Collision
  {
    var evs := OneStaysRun(interface, stays, visits, CIDS);
    EveryRunIsConsistent(evs);
    FirstCollisionExactlyWhen(After(evs).0, map[interface.id := CIDS], visits);
  }

  // ---------- in place ----------

  ghost function IdsWithout(b: Base, gone: set<NeighborId>): map<Neighbor, NeighborId> {
    map n | n in b.ids && b.ids[n] !in gone :: b.ids[n]
  }

  lemma OneMoreGone(b: Base, gone: set<NeighborId>, u: NeighborId)
    requires Consistent(b) && u in b.neighbors && u !in gone
    ensures var n := b.neighbors[u];
            && n in IdsWithout(b, gone) && IdsWithout(b, gone)[n] == u
            && IdsWithout(b, gone + {u}) == IdsWithout(b, gone) - {n}
  {
  }

  lemma AllGone(b: Base, i: InterfaceId)
    requires Consistent(b) && i in b.interfaces
    ensures IdsWithout(b, b.interfaces[i].NeighborIds()) == Down(b, i).ids
  {
  }

  class UnderlayInformationBase {
    var neighbors: map<NeighborId, Neighbor>
    var neighborIds: map<Neighbor, NeighborId>
    var interfaces: map<InterfaceId, InterfaceState>

    ghost function View(): Base
      reads this
    {
      Base(neighbors, neighborIds, interfaces)
    }

    constructor ()
      ensures View() == Empty
    {
      neighbors, neighborIds, interfaces := map[], map[], map[];
    }

    /** The interface of a known neighbour is up. */
    method GetInformation(u: NeighborId) returns (known: bool, neighbor: Neighbor, interface: Interface)
      requires Consistent(View())
      ensures known <==> u in neighbors
      ensures known ==> neighbor == neighbors[u] && u.interfaceId in interfaces
                        && interface == interfaces[u.interfaceId].interface && interface.id == u.interfaceId
    {
      known, neighbor, interface := false, Neighbor(0, []), Interface(0, []);
      if u !in neighbors { return; }
      known, neighbor := true, neighbors[u];
      interface := interfaces[neighbor.interfaceId].interface;
    }

    /** Only the first of the three assertions can fail. */
    method RegisterNeighbor(n: Neighbor) returns (r: Registered)
      requires Consistent(View())
      modifies this
      ensures r == RegisterResult(old(View()), n) && View() == Register(old(View()), n)
    {
      if n in neighborIds { return Known(neighborIds[n]); }
      if n.interfaceId !in interfaces { return InterfaceDown(n.interfaceId); }
      var st := interfaces[n.interfaceId];
      var u := NeighborId(n.interfaceId, st.nextCid);
      if u in neighbors { return Collision; }
      neighbors := neighbors[u := n];
      assert n !in neighborIds;
      neighborIds := neighborIds[n := u];
      assert st.nextCid !in st.live;
      interfaces := interfaces[n.interfaceId := InterfaceState(st.interface, NextCid(st.nextCid),
          st.live + {st.nextCid})];
      r := New(u);
    }

    method UnregisterNeighbor(u: NeighborId) returns (found: bool)
      requires Consistent(View())
      modifies this
      ensures found == (u in old(neighbors)) && View() == Unregister(old(View()), u)
    {
      if u !in neighbors { return false; }
      var n := neighbors[u];
      neighbors := neighbors - {u};
      assert n in neighborIds && neighborIds[n] == u;
      neighborIds := neighborIds - {n};
      var st := interfaces[u.interfaceId];
      assert u.connection in st.live;
      interfaces := interfaces[u.interfaceId := st.(live := st.live - {u.connection})];
      found := true;
    }

    /** No neighbour of the interface is missing, so the loop is never left early. */
    method InterfaceGoesDown(i: InterfaceId) returns (wasUp: bool, gone: set<NeighborId>)
      requires Consistent(View())
      modifies this
      ensures wasUp == (i in old(interfaces)) && View() == Down(old(View()), i)
      ensures gone == if wasUp then old(interfaces)[i].NeighborIds() else {}
    {
      if i !in interfaces { return false, {}; }
      ghost var b := View();
      var st := interfaces[i];
      interfaces := interfaces - {i};
      gone := st.NeighborIds();
      DownRemovesExactly(b, i);
      var rest := gone;
      assert IdsWithout(b, gone - rest) == neighborIds;
      while rest != {}
        invariant rest <= gone && interfaces == b.interfaces - {i}
        invariant neighbors == b.neighbors - (gone - rest)
        invariant neighborIds == IdsWithout(b, gone - rest)
      {
        var u :| u in rest;
        assert u in neighbors;
        OneMoreGone(b, gone - rest, u);
        assert gone - rest + {u} == gone - (rest - {u});
        var n := neighbors[u];
        neighbors := neighbors - {u};
        assert n in neighborIds && neighborIds[n] == u;
        neighborIds := neighborIds - {n};
        rest := rest - {u};
      }
      assert gone - rest == gone;
      AllGone(b, i);
      wasUp := true;
    }

    method InterfaceGoesUp(interface: Interface) returns (changed: bool)
      modifies this
      ensures changed == (interface.id !in old(interfaces)) && View() == Up(old(View()), interface)
    {
      var i := interface.id;
      changed := i !in interfaces;
      if changed {
        interfaces := interfaces[i := InterfaceState(interface, 0, {})];
      } else {
        interfaces := interfaces[i := interfaces[i].(interface := interface)];
      }
    }
  }
}
