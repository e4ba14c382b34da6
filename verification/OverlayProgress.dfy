/** What a message does cause: when it is forwarded, when a request is passed on to a nearer contact and to
    which, what answers it otherwise, and that requests reach their target where every node knows a way. */
module OverlayProgress {
  import opened NodeIds
  import opened Routing
  import opened SourceRoutes
  import opened Overlay
  import PathWriters

  /** The node can hand a message to the next one on its route. */
  predicate Reachable(root: NodeId, local: Local, next: NodeId) {
    next == root || next in local.neighbors
  }

  /** Everything but setups and teardowns near the end of their path goes through the transport. */
  predicate Transported(m: Message)
    requires m.route.Valid()
  {
    m.body.PathRequest? ==> |m.route.ids| - m.route.progress > PathWriters.VICINITY_RADIUS + 1
  }

  ghost predicate Handled(root: NodeId, local: Local, m: Message) {
    && m.route.Valid() && LocalFor(local, root, m) && Enters(root, local, m.route)
    && forall i :: 0 <= i < |local.closest| ==> local.closest[i].contact.path != []
  }

  // ---------- on the way ----------

  /** A message that passes the entry checks and whose next node is a neighbour is sent on, one hop farther. */
  lemma ForwardsToNeighbor(root: NodeId, local: Local, m: Message)
    requires Handled(root, local, m) && Transported(m)
    requires m.route.progress + 1 < |m.route.ids| && m.route.ids[m.route.progress + 1] in local.neighbors
    ensures Process(root, local, m) == Sent(Message(m.body, SourceRoute(m.route.ids, m.route.progress + 1)))
  {
  }

  /** If the next node is no neighbour, the node before is told, unless the message expects no answer. */
  lemma ReportsLostNeighbor(root: NodeId, local: Local, m: Message)
    requires Handled(root, local, m) && Transported(m) && !m.body.Notice?
    requires m.route.progress + 1 < |m.route.ids| && m.route.ids[m.route.progress + 1] !in local.neighbors
    requires Reachable(root, local, m.route.ids[m.route.progress - 1])
    ensures Process(root, local, m) == Sent(Message(Failure, m.route.TurnedAround()))
  {
    TurningAroundTwice(m.route);
  }

  /** A message that fails the entry checks causes nothing, whatever it is. */
  lemma RefusedAtEntry(root: NodeId, local: Local, m: Message)
    requires m.route.Valid() && local.g >= 1 && Transported(m)
    requires forall i :: 0 <= i < |local.closest| ==> local.closest[i].contact.path != []
    requires !Enters(root, local, m.route) && !(local.ssn.Reset? && Arrives(root, local, m.route))
    ensures Process(root, local, m) == Dropped
  {
  }

  /** Setups and teardowns stop one node before the vicinity of the end of their path. */
  lemma PathRequestStops(root: NodeId, local: Local, m: Message)
    requires m.route.Valid() && local.g >= 1 && m.body.PathRequest?
    requires forall i :: 0 <= i < |local.closest| ==> local.closest[i].contact.path != []
    requires |m.route.ids| - m.route.progress == PathWriters.VICINITY_RADIUS + 1
    ensures Process(root, local, m) == Consumed
  {
  }

  // ---------- at the end of the route ----------

  /** The message is a request at the end of its route. */
  ghost predicate AtEnd(root: NodeId, local: Local, m: Message) {
    Handled(root, local, m) && m.body.Request? && m.route.progress + 1 == |m.route.ids|
  }

  /** The route with a path appended, at the first node of that path. */
  predicate ExtendedBy(m: Message, m': Message, path: seq<NodeId>) {
    m'.body == m.body && m'.route == SourceRoute(m.route.ids + path, m.route.progress + 1)
  }

  /** One of the contacts with the longest prefix, nearer to the target than the root: if no contact shares
      more of the target than the root, the nearest of all, and otherwise one with the shortest path. */
  ghost predicate BestHop(best: Ranked, root: NodeId, target: NodeId, closest: seq<Ranked>, g: nat)
    requires ValidGrouping(g)
  {
    && best in closest && Distance(best.contact.id, target) < Distance(root, target)
    && forall i :: 0 <= i < |closest| && closest[i].prefix.length == closest[0].prefix.length ==>
         if closest[0].prefix.length == Prefix(root, target, g).length then NoFarther(best, closest[i])
         else NoWorse(best, closest[i])
  }

  lemma SortedIsLongestFirst(closest: seq<Ranked>)
    requires SortedByXor(closest)
    ensures LongestPrefixFirst(closest)
  {
  }

  lemma NearerMeansVia(root: NodeId, target: NodeId, closest: seq<Ranked>, g: nat, i: nat)
    requires ValidGrouping(g) && RankedFor(closest, root, target, g) && SortedByXor(closest) && i < |closest|
    requires Distance(closest[i].contact.id, target) < Distance(root, target)
    ensures NextHop(root, target, closest, g).Via?
  {
    StopsExactlyWhenNoneListedIsNearer(root, target, closest, g);
  }

  /** A Store, or a Fetch for a value not stored here, is passed on whenever a listed contact is nearer: along
      the path of the best one, unless the first node of that path is no neighbour any more. */
  lemma PassesOnWhenNearer(root: NodeId, local: Local, m: Message, i: nat) returns (best: Ranked, m': Message)
    requires AtEnd(root, local, m) && RoutesByKey(root, local, m) && !NextHopPanics(root, local, m.body.target)
    requires SortedByXor(local.closest) && i < |local.closest|
    requires Distance(local.closest[i].contact.id, m.body.target) < Distance(root, m.body.target)
    ensures BestHop(best, root, m.body.target, local.closest, local.g) && best.contact.path != []
    ensures ExtendedBy(m, m', best.contact.path)
    ensures Process(root, local, m) == if Reachable(root, local, best.contact.path[0]) then Sent(m') else Dropped
  {
    var target, closest, g := m.body.target, local.closest, local.g;
    NearerMeansVia(root, target, closest, g, i);
    SortedIsLongestFirst(closest);
    best := NextHopIsBest(root, target, closest, g);
    NextHopIsCloser(root, target, closest, g);
    m' := Message(m.body, SourceRoute(m.route.ids + best.contact.path, m.route.progress + 1));
    assert m'.route.ids[m.route.progress + 1] == best.contact.path[0];
  }

  /** A FindNodeReq is passed on to the first listed contact, if that is nearer and not the requester. */
  lemma FindNodePassesOn(root: NodeId, local: Local, m: Message) returns (m': Message)
    requires AtEnd(root, local, m) && m.body.kind.FindNode? && m.body.target != root && local.closest != []
    requires Distance(local.closest[0].contact.id, m.body.target) < Distance(root, m.body.target)
    requires local.closest[0].contact.id != m.route.ids[0]
    ensures ExtendedBy(m, m', local.closest[0].contact.path)
    ensures Process(root, local, m)
         == if Reachable(root, local, local.closest[0].contact.path[0]) then Sent(m') else Dropped
  {
    var first := local.closest[0].contact;
    SharedPrefixOrderIsXorOrder(root, first.id, m.body.target, local.g);
    m' := Message(m.body, SourceRoute(m.route.ids + first.path, m.route.progress + 1));
    assert m'.route.ids[m.route.progress + 1] == first.path[0];
  }

  /** What a request is answered with where it is not passed on: an error for a Store that has not reached its
      key and for an exact FindNodeReq that has not reached its target, a response otherwise. */
  function AnswerTo(kind: Kind, arrived: bool): Body {
    if arrived then Response
    else if kind.Store? || (kind.FindNode? && kind.exact) then Failure
    else Response
  }

  ghost predicate AnsweredWith(root: NodeId, local: Local, m: Message, answer: Body)
    requires AtEnd(root, local, m)
  {
    Process(root, local, m)
    == if Reachable(root, local, m.route.ids[m.route.progress - 1]) then Sent(Message(answer, m.route.TurnedAround()))
       else Dropped
  }

  ghost predicate NoneNearer(root: NodeId, local: Local, target: NodeId) {
    forall i :: 0 <= i < |local.closest| ==> Distance(root, target) < Distance(local.closest[i].contact.id, target)
  }

  lemma KeyAnswered(root: NodeId, local: Local, m: Message)
    requires AtEnd(root, local, m) && RoutesByKey(root, local, m) && SortedByXor(local.closest)
    requires NoneNearer(root, local, m.body.target)
    ensures AnsweredWith(root, local, m, AnswerTo(m.body.kind, false))
  {
    StopsExactlyWhenNoneListedIsNearer(root, m.body.target, local.closest, local.g);
    TurningAroundTwice(m.route);
  }

  lemma FindNodeAnswered(root: NodeId, local: Local, m: Message)
    requires AtEnd(root, local, m) && m.body.kind.FindNode? && m.body.target != root
    requires NoneNearer(root, local, m.body.target)
    ensures AnsweredWith(root, local, m, AnswerTo(m.body.kind, false))
  {
    TurningAroundTwice(m.route);
    if local.closest != [] {
      SharedPrefixOrderIsXorOrder(root, local.closest[0].contact.id, m.body.target, local.g);
    }
  }

  /** With no listed contact nearer the request is answered here. */
  lemma AnswersWhenNoneIsNearer(root: NodeId, local: Local, m: Message)
    requires AtEnd(root, local, m) && m.body.target != root && SortedByXor(local.closest)
    requires m.body.kind.Fetch? ==> !local.stored
    requires NoneNearer(root, local, m.body.target)
    ensures AnsweredWith(root, local, m, AnswerTo(m.body.kind, false))
  {
    if m.body.kind.FindNode? {
      FindNodeAnswered(root, local, m);
    } else {
      KeyAnswered(root, local, m);
    }
  }

  /** A FindNodeReq whose nearest contact is the requester is answered as well. */
  lemma AnswersTheNearest(root: NodeId, local: Local, m: Message)
    requires AtEnd(root, local, m) && m.body.kind.FindNode? && m.body.target != root && local.closest != []
    requires local.closest[0].contact.id == m.route.ids[0]
    ensures AnsweredWith(root, local, m, AnswerTo(m.body.kind, false))
  {
    TurningAroundTwice(m.route);
  }

  /** At its target, or where the value is stored, a request gets a response; only a republished store that
      was kept gets none. */
  lemma AnswersOnArrival(root: NodeId, local: Local, m: Message)
    requires AtEnd(root, local, m) && (m.body.target == root || (m.body.kind.Fetch? && local.stored))
    ensures if m.body.kind.Store? && m.body.kind.age.Some? && local.storable then
              Process(root, local, m) == if m.body.kind.age.value <= local.now then Consumed else Panicked
            else AnsweredWith(root, local, m, Response)
  {
    TurningAroundTwice(m.route);
  }

  /** Whatever is no request ends with its route. */
  lemma OthersEndWithTheirRoute(root: NodeId, local: Local, m: Message)
    requires Handled(root, local, m) && Transported(m) && !m.body.Request? && m.route.progress + 1 == |m.route.ids|
    ensures Process(root, local, m) == Consumed
  {
  }

  // ---------- all the way ----------

  /** What every node knows, while nothing changes. */
  type Tables = NodeId -> Local

  /** Two nodes have each other as underlay neighbours. */
  predicate Adjacent(tables: Tables, u: NodeId, v: NodeId) {
    u != v && v in tables(u).neighbors && u in tables(v).entryNeighbors
  }

  ghost predicate Linked(tables: Tables, ids: seq<NodeId>) {
    forall i :: 0 <= i < |ids| - 1 ==> Adjacent(tables, ids[i], ids[i + 1])
  }

  /** The node takes part: its list is for the target, and senders do not ask it for a reset. */
  ghost predicate TakesPart(u: NodeId, local: Local, target: NodeId) {
    ValidGrouping(local.g) && RankedFor(local.closest, u, target, local.g) && !local.ssn.Reset?
  }

  /** The node lists its contacts in order, one of them nearer to the target, and all paths exist. */
  ghost predicate KnowsWay(tables: Tables, u: NodeId, kind: Kind, target: NodeId, origin: NodeId) {
    var local := tables(u);
    && local.g >= 1 && SortedByXor(local.closest) && !local.stored && !NextHopPanics(u, local, target)
    && (exists i :: 0 <= i < |local.closest| && Distance(local.closest[i].contact.id, target) < Distance(u, target))
    && (forall i :: 0 <= i < |local.closest| ==> Linked(tables, [u] + local.closest[i].contact.path))
    && (kind.FindNode? ==> local.closest[0].contact.id != origin)
  }

  ghost predicate AllKnow(tables: Tables, kind: Kind, target: NodeId, origin: NodeId) {
    forall u: NodeId :: TakesPart(u, tables(u), target) && (u != target ==> KnowsWay(tables, u, kind, target, origin))
  }

  ghost predicate Travelling(tables: Tables, m: Message) {
    && m.body.Request? && m.route.Valid() && Linked(tables, m.route.ids)
    && AllKnow(tables, m.body.kind, m.body.target, m.route.Origin())
  }

  lemma TravellingIsHandled(tables: Tables, m: Message)
    requires Travelling(tables, m)
    ensures Handled(m.route.CurrentHop(), tables(m.route.CurrentHop()), m)
  {
    var u, i := m.route.CurrentHop(), m.route.progress - 1;
    assert TakesPart(u, tables(u), m.body.target);
    assert Adjacent(tables, m.route.ids[i], m.route.ids[i + 1]);
  }

  lemma SentIsStep(tables: Tables, m: Message, m': Message)
    requires m.route.Valid() && Handled(m.route.CurrentHop(), tables(m.route.CurrentHop()), m)
    requires Process(m.route.CurrentHop(), tables(m.route.CurrentHop()), m) == Sent(m')
    ensures Step(m, m')
  {
    var local := tables(m.route.CurrentHop());
    assert StepWith(local, m, m');
  }

  lemma MovesForward(tables: Tables, m: Message) returns (m': Message)
    requires Travelling(tables, m) && m.route.progress + 1 < |m.route.ids|
    ensures Step(m, m') && Travelling(tables, m') && m'.body == m.body
  {
    var u, i := m.route.CurrentHop(), m.route.progress;
    TravellingIsHandled(tables, m);
    assert Adjacent(tables, m.route.ids[i], m.route.ids[i + 1]);
    ForwardsToNeighbor(u, tables(u), m);
    m' := Message(m.body, SourceRoute(m.route.ids, m.route.progress + 1));
    SentIsStep(tables, m, m');
  }

  lemma LinkedAppends(tables: Tables, ids: seq<NodeId>, path: seq<NodeId>)
    requires ids != [] && Linked(tables, ids) && Linked(tables, [ids[|ids| - 1]] + path)
    ensures Linked(tables, ids + path)
  {
    var tail := [ids[|ids| - 1]] + path;
    forall i | 0 <= i < |ids + path| - 1 ensures Adjacent(tables, (ids + path)[i], (ids + path)[i + 1]) {
      if i < |ids| - 1 {
        assert Adjacent(tables, ids[i], ids[i + 1]);
      } else {
        assert Adjacent(tables, tail[i - (|ids| - 1)], tail[i - (|ids| - 1) + 1]);
      }
    }
  }

  lemma ExtensionTravels(tables: Tables, m: Message, m': Message, i: nat)
    requires Travelling(tables, m) && m.route.progress + 1 == |m.route.ids| && m.route.CurrentHop() != m.body.target
    requires i < |tables(m.route.CurrentHop()).closest|
    requires ExtendedBy(m, m', tables(m.route.CurrentHop()).closest[i].contact.path)
    ensures Travelling(tables, m')
            && Reachable(m.route.CurrentHop(), tables(m.route.CurrentHop()), m'.route.CurrentHop())
  {
    var u := m.route.CurrentHop();
    var path := tables(u).closest[i].contact.path;
    assert TakesPart(u, tables(u), m.body.target) && KnowsWay(tables, u, m.body.kind, m.body.target, m.route.Origin());
    assert Linked(tables, [u] + path);
    assert path != [];
    LinkedAppends(tables, m.route.ids, path);
    assert Adjacent(tables, ([u] + path)[0], ([u] + path)[0 + 1]);
  }

  lemma MovesNearer(tables: Tables, m: Message) returns (m': Message)
    requires Travelling(tables, m) && m.route.progress + 1 == |m.route.ids| && m.route.CurrentHop() != m.body.target
    ensures Step(m, m') && Travelling(tables, m') && m'.body == m.body
  {
    var u := m.route.CurrentHop();
    var local := tables(u);
    TravellingIsHandled(tables, m);
    assert KnowsWay(tables, u, m.body.kind, m.body.target, m.route.Origin());
    var i :| 0 <= i < |local.closest|
        && Distance(local.closest[i].contact.id, m.body.target) < Distance(u, m.body.target);
    if m.body.kind.FindNode? {
      FirstIsNearerToo(local.closest, u, m.body.target, local.g, i);
      m' := FindNodePassesOn(u, local, m);
      ExtensionTravels(tables, m, m', 0);
    } else {
      var best;
      best, m' := PassesOnWhenNearer(u, local, m, i);
      var j :| 0 <= j < |local.closest| && local.closest[j] == best;
      ExtensionTravels(tables, m, m', j);
    }
    SentIsStep(tables, m, m');
  }

  lemma FirstIsNearerToo(closest: seq<Ranked>, root: NodeId, target: NodeId, g: nat, i: nat)
    requires ValidGrouping(g) && RankedFor(closest, root, target, g) && SortedByXor(closest) && i < |closest|
    requires Distance(closest[i].contact.id, target) < Distance(root, target)
    ensures Distance(closest[0].contact.id, target) < Distance(root, target)
  {
    SharedPrefixOrderIsXorOrder(closest[0].contact.id, closest[i].contact.id, target, g);
  }

  lemma MovesOn(tables: Tables, m: Message) returns (m': Message)
    requires Travelling(tables, m) && !Arrived(m)
    ensures Step(m, m') && Travelling(tables, m') && m'.body == m.body && Below(RankOf(m'), RankOf(m))
  {
    if m.route.progress + 1 < |m.route.ids| {
      m' := MovesForward(tables, m);
    } else {
      m' := MovesNearer(tables, m);
    }
    StepLowersRank(m, m');
  }

  /** The request is at the end of its route, and that is its target. */
  predicate Arrived(m: Message)
    requires m.body.Request? && m.route.Valid()
  {
    m.route.progress + 1 == |m.route.ids| && m.route.CurrentHop() == m.body.target
  }

  lemma RunFrom(m: Message, rest: seq<Message>)
    requires rest != [] && IsRun(rest) && Step(m, rest[0])
    ensures IsRun([m] + rest)
  {
    var ms := [m] + rest;
    forall i | 0 <= i < |ms| - 1 ensures Step(ms[i], ms[i + 1]) {
      if i > 0 { assert Step(rest[i - 1], rest[i - 1 + 1]); }
    }
  }

  /** Where every node but the target knows a nearer contact and the links of their paths are up, a request of
      any kind gets to its target. */
  lemma {:induction false} ReachesTarget(tables: Tables, m: Message) returns (ms: seq<Message>)
    requires Travelling(tables, m)
    ensures ms != [] && ms[0] == m && IsRun(ms)
    ensures var last := ms[|ms| - 1]; last.body == m.body && last.route.Valid() && Arrived(last)
    decreases RankOf(m).overlay, RankOf(m).size, RankOf(m).ahead
  {
    if Arrived(m) {
      ms := [m];
    } else {
      var m' := MovesOn(tables, m);
      var rest := ReachesTarget(tables, m');
      RunFrom(m, rest);
      ms := [m] + rest;
    }
  }
}
