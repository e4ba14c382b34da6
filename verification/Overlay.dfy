/** Source-routed transport and key-based overlay routing as one distributed run.
    A message is always at the current hop of its route. The tables of every node may
    change between any two steps, so each step is given the tables as they are then. */
module Overlay {
  import opened NodeIds
  import opened Routing
  import opened SourceRoutes
  import PathWriters
  import TableSearch

  /** A store that was republished says how long ago its value was accessed. */
  datatype Kind = Store(age: Option<nat>) | Fetch | FindNode(exact: bool)

  datatype Body =
    | Request(kind: Kind, target: NodeId)
    | Response
    | Failure
    | PathRequest(teardown: bool)
    | Other                      // any other message with a nonce
    | Notice(diagnostic: bool)   // UpdateRouteReq: the only one without a nonce

  datatype Message = Message(body: Body, route: SourceRoute)

  /** The state sequence number of the sender, as the message carries it. */
  datatype StateSeqNr = Invalid | Reset | Value

  /** What a node knows when it handles one message. */
  datatype Local = Local(
    entryNeighbors: set<NodeId>,  // underlay neighbours when the message arrives
    neighbors: set<NodeId>,       // underlay neighbours once its information was extracted
    ssn: StateSeqNr,
    closest: seq<Ranked>,         // contacts ranked for the target of the message
    g: nat,                       // prefix grouping of the responsible use case
    stored: bool,                 // the requested value is stored here
    storable: bool,               // the local table takes the value of a store
    now: nat,                     // time since the earliest instant of the clock
    checked: bool,                // built with debug assertions
    sameBucket: bool)             // the bucket of the first ranked contact looks like that of the own node

  datatype Outcome = Dropped | Consumed | Sent(message: Message) | Panicked

  ghost predicate LocalFor(local: Local, root: NodeId, m: Message) {
    && ValidGrouping(local.g)
    && (m.body.Request? ==> RankedFor(local.closest, root, m.body.target, local.g))
  }

  /** Hand a message to its current hop: itself, an underlay neighbour, or nobody. */
  function Emit(root: NodeId, local: Local, m: Message): Outcome
    requires m.route.Valid()
  {
    if m.route.CurrentHop() == root || m.route.CurrentHop() in local.neighbors then Sent(m) else Dropped
  }

  datatype Decision = Discard | Crash | Deliver | Forward | Unreachable

  /** The entry checks of a node, and what it does with a message that passes them. */
  function Decide(root: NodeId, local: Local, route: SourceRoute): Decision
    requires route.Valid()
  {
    if route.CurrentHop() != root then Discard
    else if route.PrevHop() !in local.entryNeighbors then Discard
    else if local.ssn.Reset? then Crash
    else if local.ssn.Value? && route.PrevHop() == root then Discard
    else
      match route.NextHop()
      case None => Deliver
      case Some(next) => if next in local.neighbors then Forward else Unreachable
  }

  /** A message arrives. Setup and teardown of paths come first: inside the vicinity of the end of the
      path they are over, and must not have got any farther. */
  function Process(root: NodeId, local: Local, m: Message): Outcome
    requires m.route.Valid() && local.g >= 1
    requires forall i :: 0 <= i < |local.closest| ==> local.closest[i].contact.path != []
  {
    var hopsLeft := |m.route.RemainingPath()|;
    if m.body.PathRequest? && hopsLeft <= PathWriters.VICINITY_RADIUS then Panicked
    else if m.body.PathRequest? && hopsLeft - 1 <= PathWriters.VICINITY_RADIUS then Consumed
    else Transport(root, local, m)
  }

  /** A message for this node is checked, and is forwarded or handled. */
  function Transport(root: NodeId, local: Local, m: Message): Outcome
    requires m.route.Valid() && local.g >= 1
    requires forall i :: 0 <= i < |local.closest| ==> local.closest[i].contact.path != []
  {
    match Decide(root, local, m.route)
    case Discard => Dropped
    case Crash => Panicked
    case Deliver => Handle(root, local, m)
    case Forward => Emit(root, local, Message(m.body, m.route.Advanced()))
    case Unreachable => NextHopFailed(root, local, m)
  }

  /** The next hop is gone: report a segment failure back along the travelled route. */
  function NextHopFailed(root: NodeId, local: Local, m: Message): Outcome
    requires m.route.Valid()
  {
    if m.body.Notice? then (if m.body.diagnostic then Panicked else Dropped)
    else Emit(root, local, Message(Failure, m.route.TurnedAround()))
  }

  /** The check in next_hop fails. */
  predicate NextHopPanics(root: NodeId, local: Local, target: NodeId)
    requires local.g >= 1
  {
    local.checked && AssertionFails(root, target, local.closest, local.g, local.sameBucket)
  }

  /** The route is finished here. */
  function Handle(root: NodeId, local: Local, m: Message): Outcome
    requires m.route.Valid() && local.g >= 1
    requires forall i :: 0 <= i < |local.closest| ==> local.closest[i].contact.path != []
  {
    if !m.body.Request? then Consumed
    else
      match m.body.kind
      case Store(age) =>
        if m.body.target == root then
          if local.storable && age.Some? then (if age.value > local.now then Panicked else Consumed)
          else Emit(root, local, Message(Response, m.route.TurnedAround()))
        else if NextHopPanics(root, local, m.body.target) then Panicked
        else
          Continue(root, local, m, NextHop(root, m.body.target, local.closest, local.g),
              Message(Failure, m.route.TurnedAround()))
      case Fetch =>
        if local.stored || m.body.target == root then Emit(root, local, Message(Response, m.route.TurnedAround()))
        else if NextHopPanics(root, local, m.body.target) then Panicked
        else
          Continue(root, local, m, NextHop(root, m.body.target, local.closest, local.g),
              Message(Response, m.route.TurnedAround()))
      case FindNode(exact) =>
        if m.route.Destination() != root then Consumed
        else if m.body.target == root then Emit(root, local, Message(Response, m.route.TurnedAround()))
        else
          Continue(root, local, m, FindNodeHop(root, m.route.Origin(), m.body.target, local.closest, local.g),
                   if exact then Message(Failure, m.route.TurnedAround())
                       else Message(Response, m.route.TurnedAround()))
  }

  /** Extend the route to the chosen contact, or answer when there is none. */
  function Continue(root: NodeId, local: Local, m: Message, hop: Hop, answer: Message): Outcome
    requires m.route.Valid() && answer.route.Valid()
    requires hop.Via? ==> hop.contact.path != []
  {
    match hop
    case Via(contact) => Emit(root, local, Message(m.body, m.route.Extended(contact.path).Advanced()))
    case Root => Emit(root, local, answer)
    case BadGrouping => Panicked
  }

  /** One message causes the next, for some tables at the node it is at. */
  ghost predicate Step(m: Message, m': Message) {
    && m.route.Valid()
    && exists local :: LocalFor(local, m.route.CurrentHop(), m) && StepWith(local, m, m')
  }

  ghost predicate StepWith(local: Local, m: Message, m': Message)
    requires m.route.Valid()
  {
    && local.g >= 1
    && (forall i :: 0 <= i < |local.closest| ==> local.closest[i].contact.path != [])
    && Process(m.route.CurrentHop(), local, m) == Sent(m')
  }

  /** A hop was chosen: the request was at the end of its route and still is a request. */
  predicate ChoosesHop(m: Message, m': Message)
    requires m.route.Valid()
  {
    m.body.Request? && m.route.NextHop() == None && m'.body.Request?
  }

  ghost predicate IsRun(ms: seq<Message>) {
    forall i :: 0 <= i < |ms| - 1 ==> Step(ms[i], ms[i + 1])
  }

  // ---------- what one step does ----------

  /** The four ways a message causes another one. */
  datatype StepKind = Forwarded | Extended(contact: Contact) | Answered | Bounced

  ghost predicate Does(kind: StepKind, m: Message, m': Message)
    requires m.route.Valid()
  {
    match kind
    case Forwarded => m.route.NextHop().Some? && m' == Message(m.body, m.route.Advanced())
    case Extended(c) =>
      && m.body.Request? && m.route.NextHop() == None && c.WellFormed()
      && m' == Message(m.body, m.route.Extended(c.path).Advanced())
      && Distance(c.id, m.body.target) < Distance(m.route.CurrentHop(), m.body.target)
    case Answered =>
      && m.body.Request? && m.route.NextHop() == None
      && (m' == Message(Response, m.route.TurnedAround()) || m' == Message(Failure, m.route.TurnedAround()))
    case Bounced => m.route.NextHop().Some? && !m.body.Notice? && m' == Message(Failure, m.route.TurnedAround())
  }

  lemma StepCases(m: Message, m': Message) returns (kind: StepKind)
    requires Step(m, m')
    ensures Does(kind, m, m')
  {
    var root := m.route.CurrentHop();
    var local :| LocalFor(local, root, m) && StepWith(local, m, m');
    if m.route.NextHop().Some? {
      kind := if m.route.NextHop().value in local.neighbors then Forwarded else Bounced;
    } else {
      kind := Answered;
      if m.body.kind.FindNode? {
        var hop := FindNodeHop(root, m.route.Origin(), m.body.target, local.closest, local.g);
        if m.body.target != root && hop.Via? {
          FindNodeHopIsCloser(root, m.route.Origin(), m.body.target, local.closest, local.g);
          kind := Extended(hop.contact);
        }
      } else {
        var hop := NextHop(root, m.body.target, local.closest, local.g);
        if m.body.target != root && !(m.body.kind.Fetch? && local.stored) && hop.Via? {
          NextHopIsCloser(root, m.body.target, local.closest, local.g);
          kind := Extended(hop.contact);
        }
      }
    }
  }

  /** The same relation with the tables left out. */
  ghost predicate Causes(m: Message, m': Message) {
    m.route.Valid() && exists kind :: Does(kind, m, m')
  }

  ghost predicate CausalRun(ms: seq<Message>) {
    forall i :: 0 <= i < |ms| - 1 ==> Causes(ms[i], ms[i + 1])
  }

  lemma RunIsCausal(ms: seq<Message>)
    requires IsRun(ms)
    ensures CausalRun(ms)
  {
    forall i | 0 <= i < |ms| - 1 ensures Causes(ms[i], ms[i + 1]) {
      var kind := StepCases(ms[i], ms[i + 1]);
    }
  }

  // ---------- every message causes finitely many steps ----------

  datatype Rank = Rank(overlay: nat, size: nat, ahead: nat)

  predicate Below(a: Rank, b: Rank) {
    || a.overlay < b.overlay
    || (a.overlay == b.overlay && a.size < b.size)
    || (a.overlay == b.overlay && a.size == b.size && a.ahead < b.ahead)
  }

  /** Overlay distance still to cover, length of the route, and hops left on it. */
  function RankOf(m: Message): Rank
    requires m.route.Valid()
  {
    Rank(if m.body.Request? then 1 + Distance(m.route.Destination(), m.body.target) else 0,
         |m.route.ids|, |m.route.ids| - m.route.progress)
  }

  /** A forward shortens what is ahead, an error travels a strictly shorter route than the
      message it reports, an overlay hop is strictly nearer to the target. */
  lemma StepLowersRank(m: Message, m': Message)
    requires Step(m, m')
    ensures m'.route.Valid() && Below(RankOf(m'), RankOf(m))
    ensures Bounces(m, m') ==> |m'.route.ids| < |m.route.ids|
  {
    var kind := StepCases(m, m');
    EachKindLowersRank(kind, m, m');
  }

  /** An error about a message that could not be passed on. */
  predicate Bounces(m: Message, m': Message)
    requires m.route.Valid()
  {
    m.route.NextHop().Some? && m'.body.Failure? && m'.route != m.route.Advanced()
  }

  lemma EachKindLowersRank(kind: StepKind, m: Message, m': Message)
    requires m.route.Valid() && Does(kind, m, m')
    ensures m'.route.Valid() && Below(RankOf(m'), RankOf(m))
    ensures Bounces(m, m') ==> |m'.route.ids| < |m.route.ids|
  {
    match kind
    case Forwarded =>
      assert m'.route.ids == m.route.ids && m'.route.progress == m.route.progress + 1;
      assert RankOf(m').overlay == RankOf(m).overlay;
    case Extended(c) =>
      assert m'.route.ids == m.route.ids + c.path;
      assert m'.route.Destination() == c.id;
      assert RankOf(m').overlay < RankOf(m).overlay;
    case Answered =>
      assert RankOf(m').overlay == 0 < RankOf(m).overlay;
    case Bounced =>
      assert RankOf(m').overlay == 0;
      assert |m'.route.ids| < |m.route.ids|;
  }

  lemma {:induction false} RunReachesItsEnd(run: nat -> Message, i: nat)
    requires run(i).route.Valid()
    ensures exists k: nat :: k >= i && !Step(run(k), run(k + 1))
    decreases RankOf(run(i)).overlay, RankOf(run(i)).size, RankOf(run(i)).ahead
  {
    if Step(run(i), run(i + 1)) {
      StepLowersRank(run(i), run(i + 1));
      RunReachesItsEnd(run, i + 1);
    }
  }

  /** No message, with all the requests, answers, errors and errors about errors it causes,
      travels for ever, however the tables of the nodes change meanwhile. */
  lemma EveryRunIsFinite(run: nat -> Message)
    requires run(0).route.Valid()
    ensures exists k: nat :: !Step(run(k), run(k + 1))
  {
    RunReachesItsEnd(run, 0);
    var k: nat :| k >= 0 && !Step(run(k), run(k + 1));
  }

  // ---------- no node chooses twice ----------

  /** A caused request is the same request, and its overlay destination is no farther. */
  lemma RequestIsCarriedOn(m: Message, m': Message)
    requires Causes(m, m') && m'.body.Request?
    ensures m'.route.Valid() && m.body == m'.body
    ensures OverlayDistance(m') <= OverlayDistance(m)
    ensures ChoosesHop(m, m') ==> OverlayDistance(m') < OverlayDistance(m)
  {
    var kind :| Does(kind, m, m');
    if kind.Extended? {
      assert m'.route.Destination() == kind.contact.id;
    }
  }

  function OverlayDistance(m: Message): nat
    requires m.body.Request? && m.route.Valid()
  {
    Distance(m.route.Destination(), m.body.target)
  }

  lemma {:induction false} LaterDestinationsAreNearer(ms: seq<Message>, i: nat, j: nat)
    requires CausalRun(ms) && i <= j < |ms|
    requires ms[i].route.Valid() && ms[j].body.Request?
    ensures ms[j].route.Valid() && ms[i].body == ms[j].body
    ensures OverlayDistance(ms[j]) <= OverlayDistance(ms[i])
    decreases j - i
  {
    if i < j {
      assert Causes(ms[j - 1], ms[j]);
      RequestIsCarriedOn(ms[j - 1], ms[j]);
      LaterDestinationsAreNearer(ms, i, j - 1);
    }
  }

  /** Within one run no overlay node chooses a hop for the same request twice. */
  lemma NoNodeChoosesTwice(ms: seq<Message>, i: nat, j: nat)
    requires IsRun(ms) && i < j < |ms| - 1
    requires ms[i].route.Valid() && ms[j].route.Valid()
    requires ChoosesHop(ms[i], ms[i + 1]) && ChoosesHop(ms[j], ms[j + 1])
    ensures ms[i].route.CurrentHop() != ms[j].route.CurrentHop()
    ensures ms[i].body == ms[j].body
    ensures OverlayDistance(ms[j]) < OverlayDistance(ms[i])
  {
    RunIsCausal(ms);
    ChoicesGetNearer(ms, i, j);
  }

  lemma ChoicesGetNearer(ms: seq<Message>, i: nat, j: nat)
    requires CausalRun(ms) && i < j < |ms| - 1
    requires ms[i].route.Valid() && ms[j].route.Valid()
    requires ChoosesHop(ms[i], ms[i + 1]) && ChoosesHop(ms[j], ms[j + 1])
    ensures ms[i].body == ms[j].body
    ensures OverlayDistance(ms[j]) < OverlayDistance(ms[i])
    ensures ms[i].route.CurrentHop() != ms[j].route.CurrentHop()
  {
    RequestIsCarriedOn(ms[i], ms[i + 1]);
    LaterDestinationsAreNearer(ms, i + 1, j);
    assert ms[i].route.CurrentHop() == ms[i].route.Destination();
    assert ms[j].route.CurrentHop() == ms[j].route.Destination();
  }

  // ---------- the way back ----------

  /** The nodes a message was at, from its origin on, in the run up to its last message. */
  function Walk(ms: seq<Message>): seq<NodeId>
    requires ms != [] && forall m :: m in ms ==> m.route.Valid()
  {
    if |ms| == 1 then Travelled(ms[0])
    else Walk(ms[..|ms| - 1]) + [ms[|ms| - 1].route.CurrentHop()]
  }

  /** The nodes a message was at, by its own account. */
  function Travelled(m: Message): seq<NodeId>
    requires m.route.Valid()
  {
    m.route.ids[..m.route.progress + 1]
  }

  lemma RequestStepExtendsWalk(m: Message, m': Message)
    requires Causes(m, m') && m'.body.Request?
    ensures m'.route.Valid() && Travelled(m') == Travelled(m) + [m'.route.CurrentHop()]
  {
    var kind :| Does(kind, m, m');
    assert m'.route.progress == m.route.progress + 1;
  }

  /** The travelled part of a request's route is the walk it took, after any number of
      overlay extensions. */
  lemma {:induction false} RouteIsTheWalk(ms: seq<Message>)
    requires ms != [] && CausalRun(ms)
    requires forall m :: m in ms ==> m.body.Request? && m.route.Valid()
    ensures Travelled(ms[|ms| - 1]) == Walk(ms)
    ensures Walk(ms)[0] == ms[0].route.Origin()
  {
    if |ms| > 1 {
      RouteIsTheWalk(ms[..|ms| - 1]);
      assert Causes(ms[|ms| - 2], ms[|ms| - 2 + 1]);
      RequestStepExtendsWalk(ms[|ms| - 2], ms[|ms| - 1]);
    }
  }

  /** Whatever answers the request — a response, an error from its end, or an error from
      the middle of a route — travels the walk backwards and is addressed to the requester. */
  lemma {:induction false} AnswerRetracesTheWalk(ms: seq<Message>, answer: Message)
    requires ms != [] && IsRun(ms)
    requires forall m :: m in ms ==> m.body.Request? && m.route.Valid()
    requires Step(ms[|ms| - 1], answer) && !answer.body.Request?
    ensures answer.route.Valid()
    ensures answer.route == SourceRoute(Reversed(Walk(ms)), 1)
    ensures answer.route.Destination() == ms[0].route.Origin()
  {
    RunIsCausal(ms);
    RouteIsTheWalk(ms);
    AnswerTurnsAround(ms[|ms| - 1], answer);
  }

  lemma AnswerTurnsAround(m: Message, answer: Message)
    requires Step(m, answer) && m.body.Request? && !answer.body.Request?
    ensures answer.route.Valid() && answer.route == SourceRoute(Reversed(Travelled(m)), 1)
    ensures answer.route.Destination() == m.route.Origin()
  {
    var kind := StepCases(m, answer);
    TurningAroundTwice(m.route);
  }

  // ---------- edges of the transport ----------

  /** A message to oneself, built when no contact is nearer to the key, gets past the entry checks only if
      the own node is listed as its own underlay neighbour and the message carries no usable sequence
      number: such requests are otherwise never answered. */
  lemma LoopbackIsDroppedExactlyWhen(root: NodeId, local: Local, kind: Kind, target: NodeId)
    requires LocalFor(local, root, Message(Request(kind, target), NewRoute(root, [root])))
    requires NextHop(root, target, local.closest, local.g) == Root
    ensures var m := Message(Request(kind, target), NewRoute(root, [root]));
            && m.route.Valid()
            && (Process(root, local, m) == Dropped <==> root !in local.entryNeighbors || local.ssn.Value?)
  {
    var m := Message(Request(kind, target), NewRoute(root, [root]));
    assert m.route.TurnedAround().CurrentHop() == root by {
      assert m.route.ids[..2] == [root, root];
    }
    if kind.FindNode? && FindNodeHop(root, root, target, local.closest, local.g).Via? {
      FindNodeHopIsCloser(root, root, target, local.closest, local.g);
      StopsWhenFirstIsFarther(root, target, local.closest, local.g);
    }
  }

  lemma StopsWhenFirstIsFarther(root: NodeId, target: NodeId, closest: seq<Ranked>, g: nat)
    requires ValidGrouping(g) && RankedFor(closest, root, target, g)
    requires NextHop(root, target, closest, g) == Root && closest != []
    ensures Distance(root, target) < Distance(closest[0].contact.id, target)
  {
    SharedPrefixOrderIsXorOrder(root, closest[0].contact.id, target, g);
    ContactNeverAtRootDistance(closest[0].contact.id, root, target);
  }

  /** What a node without contacts knows. */
  function Alone(neighbors: set<NodeId>, ssn: StateSeqNr, now: nat): Local {
    Local(neighbors, neighbors, ssn, [], 1, false, true, now, true, false)
  }

  /** So an isolated node loses the requests it addresses to itself, whatever their kind and key. */
  lemma IsolatedNodeLosesItsRequests(root: NodeId, kind: Kind, target: NodeId, now: nat)
    ensures NextHop(root, target, [], 1) == Root
    ensures Process(root, Alone({}, Value, now), Message(Request(kind, target), NewRoute(root, [root]))) == Dropped
  {
    LoopbackIsDroppedExactlyWhen(root, Alone({}, Value, now), kind, target);
  }

  /** The message passes the checks on the hop it is at and on the one it came from. */
  predicate Arrives(root: NodeId, local: Local, route: SourceRoute)
    requires route.Valid()
  {
    route.CurrentHop() == root && route.PrevHop() in local.entryNeighbors
  }

  /** The message passes all entry checks. */
  predicate Enters(root: NodeId, local: Local, route: SourceRoute)
    requires route.Valid()
  {
    Arrives(root, local, route) && !local.ssn.Reset? && !(local.ssn.Value? && route.PrevHop() == root)
  }

  /** A Store or Fetch at the end of its route goes on by key. */
  predicate RoutesByKey(root: NodeId, local: Local, m: Message)
    requires m.route.Valid()
  {
    && Enters(root, local, m.route) && m.route.NextHop().None?
    && m.body.Request? && m.body.target != root
    && (m.body.kind.Store? || (m.body.kind.Fetch? && !local.stored))
  }

  /** Path management, the transport and the handlers of Store, Fetch and FindNode fail in exactly five
      situations: a path request inside the vicinity of its end, a sequence number that asks for a reset,
      an UpdateRouteReq with the diagnostic flag that cannot be passed on, a republished store accessed
      before the earliest instant of its receiver's clock, and, in builds with debug assertions, a Store or
      Fetch routed by key when the check in next_hop fails. */
  lemma PanicsExactlyWhen(root: NodeId, local: Local, m: Message)
    requires m.route.Valid() && LocalFor(local, root, m)
    requires forall i :: 0 <= i < |local.closest| ==> local.closest[i].contact.path != []
    ensures Process(root, local, m) == Panicked
       <==> || (m.body.PathRequest? && |m.route.RemainingPath()| <= PathWriters.VICINITY_RADIUS)
            || (&& local.ssn.Reset? && Arrives(root, local, m.route)
                && (m.body.PathRequest? ==> |m.route.RemainingPath()| > PathWriters.VICINITY_RADIUS + 1))
            || (&& m.body.Notice? && m.body.diagnostic && Enters(root, local, m.route)
                && m.route.NextHop().Some? && m.route.NextHop().value !in local.neighbors)
            || (&& m.body.Request? && m.body.kind.Store? && m.body.kind.age.Some? && m.body.kind.age.value > local.now
                && Enters(root, local, m.route) && m.route.NextHop().None? && m.body.target == root && local.storable)
            || (RoutesByKey(root, local, m) && NextHopPanics(root, local, m.body.target))
  {
  }

  /** The first four happen at a node with one neighbour. */
  lemma EachPanicHappens(root: NodeId, neighbor: NodeId, gone: NodeId, teardown: bool, body: Body, now: nat)
    requires root != neighbor && gone != neighbor && !body.PathRequest?
    ensures var short := SourceRoute([neighbor, root], 1);
            var long := SourceRoute([neighbor, root, gone], 1);
            && short.Valid() && long.Valid()
            && Process(root, Alone({neighbor}, Value, now), Message(PathRequest(teardown), short)) == Panicked
            && Process(root, Alone({neighbor}, Reset, now), Message(body, short)) == Panicked
            && Process(root, Alone({neighbor}, Value, now), Message(Notice(true), long)) == Panicked
            && Process(root, Alone({neighbor}, Value, now), Message(Request(Store(Some(now + 1)), root), short))
                == Panicked
  {
    assert SourceRoute([neighbor, root], 1).RemainingPath() == [root];
  }

  /** The fifth happens at a node with two neighbours and a table whose two buckets have become empty. */
  lemma CheckPanicHappens(root: NodeId, unit: nat, target: NodeId, a: Contact, b: Contact, kind: Kind, now: nat)
    requires TableSearch.IsExample(root, unit, target, a, b) && !kind.FindNode?
    ensures var closest := [Ranked(Prefix(a.id, target, 1), a), Ranked(Prefix(b.id, target, 1), b)];
            var local := Alone({a.id, b.id}, Value, now).(closest := closest, sameBucket := true);
            var m := Message(Request(kind, target), SourceRoute([a.id, root], 1));
            && m.route.Valid() && LocalFor(local, root, m) && Process(root, local, m) == Panicked
  {
    TableSearch.EmptyBucketsLookTheSame(root, unit, target, a, b);
  }
}
