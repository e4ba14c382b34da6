/** Label-switched forwarding across a network: a PathSetupReq installs one entry per node on
    its way, and a packet labelled with the digest of a path follows exactly that path. */
module LabelForwarding {
  import opened NodeIds
  import opened SourceRoutes
  import opened FwdTables
  import opened PathWriters
  import opened ForwardingNode
  import Overlay

  /** A node: its writers, the table their updates built, and its underlay neighbours. */
  datatype Site = Site(node: Node, table: Table, uln: UlnTable)

  type Network = map<NodeId, Site>

  ghost predicate Healthy(hash: Hasher, net: Network) {
    forall u {:trigger Running(hash, u, net[u])} :: u in net ==> Running(hash, u, net[u])
  }

  ghost predicate Running(hash: Hasher, u: NodeId, site: Site) {
    site.node.started && Inv(hash, u, site.node, site.table)
  }

  // ---------- a PathSetupReq in any run ----------

  /** A path request is not passed on inside the vicinity of the end of its path. */
  lemma PathRequestGoesOn(m: Overlay.Message, m': Overlay.Message)
    requires Overlay.Step(m, m') && m.body.PathRequest?
    ensures |m.route.RemainingPath()| - 1 > VICINITY_RADIUS
  {
    var local :| Overlay.LocalFor(local, m.route.CurrentHop(), m) && Overlay.StepWith(local, m, m');
  }

  /** However links and tables change, a path request started along a path that leaves the vicinity is
      only ever delivered with more than the vicinity radius of nodes ahead. */
  lemma {:induction false} SetupAlwaysLongEnough(ms: seq<Overlay.Message>, source: NodeId, path: Path, teardown: bool,
                                                 i: nat)
    requires Overlay.IsRun(ms) && i < |ms| && |path| > VICINITY_RADIUS
    requires ms[0] == Overlay.Message(Overlay.PathRequest(teardown), NewRoute(source, path)) && ms[i].body.PathRequest?
    ensures ms[i].route == SourceRoute([source] + path, 1 + i) && i < |path|
    ensures ms[i].route.RemainingPath() == path[i..] && |path[i..]| > VICINITY_RADIUS
  {
    if i > 0 {
      assert Overlay.Step(ms[i - 1], ms[i - 1 + 1]);
      PathRequestGoesOn(ms[i - 1], ms[i]);
      var kind := Overlay.StepCases(ms[i - 1], ms[i]);
      SetupAlwaysLongEnough(ms, source, path, teardown, i - 1);
    }
  }

  // ---------- a PathSetupReq while all links are up ----------

  datatype End = Stopped | Lost | AssertionFailed

  datatype Delivery = Delivery(net: Network, handledBy: seq<NodeId>, end: End)

  /** The explicit path use case registers the nodes ahead; its updates reach the table. */
  function Registering(hash: Hasher, site: Site, ahead: Path, now: nat): Site
    requires |ahead| > VICINITY_RADIUS
  {
    var replayed := Replay(site.table, RegisterOutput(hash, site.node.external, ahead, site.uln));
    Site(site.node.(external := Registered(hash, site.node.external, ahead, site.uln, now)),
         if replayed.Done? then replayed.table else site.table, site.uln)
  }

  function RegisterAt(hash: Hasher, net: Network, at: NodeId, ahead: Path, now: nat): Network {
    if at in net && |ahead| > VICINITY_RADIUS then net[at := Registering(hash, net[at], ahead, now)] else net
  }

  /** What handling a PathSetupReq does to the node it is at. */
  type Registrar = (Network, NodeId, Path) -> Network

  function RegisterAll(hash: Hasher, now: nat): Registrar {
    (net, at, ahead) => RegisterAt(hash, net, at, ahead, now)
  }

  /** A node's own sequence number is never the one that asks for a reset. */
  function LocalOf(site: Site, sourceKnown: bool): Overlay.Local {
    Overlay.Local(site.uln.Keys, site.uln.Keys, if sourceKnown then Overlay.Value else Overlay.Invalid,
                  [], 1, false, false, 0, false, false)
  }

  /** At every node the path is registered first; then the message is stopped or forwarded. */
  function RunSetup(register: Registrar, net: Network, route: SourceRoute, sourceKnown: bool): Delivery
    requires route.Valid()
    decreases |route.ids| - route.progress
  {
    var at, ahead := route.CurrentHop(), route.RemainingPath();
    if at !in net then Delivery(net, [], Lost)
    else if |ahead| <= VICINITY_RADIUS then Delivery(net, [], AssertionFailed)
    else
      var net' := register(net, at, ahead);
      if |ahead| - 1 <= VICINITY_RADIUS then Delivery(net', [at], Stopped)
      else if Overlay.Decide(at, LocalOf(net[at], sourceKnown), route) == Overlay.Forward then
        var rest := RunSetup(register, net', route.Advanced(), sourceKnown);
        Delivery(rest.net, [at] + rest.handledBy, rest.end)
      else Delivery(net', [at], Lost)
  }

  /** Every node of the path is up and has the nodes before and after it as neighbours. */
  ghost predicate Linked(net: Network, source: NodeId, path: Path) {
    forall i :: 0 <= i < |path| ==> LinkedAt(net, source, path, i)
  }

  predicate LinkedAt(net: Network, source: NodeId, path: Path, i: nat)
    requires i < |path|
  {
    && path[i] in net && path[i] !in net[path[i]].uln
    && (if i == 0 then source else path[i - 1]) in net[path[i]].uln
    && (i + 1 < |path| ==> path[i + 1] in net[path[i]].uln)
  }

  ghost predicate SameLinks(net: Network, net': Network) {
    net'.Keys == net.Keys && forall u :: u in net ==> net'[u].uln == net[u].uln
  }

  /** The network once the first k nodes of the path have registered it. */
  function Handled(register: Registrar, net: Network, path: Path, k: nat): Network
    requires k <= |path|
  {
    if k == 0 then net
    else register(Handled(register, net, path, k - 1), path[k - 1], path[k - 1..])
  }

  function RouteAt(source: NodeId, path: Path, i: nat): (route: SourceRoute)
    requires i < |path|
    ensures route.Valid() && route.CurrentHop() == path[i] && route.RemainingPath() == path[i..]
  {
    SourceRoute([source] + path, 1 + i)
  }

  lemma SetupMovesOn(net: Network, source: NodeId, path: Path, i: nat, sourceKnown: bool)
    requires i < |path| - 1 && LinkedAt(net, source, path, i)
    ensures Overlay.Decide(path[i], LocalOf(net[path[i]], sourceKnown), RouteAt(source, path, i)) == Overlay.Forward
    ensures RouteAt(source, path, i).Advanced() == RouteAt(source, path, i + 1)
  {
  }

  lemma LinkStays(net: Network, net': Network, source: NodeId, path: Path, i: nat)
    requires i < |path| && Linked(net, source, path) && SameLinks(net, net')
    ensures LinkedAt(net', source, path, i)
  {
    assert LinkedAt(net, source, path, i);
  }

  ghost predicate KeepsLinks(register: Registrar) {
    forall net, at, ahead :: SameLinks(net, register(net, at, ahead))
  }

  lemma {:induction false} HandledKeepsLinks(register: Registrar, net: Network, path: Path, k: nat)
    requires KeepsLinks(register) && k <= |path|
    ensures SameLinks(net, Handled(register, net, path, k))
  {
    if k > 0 { HandledKeepsLinks(register, net, path, k - 1); }
  }

  lemma HandledNext(register: Registrar, net: Network, path: Path, k: nat)
    requires k < |path|
    ensures Handled(register, net, path, k + 1) == register(Handled(register, net, path, k), path[k], path[k..])
  {
  }

  lemma {:induction false} RunGoesOn(register: Registrar, net: Network, source: NodeId, path: Path, i: nat,
                                     sourceKnown: bool, rest: Delivery)
    requires |path| - i > VICINITY_RADIUS + 1 && LinkedAt(net, source, path, i)
    requires rest == RunSetup(register, register(net, path[i], path[i..]), RouteAt(source, path, i + 1), sourceKnown)
    ensures RunSetup(register, net, RouteAt(source, path, i), sourceKnown)
         == Delivery(rest.net, [path[i]] + rest.handledBy, rest.end)
  {
    SetupMovesOn(net, source, path, i, sourceKnown);
  }

  lemma {:induction false} RunStops(register: Registrar, net: Network, source: NodeId, path: Path, i: nat,
                                    sourceKnown: bool)
    requires |path| - i == VICINITY_RADIUS + 1 && path[i] in net
    ensures RunSetup(register, net, RouteAt(source, path, i), sourceKnown)
         == Delivery(register(net, path[i], path[i..]), [path[i]], Stopped)
  {
  }

  lemma Slices(path: Path, i: nat, to: nat)
    requires i < to <= |path|
    ensures path[i..to] == [path[i]] + path[i + 1..to]
    ensures i + 1 == to ==> path[i..to] == [path[i]]
  {
  }

  ghost predicate RunEnds(register: Registrar, net: Network, source: NodeId, path: Path, i: nat, sourceKnown: bool,
                          end: Network)
    requires |path| - i > VICINITY_RADIUS
  {
    RunSetup(register, net, RouteAt(source, path, i), sourceKnown)
        == Delivery(end, path[i..|path| - VICINITY_RADIUS], Stopped)
  }

  /** The request finds its neighbours when it gets to path[k]. */
  ghost predicate Ready(register: Registrar, net: Network, source: NodeId, path: Path, k: nat)
    requires k < |path|
  {
    LinkedAt(Handled(register, net, path, k), source, path, k)
  }

  lemma LinkedIsReady(register: Registrar, net: Network, source: NodeId, path: Path, k: nat)
    requires k < |path| && KeepsLinks(register) && Linked(net, source, path)
    ensures Ready(register, net, source, path, k)
  {
    HandledKeepsLinks(register, net, path, k);
    LinkStays(net, Handled(register, net, path, k), source, path, k);
  }

  lemma {:induction false} RunIsHandled(register: Registrar, net: Network, source: NodeId, path: Path, i: nat,
                                        sourceKnown: bool)
    requires |path| - i > VICINITY_RADIUS && forall k :: 0 <= k < |path| ==> Ready(register, net, source, path, k)
    ensures RunEnds(register, Handled(register, net, path, i), source, path, i, sourceKnown,
                    Handled(register, net, path, |path| - VICINITY_RADIUS))
    decreases |path| - i
  {
    var to, net' := |path| - VICINITY_RADIUS, Handled(register, net, path, i);
    assert Ready(register, net, source, path, i);
    HandledNext(register, net, path, i);
    Slices(path, i, to);
    if i + 1 < to {
      RunIsHandled(register, net, source, path, i + 1, sourceKnown);
      RunGoesOn(register, net', source, path, i, sourceKnown,
                Delivery(Handled(register, net, path, to), path[i + 1..to], Stopped));
    } else {
      RunStops(register, net', source, path, i, sourceKnown);
    }
  }

  // ---------- which entries it installs ----------

  predicate EntryInstalled(hash: Hasher, net: Network, path: Path, k: nat)
    requires k + 1 < |path|
  {
    && path[k] in net && path[k + 1] in net[path[k]].uln && hash(path[k..]) in net[path[k]].table
    && net[path[k]].table[hash(path[k..])] == EntryFor(hash, path[k..], net[path[k]].uln[path[k + 1]])
  }

  /** The ids the first k nodes of the path install at u. */
  function InstalledAt(hash: Hasher, path: Path, k: nat, u: NodeId): set<PathId>
    requires k <= |path|
  {
    set j | 0 <= j < k && path[j] == u :: hash(path[j..])
  }

  ghost predicate OnlyInstalled(before: Site, after: Site, ids: set<PathId>) {
    && after.node.vicinity == before.node.vicinity
    && after.table.Keys == before.table.Keys + ids
    && (forall id :: id in before.table && id !in ids ==> after.table[id] == before.table[id])
  }

  ghost predicate Restricted(hash: Hasher, net: Network, net': Network, path: Path, k: nat, u: NodeId)
    requires k <= |path| && u in net && u in net'
  {
    OnlyInstalled(net[u], net'[u], InstalledAt(hash, path, k, u))
  }

  /** The first k nodes of the path have their entries, and no node holds any other new or
      changed entry. */
  ghost predicate Covered(hash: Hasher, net: Network, net': Network, path: Path, k: nat)
    requires k < |path|
  {
    && SameLinks(net, net')
    && (forall j :: 0 <= j < k ==> EntryInstalled(hash, net', path, j))
    && (forall u {:trigger Restricted(hash, net, net', path, k, u)} :: u in net ==>
        Restricted(hash, net, net', path, k, u))
  }

  /** The table and the explicit path use case know the same explicit suffixes of the path. */
  ghost predicate SuffixesAgree(hash: Hasher, net: Network, path: Path) {
    forall u, k {:trigger SuffixAgrees(hash, net[u], path, k)} ::
      u in net && 0 <= k && |path| - k > VICINITY_RADIUS ==> SuffixAgrees(hash, net[u], path, k)
  }

  predicate SuffixAgrees(hash: Hasher, site: Site, path: Path, k: nat)
    requires k < |path|
  {
    hash(path[k..]) in site.table <==> hash(path[k..]) in site.node.external
  }

  /** Suffixes of different length have different ids. */
  ghost predicate SuffixIdsDiffer(hash: Hasher, path: Path) {
    forall i, k :: 0 <= i < k < |path| ==> hash(path[i..]) != hash(path[k..])
  }

  lemma RegisteringInstalls(hash: Hasher, site: Site, path: Path, k: nat, now: nat)
    requires |path| - k > VICINITY_RADIUS && path[k + 1] in site.uln && SuffixAgrees(hash, site, path, k)
    ensures var site' := Registering(hash, site, path[k..], now);
            && site'.table == site.table[hash(path[k..]) := EntryFor(hash, path[k..], site.uln[path[k + 1]])]
            && site'.node.external.Keys == site.node.external.Keys + {hash(path[k..])}
            && site'.node.vicinity == site.node.vicinity && site'.uln == site.uln
  {
    RegisterReplays(hash, site.node.external, site.table, path[k..], site.uln);
  }

  /** One more node registers the path. */
  ghost predicate OneMore(hash: Hasher, net: Network, net': Network, path: Path, k: nat)
    requires k + 1 < |path|
  {
    var at, id := path[k], hash(path[k..]);
    && at in net && path[k + 1] in net[at].uln && SameLinks(net, net')
    && (forall u :: u in net && u != at ==> net'[u] == net[u])
    && net'[at].table == net[at].table[id := EntryFor(hash, path[k..], net[at].uln[path[k + 1]])]
    && net'[at].node.external.Keys == net[at].node.external.Keys + {id}
    && net'[at].node.vicinity == net[at].node.vicinity
  }

  lemma RegistersOneMore(hash: Hasher, net: Network, path: Path, k: nat, now: nat)
    requires |path| - k > VICINITY_RADIUS && SuffixesAgree(hash, net, path)
    requires path[k] in net && path[k + 1] in net[path[k]].uln
    ensures OneMore(hash, net, RegisterAt(hash, net, path[k], path[k..], now), path, k)
  {
    assert SuffixAgrees(hash, net[path[k]], path, k);
    RegisteringInstalls(hash, net[path[k]], path, k, now);
  }

  lemma OneMoreAgrees(hash: Hasher, net: Network, net': Network, path: Path, k: nat)
    requires k + 1 < |path| && SuffixesAgree(hash, net, path) && OneMore(hash, net, net', path, k)
    ensures SuffixesAgree(hash, net', path)
  {
    forall u, j | u in net' && 0 <= j && |path| - j > VICINITY_RADIUS ensures SuffixAgrees(hash, net'[u], path, j) {
      assert SuffixAgrees(hash, net[u], path, j);
    }
  }

  lemma OneMoreIsRestricted(hash: Hasher, net: Network, mid: Network, net': Network, path: Path, k: nat, u: NodeId)
    requires k + 1 < |path| && OneMore(hash, mid, net', path, k) && SameLinks(net, mid)
    requires u in net && Restricted(hash, net, mid, path, k, u)
    ensures Restricted(hash, net, net', path, k + 1, u)
  {
    assert InstalledAt(hash, path, k + 1, u)
        == InstalledAt(hash, path, k, u) + if u == path[k] then {hash(path[k..])} else {};
  }

  lemma OneMoreIsCovered(hash: Hasher, net: Network, mid: Network, net': Network, path: Path, k: nat)
    requires k + 1 < |path| && SuffixIdsDiffer(hash, path)
    requires Covered(hash, net, mid, path, k) && OneMore(hash, mid, net', path, k)
    ensures Covered(hash, net, net', path, k + 1)
  {
    forall j | 0 <= j < k + 1 ensures EntryInstalled(hash, net', path, j) {
      if j < k {
        assert EntryInstalled(hash, mid, path, j);
        assert hash(path[j..]) != hash(path[k..]);
      }
    }
    forall u | u in net ensures Restricted(hash, net, net', path, k + 1, u) {
      assert Restricted(hash, net, mid, path, k, u);
      OneMoreIsRestricted(hash, net, mid, net', path, k, u);
    }
  }

  lemma {:induction false} HandledIsCovered(hash: Hasher, net: Network, source: NodeId, path: Path, k: nat, now: nat)
    requires SuffixIdsDiffer(hash, path) && SuffixesAgree(hash, net, path) && Linked(net, source, path)
    requires k + VICINITY_RADIUS <= |path|
    ensures Covered(hash, net, Handled(RegisterAll(hash, now), net, path, k), path, k)
    ensures SuffixesAgree(hash, Handled(RegisterAll(hash, now), net, path, k), path)
  {
    if k == 0 {
      forall u | u in net ensures Restricted(hash, net, net, path, 0, u) { }
    } else {
      var before := Handled(RegisterAll(hash, now), net, path, k - 1);
      var after := RegisterAt(hash, before, path[k - 1], path[k - 1..], now);
      HandledIsCovered(hash, net, source, path, k - 1, now);
      assert LinkedAt(net, source, path, k - 1);
      RegistersOneMore(hash, before, path, k - 1, now);
      OneMoreAgrees(hash, before, after, path, k - 1);
      OneMoreIsCovered(hash, net, before, after, path, k - 1);
    }
  }

  lemma SuffixesHaveOwnIds(hash: Hasher, path: Path)
    requires Injective(hash)
    ensures SuffixIdsDiffer(hash, path)
  {
    forall i, k | 0 <= i < k < |path| ensures hash(path[i..]) != hash(path[k..]) {
      assert !SameId(hash, path[i..], path[k..]);
    }
  }

  lemma HealthySuffixesAgree(hash: Hasher, net: Network, path: Path)
    requires Injective(hash) && Healthy(hash, net)
    ensures SuffixesAgree(hash, net, path)
  {
    forall u, k | u in net && 0 <= k && |path| - k > VICINITY_RADIUS ensures SuffixAgrees(hash, net[u], path, k) {
      assert Running(hash, u, net[u]);
      ExplicitIdIsFree(hash, u, net[u].node, net[u].table, path[k..]);
    }
  }

  lemma RegisteringKeepsRunning(hash: Hasher, u: NodeId, site: Site, ahead: Path, now: nat)
    requires Injective(hash) && Running(hash, u, site) && |ahead| > VICINITY_RADIUS
    ensures Running(hash, u, Registering(hash, site, ahead, now))
  {
    RegisterKeepsInv(hash, u, site.node, site.table, ahead, site.uln, now,
                     site.node.(external := Registered(hash, site.node.external, ahead, site.uln, now)),
                     RegisterOutput(hash, site.node.external, ahead, site.uln));
  }

  lemma RegisteringKeepsHealthy(hash: Hasher, net: Network, at: NodeId, ahead: Path, now: nat)
    requires Injective(hash) && Healthy(hash, net) && |ahead| > VICINITY_RADIUS
    ensures Healthy(hash, RegisterAt(hash, net, at, ahead, now))
  {
    var net' := RegisterAt(hash, net, at, ahead, now);
    forall u | u in net' ensures Running(hash, u, net'[u]) {
      assert Running(hash, u, net[u]);
      if u == at { RegisteringKeepsRunning(hash, at, net[at], ahead, now); }
    }
  }

  /** Whatever happens to the request, every node's table keeps to its writers' invariant. */
  lemma {:induction false} SetupKeepsHealthy(hash: Hasher, net: Network, route: SourceRoute, sourceKnown: bool,
                                             now: nat)
    requires Injective(hash) && Healthy(hash, net) && route.Valid()
    ensures Healthy(hash, RunSetup(RegisterAll(hash, now), net, route, sourceKnown).net)
    decreases |route.ids| - route.progress
  {
    var at, ahead := route.CurrentHop(), route.RemainingPath();
    if at in net && |ahead| > VICINITY_RADIUS {
      RegisteringKeepsHealthy(hash, net, at, ahead, now);
      if |ahead| - 1 > VICINITY_RADIUS {
        SetupKeepsHealthy(hash, RegisterAt(hash, net, at, ahead, now), route.Advanced(), sourceKnown, now);
      }
    }
  }

  lemma RegisterAllKeepsLinks(hash: Hasher, now: nat)
    ensures KeepsLinks(RegisterAll(hash, now))
  {
    forall net: Network, at: NodeId, ahead: Path ensures SameLinks(net, RegisterAll(hash, now)(net, at, ahead)) {
      assert SameLinks(net, RegisterAt(hash, net, at, ahead, now));
    }
  }

  lemma {:induction false} LinkedRunEnds(register: Registrar, net: Network, source: NodeId, path: Path,
                                         sourceKnown: bool)
    requires KeepsLinks(register) && Linked(net, source, path) && |path| > VICINITY_RADIUS
    ensures RunEnds(register, net, source, path, 0, sourceKnown, Handled(register, net, path, |path| - VICINITY_RADIUS))
  {
    forall k | 0 <= k < |path| ensures Ready(register, net, source, path, k) {
      LinkedIsReady(register, net, source, path, k);
    }
    RunIsHandled(register, net, source, path, 0, sourceKnown);
  }

  lemma {:induction false} HealthyIsCovered(hash: Hasher, net: Network, source: NodeId, path: Path, now: nat)
    requires Injective(hash) && Healthy(hash, net) && Linked(net, source, path) && |path| > VICINITY_RADIUS
    ensures var k := |path| - VICINITY_RADIUS;
            Covered(hash, net, Handled(RegisterAll(hash, now), net, path, k), path, k)
  {
    SuffixesHaveOwnIds(hash, path);
    HealthySuffixesAgree(hash, net, path);
    HandledIsCovered(hash, net, source, path, |path| - VICINITY_RADIUS, now);
  }

  /** While no link fails, a request started along a path of n > R nodes is handled by exactly
      its first n - R nodes, in order, and each of them, and nobody else, installs its entry. */
  lemma {:induction false} SetupCoversPrefix(hash: Hasher, net: Network, source: NodeId, path: Path, sourceKnown: bool,
                                             now: nat)
    requires Injective(hash) && Healthy(hash, net) && Linked(net, source, path) && |path| > VICINITY_RADIUS
    ensures var d := RunSetup(RegisterAll(hash, now), net, NewRoute(source, path), sourceKnown);
            && d.end == Stopped && d.handledBy == path[..|path| - VICINITY_RADIUS]
            && Covered(hash, net, d.net, path, |path| - VICINITY_RADIUS)
            && Healthy(hash, d.net)
  {
    RegisterAllKeepsLinks(hash, now);
    LinkedRunEnds(RegisterAll(hash, now), net, source, path, sourceKnown);
    HealthyIsCovered(hash, net, source, path, now);
    SetupKeepsHealthy(hash, net, NewRoute(source, path), sourceKnown, now);
  }

  // ---------- packets ----------

  datatype Trip = Trip(visited: seq<NodeId>, delivered: bool)

  /** A labelled packet is forwarded from table to table until it is decapsulated. */
  function Travel(net: Network, wire: (NodeId, UnderlayId) -> NodeId, at: NodeId, tag: PathId, hopLimit: nat): Trip
    decreases hopLimit
  {
    if at !in net || tag !in net[at].table then Trip([at], false)
    else
      match net[at].table[tag]
      case Decapsulate(_) => Trip([at], true)
      case Forward(_, outId, nextHop) =>
        if hopLimit == 0 then Trip([at], false)
        else
          var rest := Travel(net, wire, wire(at, nextHop), outId, hopLimit - 1);
          Trip([at] + rest.visited, rest.delivered)
  }

  /** An underlay connection of u recorded for v leads to v. */
  ghost predicate Wired(net: Network, wire: (NodeId, UnderlayId) -> NodeId) {
    forall u, v :: u in net && v in net[u].uln ==> wire(u, net[u].uln[v]) == v
  }

  /** Each node whose way to the end of the path lies inside its vicinity precomputed it. */
  ghost predicate SuffixesPrecomputed(hash: Hasher, net: Network, path: Path) {
    forall k :: 0 <= k < |path| - 1 && |path| - k <= VICINITY_RADIUS ==> SuffixPrecomputed(hash, net, path, k)
  }

  predicate SuffixPrecomputed(hash: Hasher, net: Network, path: Path, k: nat)
    requires k < |path| - 1
  {
    && path[k] in net && path[k + 1] in net[path[k]].uln
    && EntryFor(hash, path[k..], net[path[k]].uln[path[k + 1]]) in net[path[k]].node.vicinity
  }

  lemma {:induction false} InstalledPathIsFollowed(hash: Hasher, net: Network, wire: (NodeId, UnderlayId) -> NodeId,
                                                   path: Path, i: nat, hopLimit: nat)
    requires i < |path| && hopLimit >= |path| - 1 - i && Wired(net, wire)
    requires forall k :: 0 <= k < |path| - 1 ==> EntryInstalled(hash, net, path, k)
    requires var last := path[|path| - 1];
             last in net && hash([last]) in net[last].table && net[last].table[hash([last])].Decapsulate?
    ensures Travel(net, wire, path[i], hash(path[i..]), hopLimit) == Trip(path[i..], true)
    decreases |path| - i
  {
    if i < |path| - 1 {
      assert EntryInstalled(hash, net, path, i);
      assert path[i..][1..] == path[i + 1..];
      InstalledPathIsFollowed(hash, net, wire, path, i + 1, hopLimit - 1);
      assert path[i..] == [path[i]] + path[i + 1..];
    } else {
      assert path[i..] == [path[i]];
    }
  }

  lemma VicinityEntryIsInstalled(hash: Hasher, net: Network, path: Path, k: nat)
    requires k < |path| - 1 && Healthy(hash, net) && SuffixPrecomputed(hash, net, path, k)
    ensures EntryInstalled(hash, net, path, k)
  {
    assert Running(hash, path[k], net[path[k]]);
  }

  lemma LastHopDecapsulates(hash: Hasher, net: Network, u: NodeId)
    requires Healthy(hash, net) && u in net
    ensures hash([u]) in net[u].table && net[u].table[hash([u])].Decapsulate?
  {
    assert Running(hash, u, net[u]);
  }

  /** The network once the setup for a path, needed only outside the vicinity, is done. */
  function AfterSetup(hash: Hasher, net: Network, source: NodeId, path: Path, sourceKnown: bool, now: nat): Network
    requires path != []
  {
    if |path| > VICINITY_RADIUS then
      RunSetup(RegisterAll(hash, now), net, NewRoute(source, path), sourceKnown).net
    else net
  }

  /** A setup complements what the vicinities already hold to a complete path. */
  lemma SetupCompletesPath(hash: Hasher, net: Network, net': Network, path: Path, k: nat)
    requires SuffixesPrecomputed(hash, net, path) && k < |path| - 1 && Healthy(hash, net')
    requires if |path| > VICINITY_RADIUS then Covered(hash, net, net', path, |path| - VICINITY_RADIUS) else net' == net
    ensures EntryInstalled(hash, net', path, k)
  {
    if |path| - k <= VICINITY_RADIUS {
      assert SuffixPrecomputed(hash, net, path, k);
      if |path| > VICINITY_RADIUS {
        assert Restricted(hash, net, net', path, |path| - VICINITY_RADIUS, path[k]);
      }
      VicinityEntryIsInstalled(hash, net', path, k);
    }
  }

  /** End to end: whatever else the tables hold, a packet labelled with the digest of a path
      visits exactly the nodes of the path, in order, and is decapsulated at its last node. */
  lemma {:induction false} LabelledPacketFollowsPath(hash: Hasher, net: Network, wire: (NodeId, UnderlayId) -> NodeId,
      source: NodeId, path: Path, sourceKnown: bool, now: nat, hopLimit: nat)
    requires path != [] && Injective(hash) && Healthy(hash, net) && Linked(net, source, path) && Wired(net, wire)
    requires SuffixesPrecomputed(hash, net, path) && hopLimit >= |path| - 1
    ensures Travel(AfterSetup(hash, net, source, path, sourceKnown, now), wire, path[0], hash(path), hopLimit)
         == Trip(path, true)
  {
    var net' := AfterSetup(hash, net, source, path, sourceKnown, now);
    if |path| > VICINITY_RADIUS {
      SetupCoversPrefix(hash, net, source, path, sourceKnown, now);
    }
    forall k | 0 <= k < |path| - 1 ensures EntryInstalled(hash, net', path, k) {
      SetupCompletesPath(hash, net, net', path, k);
    }
    assert LinkedAt(net, source, path, |path| - 1);
    LastHopDecapsulates(hash, net', path[|path| - 1]);
    InstalledPathIsFollowed(hash, net', wire, path, 0, hopLimit);
    assert path[0..] == path;
  }

  /** A precomputation whose graph knows the way supplies the entry the delivery needs. */
  lemma PrecomputeSuppliesSuffix(hash: Hasher, net: Network, path: Path, k: nat, n: Node, paths: set<Path>,
                                 out: seq<Update>)
    requires k < |path| - 1 && path[k] in net && path[k + 1] in net[path[k]].uln && path[k..] in paths
    requires NodeStep(hash, path[k], n, Precompute(paths, net[path[k]].uln), net[path[k]].node, out)
    ensures SuffixPrecomputed(hash, net, path, k)
  {
    assert path[k..][1] == path[k + 1];
  }

  // ---------- from the source ----------

  datatype NodeIdEntry =
    | ToNeighbor(destination: NodeId, nextHop: UnderlayId)
    | Encapsulate(destination: NodeId, nextHop: UnderlayId, outId: PathId)

  datatype Derived = Entry(entry: NodeIdEntry) | NeighborNotInUlnTable(neighbor: NodeId) | NonNeighborInUlnTable

  /** The node-id entry for a contact, from its active path. */
  function DeriveNodeIdEntry(hash: Hasher, uln: UlnTable, id: NodeId, path: Path): Derived
    requires path != []
  {
    if path[0] !in uln then NeighborNotInUlnTable(path[0])
    else if id in uln && |path| != 1 then NonNeighborInUlnTable
    else if |path| == 1 then Entry(ToNeighbor(id, uln[path[0]]))
    else Entry(Encapsulate(id, uln[path[0]], hash(path)))
  }

  function Send(net: Network, wire: (NodeId, UnderlayId) -> NodeId, source: NodeId, entry: NodeIdEntry,
                hopLimit: nat): Trip {
    var first := wire(source, entry.nextHop);
    match entry
    case ToNeighbor(destination, _) => Trip([source, first], first == destination)
    case Encapsulate(_, _, outId) =>
      var rest := Travel(net, wire, first, outId, hopLimit);
      Trip([source] + rest.visited, rest.delivered)
  }

  /** A packet for a contact, sent by the derived entry once the contact's path is set up,
      goes over exactly the contact's path and is delivered at the contact. */
  lemma PacketReachesContact(hash: Hasher, net: Network, wire: (NodeId, UnderlayId) -> NodeId, source: NodeId,
                             id: NodeId, path: Path, sourceKnown: bool, now: nat, hopLimit: nat)
    requires path != [] && path[|path| - 1] == id
    requires Injective(hash) && Healthy(hash, net) && Linked(net, source, path) && Wired(net, wire)
    requires SuffixesPrecomputed(hash, net, path) && hopLimit >= |path| - 1
    requires source in net && path[0] in net[source].uln && (id in net[source].uln ==> |path| == 1)
    ensures var derived := DeriveNodeIdEntry(hash, net[source].uln, id, path);
            && derived.Entry?
            && Send(AfterSetup(hash, net, source, path, sourceKnown, now), wire, source, derived.entry, hopLimit)
                 == Trip([source] + path, true)
  {
    LabelledPacketFollowsPath(hash, net, wire, source, path, sourceKnown, now, hopLimit);
    assert |path| == 1 ==> [source, path[0]] == [source] + path;
  }
}
