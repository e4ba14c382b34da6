/** A PathSetupReq on its way while everything else goes on: between any two of its hops every node may
    handle any event of any of its writers, and links elsewhere may change. */
module SetupInterleaving {
  import opened NodeIds
  import opened FwdTables
  import opened PathWriters
  import opened ForwardingNode
  import opened LabelForwarding

  /** The network, and how many nodes of the path have handled the request. */
  datatype System = System(net: Network, handled: nat)

  datatype Action = Hop(now: nat) | Writes(at: NodeId, event: Event) | Relinks(at: NodeId)

  predicate UsesTable(ev: Event, uln: UlnTable) {
    match ev
    case Setup(_, used, _) => used == uln
    case Probe(_, used, _) => used == uln
    case Precompute(_, used) => used == uln
    case _ => true
  }

  /** A node handles an event, and its table takes the updates. */
  ghost predicate SiteStep(hash: Hasher, u: NodeId, site: Site, ev: Event, site': Site) {
    && site'.uln == site.uln && UsesTable(ev, site.uln)
    && exists out :: NodeStep(hash, u, site.node, ev, site'.node, out) && Replay(site.table, out) == Done(site'.table)
  }

  ghost predicate OnlyAt(net: Network, net': Network, at: NodeId) {
    at in net && net'.Keys == net.Keys && forall u :: u in net && u != at ==> net'[u] == net[u]
  }

  /** The event does not let the path expire, take it down with a neighbour, or forget the way to its end. */
  predicate Spares(hash: Hasher, node: Node, ev: Event, suffix: Path) {
    match ev
    case Cleanup(now, maxAge) => hash(suffix) !in Expired(node.external, now, maxAge)
    case NeighborDown(neighbor) => hash(suffix) !in RecordedVia(node.external, neighbor)
    case Precompute(paths, _) => |suffix| <= VICINITY_RADIUS ==> suffix in paths
    case _ => true
  }

  ghost predicate SparesPath(hash: Hasher, net: Network, at: NodeId, ev: Event, path: Path)
    requires at in net
  {
    forall k {:trigger Spares(hash, net[at].node, ev, path[k..])} ::
      0 <= k < |path| - 1 && path[k] == at ==> Spares(hash, net[at].node, ev, path[k..])
  }

  /** Only the neighbours of one node change, and not the one that is next on the path. */
  ghost predicate Relinked(net: Network, net': Network, at: NodeId, path: Path) {
    && OnlyAt(net, net', at) && net'[at].node == net[at].node && net'[at].table == net[at].table
    && forall k :: 0 <= k < |path| - 1 && path[k] == at && path[k + 1] in net[at].uln ==>
        SameNext(net[at].uln, net'[at].uln, path[k + 1])
  }

  predicate SameNext(uln: UlnTable, uln': UlnTable, next: NodeId)
    requires next in uln
  {
    next in uln' && uln'[next] == uln[next]
  }

  ghost predicate SystemStep(hash: Hasher, source: NodeId, path: Path, s: System, a: Action, s': System) {
    match a
    case Hop(now) =>
      && s.handled + VICINITY_RADIUS < |path| && LinkedAt(s.net, source, path, s.handled)
      && s' == System(RegisterAt(hash, s.net, path[s.handled], path[s.handled..], now), s.handled + 1)
    case Writes(at, ev) =>
      && s'.handled == s.handled && OnlyAt(s.net, s'.net, at)
      && SiteStep(hash, at, s.net[at], ev, s'.net[at]) && SparesPath(hash, s.net, at, ev, path)
    case Relinks(at) => s'.handled == s.handled && Relinked(s.net, s'.net, at, path)
  }

  /** Every table keeps to its writers, the nodes that handled the request have their entries, and those
      near the end of the path have theirs from the precomputation. */
  ghost predicate SetUp(hash: Hasher, path: Path, s: System) {
    && Healthy(hash, s.net) && SuffixesPrecomputed(hash, s.net, path)
    && s.handled + VICINITY_RADIUS <= |path|
    && forall k :: 0 <= k < s.handled ==> EntryInstalled(hash, s.net, path, k)
  }

  // ---------- one node ----------

  lemma SiteKeepsRunning(hash: Hasher, u: NodeId, site: Site, ev: Event, site': Site)
    requires Injective(hash) && Running(hash, u, site) && SiteStep(hash, u, site, ev, site')
    ensures Running(hash, u, site')
  {
    var out :| NodeStep(hash, u, site.node, ev, site'.node, out) && Replay(site.table, out) == Done(site'.table);
    var t := StepKeepsInv(hash, u, site.node, site.table, ev, site'.node, out);
  }

  predicate Holds(hash: Hasher, site: Site, suffix: Path)
    requires |suffix| >= 2
  {
    && suffix[1] in site.uln && hash(suffix) in site.table
    && site.table[hash(suffix)] == EntryFor(hash, suffix, site.uln[suffix[1]])
  }

  lemma {:induction false} RegisterWrites(hash: Hasher, u: NodeId, node: Node, t: Table, ahead: Path, uln: UlnTable,
                                          now: nat, node': Node, out: seq<Update>)
    requires Injective(hash) && Inv(hash, u, node, t) && node.started && |ahead| > VICINITY_RADIUS
    requires RegisterStep(hash, node, ahead, uln, now, node', out)
    ensures Replay(t, out) == Done(TableWith(hash, t, ahead, uln))
  {
    RegisterKeepsInv(hash, u, node, t, ahead, uln, now, node', out);
  }

  lemma WriteSpares(hash: Hasher, t: Table, ahead: Path, uln: UlnTable, suffix: Path)
    requires Injective(hash) && |ahead| > VICINITY_RADIUS && |suffix| > VICINITY_RADIUS && suffix[1] in uln
    requires hash(suffix) in t && t[hash(suffix)] == EntryFor(hash, suffix, uln[suffix[1]])
    ensures var t' := TableWith(hash, t, ahead, uln);
            hash(suffix) in t' && t'[hash(suffix)] == EntryFor(hash, suffix, uln[suffix[1]])
  {
    if hash(ahead) == hash(suffix) { assert SameId(hash, ahead, suffix); }
  }

  lemma {:induction false} RegisterSpares(hash: Hasher, u: NodeId, site: Site, ahead: Path, now: nat, site': Site,
                                          out: seq<Update>, suffix: Path)
    requires Injective(hash) && Running(hash, u, site) && |ahead| > VICINITY_RADIUS && |suffix| > VICINITY_RADIUS
    requires RegisterStep(hash, site.node, ahead, site.uln, now, site'.node, out) && site'.uln == site.uln
    requires Replay(site.table, out) == Done(site'.table) && Holds(hash, site, suffix)
    ensures Holds(hash, site', suffix)
  {
    RegisterWrites(hash, u, site.node, site.table, ahead, site.uln, now, site'.node, out);
    WriteSpares(hash, site.table, ahead, site.uln, suffix);
  }

  lemma {:induction false} RemovalSpares(hash: Hasher, u: NodeId, site: Site, ids: set<PathId>, site': Site,
                                         out: seq<Update>, suffix: Path)
    requires Injective(hash) && Running(hash, u, site) && |suffix| > VICINITY_RADIUS && ids <= site.node.external.Keys
    requires RemovalStep(site.node, ids, site'.node, out) && site'.uln == site.uln && hash(suffix) !in ids
    requires Replay(site.table, out) == Done(site'.table) && Holds(hash, site, suffix)
    ensures Holds(hash, site', suffix)
  {
    RemovalKeepsInv(hash, u, site.node, site.table, ids, site'.node, out);
  }

  lemma {:induction false} PrecomputeSpares(hash: Hasher, u: NodeId, site: Site, paths: set<Path>, site': Site,
                                            out: seq<Update>, suffix: Path)
    requires Injective(hash) && Running(hash, u, site) && |suffix| > VICINITY_RADIUS
    requires NodeStep(hash, u, site.node, Precompute(paths, site.uln), site'.node, out) && site'.uln == site.uln
    requires Replay(site.table, out) == Done(site'.table) && Holds(hash, site, suffix)
    ensures Holds(hash, site', suffix)
  {
    ExplicitIdIsFree(hash, u, site.node, site.table, suffix);
    var t := PrecomputeKeepsInv(hash, u, site.node, site.table, paths, site.uln, site'.node, out);
    assert hash(suffix) in site.node.external;
  }

  /** An explicit entry survives every event that spares its path, whatever the event is about. */
  lemma ExplicitSurvives(hash: Hasher, u: NodeId, site: Site, ev: Event, site': Site, suffix: Path)
    requires Injective(hash) && Running(hash, u, site) && SiteStep(hash, u, site, ev, site')
    requires |suffix| > VICINITY_RADIUS && Spares(hash, site.node, ev, suffix) && Holds(hash, site, suffix)
    ensures Holds(hash, site', suffix)
  {
    var out :| NodeStep(hash, u, site.node, ev, site'.node, out) && Replay(site.table, out) == Done(site'.table);
    match ev
    case Start =>
    case Setup(ahead, _, now) => RegisterSpares(hash, u, site, ahead, now, site', out, suffix);
    case Probe(ahead, _, now) =>
      if |ahead| > VICINITY_RADIUS { RegisterSpares(hash, u, site, ahead, now, site', out, suffix); }
    case Cleanup(now, maxAge) =>
      RemovalSpares(hash, u, site, Expired(site.node.external, now, maxAge), site', out, suffix);
    case NeighborDown(neighbor) =>
      RemovalSpares(hash, u, site, RecordedVia(site.node.external, neighbor), site', out, suffix);
    case Precompute(paths, _) => PrecomputeSpares(hash, u, site, paths, site', out, suffix);
  }

  /** So does a precomputed one. */
  lemma PrecomputedSurvives(hash: Hasher, u: NodeId, site: Site, ev: Event, site': Site, suffix: Path)
    requires SiteStep(hash, u, site, ev, site') && 2 <= |suffix| <= VICINITY_RADIUS
    requires Spares(hash, site.node, ev, suffix) && suffix[1] in site.uln
    requires EntryFor(hash, suffix, site.uln[suffix[1]]) in site.node.vicinity
    ensures EntryFor(hash, suffix, site.uln[suffix[1]]) in site'.node.vicinity
  {
  }

  // ---------- the network ----------

  lemma InstalledIsHeld(hash: Hasher, net: Network, path: Path, k: nat)
    requires k + 1 < |path|
    ensures EntryInstalled(hash, net, path, k) <==> path[k] in net && Holds(hash, net[path[k]], path[k..])
  {
    assert path[k..][1] == path[k + 1];
  }

  lemma WritesKeepHealthy(hash: Hasher, net: Network, at: NodeId, ev: Event, net': Network)
    requires Injective(hash) && Healthy(hash, net) && OnlyAt(net, net', at) && SiteStep(hash, at, net[at], ev, net'[at])
    ensures Healthy(hash, net')
  {
    forall u | u in net' ensures Running(hash, u, net'[u]) {
      assert Running(hash, u, net[u]);
      if u == at { SiteKeepsRunning(hash, at, net[at], ev, net'[at]); }
    }
  }

  lemma WritesKeepEntry(hash: Hasher, net: Network, at: NodeId, ev: Event, net': Network, path: Path, k: nat)
    requires Injective(hash) && Healthy(hash, net) && OnlyAt(net, net', at) && SiteStep(hash, at, net[at], ev, net'[at])
    requires SparesPath(hash, net, at, ev, path) && |path| - k > VICINITY_RADIUS && EntryInstalled(hash, net, path, k)
    ensures EntryInstalled(hash, net', path, k)
  {
    InstalledIsHeld(hash, net, path, k);
    InstalledIsHeld(hash, net', path, k);
    if path[k] == at {
      assert Running(hash, at, net[at]);
      assert Spares(hash, net[at].node, ev, path[k..]);
      ExplicitSurvives(hash, at, net[at], ev, net'[at], path[k..]);
    }
  }

  lemma WritesKeepPrecomputed(hash: Hasher, net: Network, at: NodeId, ev: Event, net': Network, path: Path, k: nat)
    requires OnlyAt(net, net', at) && SiteStep(hash, at, net[at], ev, net'[at]) && SparesPath(hash, net, at, ev, path)
    requires k < |path| - 1 && |path| - k <= VICINITY_RADIUS && SuffixPrecomputed(hash, net, path, k)
    ensures SuffixPrecomputed(hash, net', path, k)
  {
    assert path[k..][1] == path[k + 1];
    if path[k] == at {
      assert Spares(hash, net[at].node, ev, path[k..]);
      PrecomputedSurvives(hash, at, net[at], ev, net'[at], path[k..]);
    }
  }

  lemma WritesKeepSetUp(hash: Hasher, path: Path, s: System, at: NodeId, ev: Event, s': System)
    requires Injective(hash) && SetUp(hash, path, s) && s'.handled == s.handled && OnlyAt(s.net, s'.net, at)
    requires SiteStep(hash, at, s.net[at], ev, s'.net[at]) && SparesPath(hash, s.net, at, ev, path)
    ensures SetUp(hash, path, s')
  {
    WritesKeepHealthy(hash, s.net, at, ev, s'.net);
    forall k | 0 <= k < s.handled ensures EntryInstalled(hash, s'.net, path, k) {
      assert EntryInstalled(hash, s.net, path, k);
      WritesKeepEntry(hash, s.net, at, ev, s'.net, path, k);
    }
    forall k | 0 <= k < |path| - 1 && |path| - k <= VICINITY_RADIUS ensures SuffixPrecomputed(hash, s'.net, path, k) {
      assert SuffixPrecomputed(hash, s.net, path, k);
      WritesKeepPrecomputed(hash, s.net, at, ev, s'.net, path, k);
    }
  }

  lemma RelinkKeepsSetUp(hash: Hasher, path: Path, s: System, at: NodeId, s': System)
    requires SetUp(hash, path, s) && s'.handled == s.handled && Relinked(s.net, s'.net, at, path)
    ensures SetUp(hash, path, s')
  {
    forall u | u in s'.net ensures Running(hash, u, s'.net[u]) {
      assert Running(hash, u, s.net[u]);
    }
    forall k | 0 <= k < s.handled ensures EntryInstalled(hash, s'.net, path, k) {
      assert EntryInstalled(hash, s.net, path, k);
      if path[k] == at { assert SameNext(s.net[at].uln, s'.net[at].uln, path[k + 1]); }
    }
    forall k | 0 <= k < |path| - 1 && |path| - k <= VICINITY_RADIUS ensures SuffixPrecomputed(hash, s'.net, path, k) {
      assert SuffixPrecomputed(hash, s.net, path, k);
      if path[k] == at { assert SameNext(s.net[at].uln, s'.net[at].uln, path[k + 1]); }
    }
  }

  lemma HopKeepsEntry(hash: Hasher, net: Network, net': Network, path: Path, k: nat, j: nat)
    requires k + 1 < |path| && j < k && SuffixIdsDiffer(hash, path)
    requires OneMore(hash, net, net', path, k) && EntryInstalled(hash, net, path, j)
    ensures EntryInstalled(hash, net', path, j)
  {
    assert hash(path[j..]) != hash(path[k..]);
  }

  lemma HopKeepsPrecomputed(hash: Hasher, net: Network, net': Network, path: Path, k: nat, j: nat)
    requires k + 1 < |path| && j < |path| - 1 && OneMore(hash, net, net', path, k)
             && SuffixPrecomputed(hash, net, path, j)
    ensures SuffixPrecomputed(hash, net', path, j)
  {
  }

  lemma HopKeepsSetUp(hash: Hasher, source: NodeId, path: Path, s: System, now: nat, s': System)
    requires Injective(hash) && SetUp(hash, path, s) && SystemStep(hash, source, path, s, Hop(now), s')
    ensures SetUp(hash, path, s')
  {
    var k := s.handled;
    RegisteringKeepsHealthy(hash, s.net, path[k], path[k..], now);
    HealthySuffixesAgree(hash, s.net, path);
    SuffixesHaveOwnIds(hash, path);
    RegistersOneMore(hash, s.net, path, k, now);
    forall j | 0 <= j < k ensures EntryInstalled(hash, s'.net, path, j) {
      assert EntryInstalled(hash, s.net, path, j);
      HopKeepsEntry(hash, s.net, s'.net, path, k, j);
    }
    forall j | 0 <= j < |path| - 1 && |path| - j <= VICINITY_RADIUS ensures SuffixPrecomputed(hash, s'.net, path, j) {
      assert SuffixPrecomputed(hash, s.net, path, j);
      HopKeepsPrecomputed(hash, s.net, s'.net, path, k, j);
    }
  }

  // ---------- whole runs ----------

  ghost predicate IsRun(hash: Hasher, source: NodeId, path: Path, states: seq<System>, actions: seq<Action>) {
    && |states| == |actions| + 1
    && forall i :: 0 <= i < |actions| ==> SystemStep(hash, source, path, states[i], actions[i], states[i + 1])
  }

  /** At every point of every run the nodes that handled the request hold their entries. */
  lemma {:induction false} EveryRunIsSetUp(hash: Hasher, source: NodeId, path: Path, states: seq<System>,
                                           actions: seq<Action>, i: nat)
    requires Injective(hash) && IsRun(hash, source, path, states, actions) && SetUp(hash, path, states[0])
             && i < |states|
    ensures SetUp(hash, path, states[i])
  {
    if i > 0 {
      EveryRunIsSetUp(hash, source, path, states, actions, i - 1);
      var s, a, s' := states[i - 1], actions[i - 1], states[i - 1 + 1];
      assert SystemStep(hash, source, path, s, a, s');
      match a
      case Hop(now) => HopKeepsSetUp(hash, source, path, s, now, s');
      case Writes(at, ev) => WritesKeepSetUp(hash, path, s, at, ev, s');
      case Relinks(at) => RelinkKeepsSetUp(hash, path, s, at, s');
    }
  }

  /** However the hops of the request and all other events interleave, once the request has stopped a
      packet labelled with the digest of the path visits exactly the path and is decapsulated at its end,
      and goes on doing so for as long as no event takes the path down. */
  lemma {:induction false} InterleavedSetupDelivers(hash: Hasher, wire: (NodeId, UnderlayId) -> NodeId, source: NodeId,
      path: Path, states: seq<System>, actions: seq<Action>, i: nat, hopLimit: nat)
    requires Injective(hash) && |path| > VICINITY_RADIUS && hopLimit >= |path| - 1
    requires IsRun(hash, source, path, states, actions) && i < |states|
    requires Healthy(hash, states[0].net) && SuffixesPrecomputed(hash, states[0].net, path) && states[0].handled == 0
    requires states[i].handled + VICINITY_RADIUS == |path| && Wired(states[i].net, wire)
             && path[|path| - 1] in states[i].net
    ensures Travel(states[i].net, wire, path[0], hash(path), hopLimit) == Trip(path, true)
  {
    EveryRunIsSetUp(hash, source, path, states, actions, i);
    var net := states[i].net;
    forall k | 0 <= k < |path| - 1 ensures EntryInstalled(hash, net, path, k) {
      if k >= states[i].handled {
        assert SuffixPrecomputed(hash, net, path, k);
        VicinityEntryIsInstalled(hash, net, path, k);
      }
    }
    LastHopDecapsulates(hash, net, path[|path| - 1]);
    InstalledPathIsFollowed(hash, net, wire, path, 0, hopLimit);
    assert path[0..] == path;
  }
}
