/** How long explicit paths live: over every history of a node, in terms of the times of its events. */
module PathLifetimes {
  import opened NodeIds
  import opened FwdTables
  import opened PathWriters
  import opened ForwardingNode

  /** A setup or probe for the path, outside the vicinity, whose next node is a neighbour. */
  predicate Registers(ev: Event, path: Path) {
    match ev
    case Setup(ahead, uln, _) => ahead == path && |path| > VICINITY_RADIUS && path[1] in uln
    case Probe(ahead, uln, _) => ahead == path && |path| > VICINITY_RADIUS && path[1] in uln
    case _ => false
  }

  /** The i-th event is the latest one that registered the path. */
  predicate LatestAt(run: seq<Transition>, path: Path, i: nat) {
    && i < |run| && Registers(run[i].event, path)
    && forall j :: i < j < |run| ==> !Registers(run[j].event, path)
  }

  /** The time lies the maximal age of the cleanup back, or longer. */
  predicate Outlived(cleanup: Event, since: nat)
    requires cleanup.Cleanup?
  {
    since + cleanup.maxAge <= cleanup.now || cleanup.maxAge == 0
  }

  /** What one event does to the record of a path. */
  lemma RecordStep(hash: Hasher, root: NodeId, n: Node, ev: Event, n': Node, out: seq<Update>, path: Path)
    requires Injective(hash) && NodeStep(hash, root, n, ev, n', out) && hash(path) in n'.external
    ensures if Registers(ev, path) then n'.external[hash(path)].lastSeen == ev.now
            else hash(path) in n.external && n'.external[hash(path)] == n.external[hash(path)]
  {
    if ev.Setup? || ev.Probe? {
      if ev.ahead != path { assert !SameId(hash, ev.ahead, path); }
    }
  }

  /** The time recorded for a path is that of the latest setup or probe that registered it. */
  lemma {:induction false} LastSeenIsLatest(hash: Hasher, root: NodeId, run: seq<Transition>, path: Path)
    returns (i: nat)
    requires Injective(hash) && IsHistory(hash, root, run) && hash(path) in NodeAfter(run).external
    ensures LatestAt(run, path, i) && NodeAfter(run).external[hash(path)].lastSeen == run[i].event.now
  {
    var init, last := run[..|run| - 1], run[|run| - 1];
    RecordStep(hash, root, NodeAfter(init), last.event, last.after, last.out, path);
    if Registers(last.event, path) {
      i := |run| - 1;
    } else {
      i := LastSeenIsLatest(hash, root, init, path);
    }
  }

  /** A cleanup removes exactly the paths whose latest setup or probe lies the maximal age back, or longer;
      all others stay as they are. */
  lemma {:induction false} CleanupRemovesExactly(hash: Hasher, root: NodeId, run: seq<Transition>, path: Path, i: nat)
    requires Injective(hash) && IsHistory(hash, root, run) && run != [] && run[|run| - 1].event.Cleanup?
    requires LatestAt(run, path, i) && hash(path) in NodeAfter(run[..|run| - 1]).external
    ensures hash(path) !in NodeAfter(run).external <==> Outlived(run[|run| - 1].event, run[i].event.now)
  {
    var init, last := run[..|run| - 1], run[|run| - 1];
    var k := LastSeenIsLatest(hash, root, init, path);
    assert LatestAt(run, path, k) && k == i;
  }

  /** A registration, and nothing else, brings a path back; then it is there. */
  lemma RegisteredExactlyWhen(hash: Hasher, root: NodeId, n: Node, ev: Event, n': Node, out: seq<Update>, path: Path)
    requires Injective(hash) && NodeStep(hash, root, n, ev, n', out) && hash(path) !in n.external
    ensures hash(path) in n'.external <==> Registers(ev, path)
  {
    if ev.Setup? || ev.Probe? {
      if ev.ahead != path { assert !SameId(hash, ev.ahead, path); }
    }
  }
}
