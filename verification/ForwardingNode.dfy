/** One node with its three writers of path-id entries, and the table their updates build. */
module ForwardingNode {
  import opened NodeIds
  import opened FwdTables
  import opened PathWriters

  datatype Node = Node(started: bool, external: External, vicinity: set<PathIdEntry>)

  datatype Event =
    | Start
    | Setup(ahead: Path, uln: UlnTable, now: nat)
    | Probe(ahead: Path, uln: UlnTable, now: nat)
    | Cleanup(now: nat, maxAge: nat)
    | NeighborDown(neighbor: UnderlayId)
    | Precompute(paths: set<Path>, uln: UlnTable)

  const Fresh := Node(false, map[], {})

  function DecapEntry(hash: Hasher, root: NodeId): PathIdEntry {
    Decapsulate(hash([root]))
  }

  /** The node handles one event and emits updates. Only one start is ever done. */
  ghost predicate NodeStep(hash: Hasher, root: NodeId, n: Node, ev: Event, n': Node, out: seq<Update>) {
    match ev
    case Start =>
      !n.started && n' == n.(started := true) && out == [Create(DecapEntry(hash, root))]
    case Setup(ahead, uln, now) =>
      n.started && |ahead| > VICINITY_RADIUS && RegisterStep(hash, n, ahead, uln, now, n', out)
    case Probe(ahead, uln, now) =>
      n.started && (if |ahead| > VICINITY_RADIUS then RegisterStep(hash, n, ahead, uln, now, n', out)
                    else n' == n && out == [])
    case Cleanup(now, maxAge) =>
      n.started && RemovalStep(n, Expired(n.external, now, maxAge), n', out)
    case NeighborDown(neighbor) =>
      n.started && RemovalStep(n, RecordedVia(n.external, neighbor), n', out)
    case Precompute(paths, uln) =>
      && n.started && VicinityPaths(paths, root)
      && n' == n.(vicinity := EntriesFromGraph(hash, paths, uln))
      && PrecomputeOutput(out, n.vicinity, n'.vicinity)
  }

  ghost predicate RegisterStep(hash: Hasher, n: Node, ahead: Path, uln: UlnTable, now: nat, n': Node, out: seq<Update>)
    requires |ahead| > VICINITY_RADIUS
  {
    && n' == n.(external := Registered(hash, n.external, ahead, uln, now))
    && out == RegisterOutput(hash, n.external, ahead, uln)
  }

  ghost predicate RemovalStep(n: Node, ids: set<PathId>, n': Node, out: seq<Update>) {
    n' == n.(external := n.external - ids) && RemovesExactly(out, ids)
  }

  // ---------- who owns which path id ----------

  ghost predicate ExplicitEntry(hash: Hasher, e: PathIdEntry) {
    e.Forward? && exists p: Path :: |p| > VICINITY_RADIUS && e == EntryFor(hash, p, e.nextHop)
  }

  ghost predicate VicinityEntry(hash: Hasher, root: NodeId, e: PathIdEntry) {
    e.Forward? && exists p: Path :: 2 <= |p| <= VICINITY_RADIUS && p[0] == root && e == EntryFor(hash, p, e.nextHop)
  }

  /** The three writers own disjoint path ids: those of one node, of 2..R, and of more. */
  lemma WritersOwnDisjointIds(hash: Hasher, root: NodeId, e: PathIdEntry, f: PathIdEntry)
    requires Injective(hash)
    ensures ExplicitEntry(hash, e) && VicinityEntry(hash, root, f) ==> e.inId != f.inId
    ensures ExplicitEntry(hash, e) ==> e.inId != hash([root])
    ensures VicinityEntry(hash, root, f) ==> f.inId != hash([root])
  {
    if ExplicitEntry(hash, e) {
      var p: Path :| |p| > VICINITY_RADIUS && e == EntryFor(hash, p, e.nextHop);
      assert !SameId(hash, p, [root]);
      if VicinityEntry(hash, root, f) {
        var q: Path :| 2 <= |q| <= VICINITY_RADIUS && q[0] == root && f == EntryFor(hash, q, f.nextHop);
        assert !SameId(hash, p, q);
      }
    }
    if VicinityEntry(hash, root, f) {
      var q: Path :| 2 <= |q| <= VICINITY_RADIUS && q[0] == root && f == EntryFor(hash, q, f.nextHop);
      assert !SameId(hash, q, [root]);
    }
  }

  lemma ExplicitEntriesAgreeOnOutId(hash: Hasher, e: PathIdEntry, p: Path, nextHop: UnderlayId)
    requires Injective(hash) && ExplicitEntry(hash, e) && |p| > VICINITY_RADIUS && e.inId == hash(p)
    ensures e.outId == EntryFor(hash, p, nextHop).outId
  {
    var q: Path :| |q| > VICINITY_RADIUS && e == EntryFor(hash, q, e.nextHop);
    assert SameId(hash, p, q);
  }

  // ---------- the invariant ----------

  /** The table holds exactly the entry that ends paths here, the explicit entries (up to
      their next hop) and the precomputed entries. */
  ghost predicate Inv(hash: Hasher, root: NodeId, n: Node, t: Table) {
    if !n.started then n == Fresh && t == map[]
    else
      && t.Keys == {hash([root])} + n.external.Keys + Ids(n.vicinity)
      && t[hash([root])] == DecapEntry(hash, root)
      && ExplicitOk(hash, n.external, t)
      && VicinityOk(hash, root, n.vicinity, t)
  }

  ghost predicate ExplicitOk(hash: Hasher, external: External, t: Table) {
    forall id :: id in external ==> ExplicitInTable(hash, id, external[id], t)
  }

  ghost predicate ExplicitInTable(hash: Hasher, id: PathId, soft: Soft, t: Table) {
    && soft.entry.inId == id && ExplicitEntry(hash, soft.entry)
    && id in t && t[id].Forward? && t[id].inId == id && t[id].outId == soft.entry.outId
  }

  ghost predicate VicinityOk(hash: Hasher, root: NodeId, vicinity: set<PathIdEntry>, t: Table) {
    && OneEntryPerId(vicinity)
    && (forall e :: e in vicinity ==> VicinityEntry(hash, root, e) && e.inId in t && t[e.inId] == e)
  }

  lemma ExplicitOkAfterWrite(hash: Hasher, external: External, t: Table, entry: PathIdEntry, soft: Soft)
    requires ExplicitOk(hash, external, t) && entry.Forward?
    requires ExplicitInTable(hash, entry.inId, soft, map[entry.inId := entry])
    ensures ExplicitOk(hash, external[entry.inId := soft], t[entry.inId := entry])
  {
    var external', t' := external[entry.inId := soft], t[entry.inId := entry];
    forall id | id in external' ensures ExplicitInTable(hash, id, external'[id], t') {
      if id != entry.inId { assert ExplicitInTable(hash, id, external[id], t); }
    }
  }

  lemma VicinityOkAfterOtherWrite(hash: Hasher, root: NodeId, vicinity: set<PathIdEntry>, t: Table, entry: PathIdEntry)
    requires VicinityOk(hash, root, vicinity, t) && entry.inId !in Ids(vicinity)
    ensures VicinityOk(hash, root, vicinity, t[entry.inId := entry])
  {
    forall e | e in vicinity ensures e.inId != entry.inId {
      assert e.inId in Ids(vicinity);
    }
  }

  /** Writing one explicit entry, given that its id is not owned by another writer. */
  lemma ExplicitWriteKeepsInv(hash: Hasher, root: NodeId, n: Node, t: Table, entry: PathIdEntry, soft: Soft)
    requires Inv(hash, root, n, t) && n.started
    requires entry.Forward? && entry.inId != hash([root]) && entry.inId !in Ids(n.vicinity)
    requires ExplicitInTable(hash, entry.inId, soft, map[entry.inId := entry])
    ensures Inv(hash, root, n.(external := n.external[entry.inId := soft]), t[entry.inId := entry])
  {
    ExplicitOkAfterWrite(hash, n.external, t, entry, soft);
    VicinityOkAfterOtherWrite(hash, root, n.vicinity, t, entry);
  }

  /** An explicit entry's id belongs to no other writer, and the explicit writer agrees with
      it on the outgoing id. */
  lemma ExplicitIdIsFree(hash: Hasher, root: NodeId, n: Node, t: Table, ahead: Path)
    requires Injective(hash) && Inv(hash, root, n, t) && n.started && |ahead| > VICINITY_RADIUS
    ensures hash(ahead) != hash([root]) && hash(ahead) !in Ids(n.vicinity)
    ensures hash(ahead) in n.external ==>
              n.external[hash(ahead)].entry.Forward? && n.external[hash(ahead)].entry.outId == hash(ahead[1..])
  {
    var entry := EntryFor(hash, ahead, 0);
    assert ExplicitEntry(hash, entry);
    forall e | e in n.vicinity ensures e.inId != entry.inId {
      WritersOwnDisjointIds(hash, root, entry, e);
    }
    WritersOwnDisjointIds(hash, root, entry, entry);
    if hash(ahead) in n.external {
      assert ExplicitInTable(hash, hash(ahead), n.external[hash(ahead)], t);
      ExplicitEntriesAgreeOnOutId(hash, n.external[hash(ahead)].entry, ahead, 0);
    }
  }

  function TableWith(hash: Hasher, t: Table, ahead: Path, uln: UlnTable): Table
    requires |ahead| > VICINITY_RADIUS
  {
    if ahead[1] in uln then t[hash(ahead) := EntryFor(hash, ahead, uln[ahead[1]])] else t
  }

  lemma {:induction false} RegisterReplays(hash: Hasher, external: External, t: Table, ahead: Path, uln: UlnTable)
    requires |ahead| > VICINITY_RADIUS && (hash(ahead) in t <==> hash(ahead) in external)
    ensures Replay(t, RegisterOutput(hash, external, ahead, uln)) == Done(TableWith(hash, t, ahead, uln))
  {
    var out := RegisterOutput(hash, external, ahead, uln);
    if out != [] { assert out[1..] == []; }
  }

  lemma {:induction false} RegisterKeepsInv(hash: Hasher, root: NodeId, n: Node, t: Table, ahead: Path, uln: UlnTable,
                                            now: nat, n': Node, out: seq<Update>)
    requires Injective(hash) && Inv(hash, root, n, t) && n.started && |ahead| > VICINITY_RADIUS
    requires RegisterStep(hash, n, ahead, uln, now, n', out)
    ensures Replay(t, out) == Done(TableWith(hash, t, ahead, uln))
    ensures Inv(hash, root, n', TableWith(hash, t, ahead, uln))
  {
    ExplicitIdIsFree(hash, root, n, t, ahead);
    assert hash(ahead) in t <==> hash(ahead) in n.external;
    RegisterReplays(hash, n.external, t, ahead, uln);
    if ahead[1] in uln {
      FreeRegisterKeepsInv(hash, root, n, t, ahead, uln, now);
    }
  }

  lemma FreeRegisterKeepsInv(hash: Hasher, root: NodeId, n: Node, t: Table, ahead: Path, uln: UlnTable, now: nat)
    requires Inv(hash, root, n, t) && n.started && |ahead| > VICINITY_RADIUS && ahead[1] in uln
    requires hash(ahead) != hash([root]) && hash(ahead) !in Ids(n.vicinity)
    requires hash(ahead) in n.external ==>
               n.external[hash(ahead)].entry.Forward? && n.external[hash(ahead)].entry.outId == hash(ahead[1..])
    ensures Inv(hash, root, n.(external := Registered(hash, n.external, ahead, uln, now)),
            TableWith(hash, t, ahead, uln))
  {
    var entry := EntryFor(hash, ahead, uln[ahead[1]]);
    var soft := Registered(hash, n.external, ahead, uln, now)[entry.inId];
    assert ExplicitEntry(hash, entry);
    if entry.inId in n.external {
      assert ExplicitInTable(hash, entry.inId, n.external[entry.inId], t);
    }
    ExplicitWriteKeepsInv(hash, root, n, t, entry, soft);
  }

  lemma {:induction false} RemovalKeepsInv(hash: Hasher, root: NodeId, n: Node, t: Table, ids: set<PathId>, n': Node,
                                           out: seq<Update>)
    requires Injective(hash) && Inv(hash, root, n, t) && n.started
    requires ids <= n.external.Keys && RemovalStep(n, ids, n', out)
    ensures Replay(t, out) == Done(t - ids) && Inv(hash, root, n', t - ids)
  {
    ReplayRemovals(t, out, ids);
    OtherIdsUntouched(hash, root, n, t, n.vicinity);
    ExplicitIdsAreNotLastHop(hash, root, n, t);
    FreeRemovalKeepsInv(hash, root, n, t, ids);
  }

  lemma ExplicitIdsAreNotLastHop(hash: Hasher, root: NodeId, n: Node, t: Table)
    requires Injective(hash) && Inv(hash, root, n, t) && n.started
    ensures hash([root]) !in n.external
  {
    if hash([root]) in n.external {
      assert ExplicitInTable(hash, hash([root]), n.external[hash([root])], t);
      WritersOwnDisjointIds(hash, root, n.external[hash([root])].entry, n.external[hash([root])].entry);
      assert false;
    }
  }

  lemma FreeRemovalKeepsInv(hash: Hasher, root: NodeId, n: Node, t: Table, ids: set<PathId>)
    requires Inv(hash, root, n, t) && n.started && ids <= n.external.Keys
    requires hash([root]) !in n.external && forall id :: id in n.external ==> id !in Ids(n.vicinity)
    ensures Inv(hash, root, n.(external := n.external - ids), t - ids)
  {
    var external', t' := n.external - ids, t - ids;
    forall id | id in external' ensures ExplicitInTable(hash, id, external'[id], t') {
      assert ExplicitInTable(hash, id, n.external[id], t);
    }
    forall e | e in n.vicinity ensures e.inId in t' {
      assert e.inId in Ids(n.vicinity);
    }
  }

  lemma GraphEntriesAreVicinityEntries(hash: Hasher, root: NodeId, paths: set<Path>, uln: UlnTable)
    requires Injective(hash) && VicinityPaths(paths, root)
    ensures OneEntryPerId(EntriesFromGraph(hash, paths, uln))
    ensures forall e :: e in EntriesFromGraph(hash, paths, uln) ==> VicinityEntry(hash, root, e)
  {
    var entries := EntriesFromGraph(hash, paths, uln);
    forall e, f | e in entries && f in entries && e.inId == f.inId ensures e == f {
      var p :| p in paths && |p| >= 2 && p[1] in uln && e == EntryFor(hash, p, uln[p[1]]);
      var q :| q in paths && |q| >= 2 && q[1] in uln && f == EntryFor(hash, q, uln[q[1]]);
      assert SameId(hash, p, q);
    }
  }

  /** Removing what vanished and then installing what is new leaves the ids of after, each
      with its entry, and does not touch any other id. */
  lemma {:induction false} ReplayDifference(t: Table, out: seq<Update>, before: set<PathIdEntry>,
                                            after: set<PathIdEntry>)
    requires PrecomputeOutput(out, before, after) && OneEntryPerId(before) && OneEntryPerId(after)
    requires forall e :: e in before ==> e.inId in t && t[e.inId] == e
    ensures Replay(t, out).Done?
    ensures var t' := Replay(t, out).table;
            && t'.Keys == t.Keys - Ids(before) + Ids(after)
            && (forall e :: e in after ==> t'[e.inId] == e)
            && (forall id :: id in t && id !in Ids(before) + Ids(after) ==> t'[id] == t[id])
  {
    var k :| 0 <= k <= |out| && SplitOutput(out, k, before, after);
    var cleared := t - Ids(before - after);
    ReplayRemovals(t, out[..k], Ids(before - after));
    assert out == out[..k] + out[k..];
    ReplayAppend(t, out[..k], out[k..]);
    ReplayInstallations(cleared, out[k..], after - before);
    var t' := Replay(t, out).table;
    forall e | e in after ensures e.inId in t' && t'[e.inId] == e {
      if e in before {
        assert e.inId !in Ids(before - after) && e.inId !in Ids(after - before);
      }
    }
    forall id | id in Ids(before) && id !in Ids(after) ensures id !in t' {
      var e :| e in before && e.inId == id;
      assert e in before - after;
    }
    assert Ids(after - before) <= Ids(after) && Ids(before - after) <= Ids(before);
    assert t'.Keys == t.Keys - Ids(before) + Ids(after);
  }

  /** Incremental precomputation leaves exactly what a rebuild from scratch would, also when
      only the next hop of an existing path id changed. */
  lemma PrecomputeKeepsInv(hash: Hasher, root: NodeId, n: Node, t: Table, paths: set<Path>, uln: UlnTable,
                           n': Node, out: seq<Update>) returns (t': Table)
    requires Injective(hash) && Inv(hash, root, n, t)
    requires NodeStep(hash, root, n, Precompute(paths, uln), n', out)
    ensures Replay(t, out) == Done(t') && Inv(hash, root, n', t')
    ensures t'.Keys - {hash([root])} - n.external.Keys == Ids(EntriesFromGraph(hash, paths, uln))
    ensures forall e :: e in EntriesFromGraph(hash, paths, uln) ==> e.inId in t' && t'[e.inId] == e
    ensures forall id :: id in n.external && id in t ==> id in t' && t'[id] == t[id]
  {
    GraphEntriesAreVicinityEntries(hash, root, paths, uln);
    ReplayDifference(t, out, n.vicinity, n'.vicinity);
    t' := Replay(t, out).table;
    OtherIdsUntouched(hash, root, n, t, n.vicinity);
    OtherIdsUntouched(hash, root, n, t, n'.vicinity);
    VicinityWriteKeepsInv(hash, root, n, t, n'.vicinity, t');
  }

  lemma VicinityWriteKeepsInv(hash: Hasher, root: NodeId, n: Node, t: Table, after: set<PathIdEntry>, t': Table)
    requires Inv(hash, root, n, t) && n.started
    requires OneEntryPerId(after) && forall e :: e in after ==> VicinityEntry(hash, root, e)
    requires hash([root]) !in Ids(n.vicinity) + Ids(after)
    requires forall id :: id in n.external ==> id !in Ids(n.vicinity) + Ids(after)
    requires t'.Keys == t.Keys - Ids(n.vicinity) + Ids(after)
    requires forall e :: e in after ==> t'[e.inId] == e
    requires forall id :: id in t && id !in Ids(n.vicinity) + Ids(after) ==> t'[id] == t[id]
    ensures Inv(hash, root, n.(vicinity := after), t')
    ensures t'.Keys - {hash([root])} - n.external.Keys == Ids(after)
    ensures forall id :: id in n.external ==> t'[id] == t[id]
  {
    forall id | id in n.external ensures ExplicitInTable(hash, id, n.external[id], t') && t'[id] == t[id] {
      assert ExplicitInTable(hash, id, n.external[id], t);
    }
  }

  /** No vicinity entry shares its id with an explicit entry or with the last hop entry. */
  lemma OtherIdsUntouched(hash: Hasher, root: NodeId, n: Node, t: Table, entries: set<PathIdEntry>)
    requires Injective(hash) && Inv(hash, root, n, t) && n.started
    requires forall e :: e in entries ==> VicinityEntry(hash, root, e)
    ensures hash([root]) !in Ids(entries)
    ensures forall id :: id in n.external ==> id !in Ids(entries)
  {
    forall e | e in entries ensures e.inId != hash([root]) {
      WritersOwnDisjointIds(hash, root, e, e);
    }
    forall id, e | id in n.external && e in entries ensures e.inId != id {
      assert ExplicitInTable(hash, id, n.external[id], t);
      WritersOwnDisjointIds(hash, root, n.external[id].entry, e);
    }
  }

  /** One event of any writer: its updates replay without error and keep the invariant. */
  lemma StepKeepsInv(hash: Hasher, root: NodeId, n: Node, t: Table, ev: Event, n': Node, out: seq<Update>)
    returns (t': Table)
    requires Injective(hash) && Inv(hash, root, n, t)
    requires NodeStep(hash, root, n, ev, n', out)
    ensures Replay(t, out) == Done(t') && Inv(hash, root, n', t')
  {
    t' := t;
    match ev {
      case Start =>
        t' := t[hash([root]) := DecapEntry(hash, root)];
        assert out[1..] == [];
      case Setup(ahead, uln, now) =>
        RegisterKeepsInv(hash, root, n, t, ahead, uln, now, n', out);
        t' := Replay(t, out).table;
      case Probe(ahead, uln, now) =>
        if |ahead| > VICINITY_RADIUS {
          RegisterKeepsInv(hash, root, n, t, ahead, uln, now, n', out);
          t' := Replay(t, out).table;
        }
      case Cleanup(now, maxAge) =>
        RemovalKeepsInv(hash, root, n, t, Expired(n.external, now, maxAge), n', out);
        t' := Replay(t, out).table;
      case NeighborDown(neighbor) =>
        RemovalKeepsInv(hash, root, n, t, RecordedVia(n.external, neighbor), n', out);
        t' := Replay(t, out).table;
      case Precompute(paths, uln) =>
        t' := PrecomputeKeepsInv(hash, root, n, t, paths, uln, n', out);
    }
  }

  // ---------- whole runs ----------

  datatype Transition = Transition(event: Event, after: Node, out: seq<Update>)

  ghost predicate IsHistory(hash: Hasher, root: NodeId, run: seq<Transition>)
    decreases run
  {
    run == [] || (
      var last := run[|run| - 1];
      && IsHistory(hash, root, run[..|run| - 1])
      && NodeStep(hash, root, NodeAfter(run[..|run| - 1]), last.event, last.after, last.out))
  }

  function NodeAfter(run: seq<Transition>): Node {
    if run == [] then Fresh else run[|run| - 1].after
  }

  function Emitted(run: seq<Transition>): seq<Update> {
    if run == [] then [] else Emitted(run[..|run| - 1]) + run[|run| - 1].out
  }

  lemma {:induction false} HistoryGrows(hash: Hasher, root: NodeId, run: seq<Transition>, next: Transition)
    requires IsHistory(hash, root, run)
    requires NodeStep(hash, root, NodeAfter(run), next.event, next.after, next.out)
    ensures IsHistory(hash, root, run + [next])
    ensures NodeAfter(run + [next]) == next.after && Emitted(run + [next]) == Emitted(run) + next.out
  {
    assert (run + [next])[..|run|] == run;
  }

  /** In every run, however the writers interleave, the emitted updates replay on an empty
      table without error, and the table is the one the writers believe in. */
  lemma {:induction false} EveryRunReplays(hash: Hasher, root: NodeId, run: seq<Transition>) returns (t: Table)
    requires Injective(hash) && IsHistory(hash, root, run)
    ensures Replay(map[], Emitted(run)) == Done(t)
    ensures Inv(hash, root, NodeAfter(run), t)
    decreases |run|
  {
    t := map[];
    if run != [] {
      var init, last := run[..|run| - 1], run[|run| - 1];
      var t0 := EveryRunReplays(hash, root, init);
      ReplayAppend(map[], Emitted(init), last.out);
      t := StepKeepsInv(hash, root, NodeAfter(init), t0, last.event, last.after, last.out);
    }
  }

  // ---------- next hops of explicit entries ----------

  /** The recorded neighbour of every explicit entry is the one its packets are sent to. */
  ghost predicate NextHopsRecorded(n: Node, t: Table) {
    forall id :: id in n.external ==> id in t && t[id].Forward? && t[id].nextHop == n.external[id].via
  }

  /** Refreshing a path rewrites the table but not the record: the two stay in agreement
      exactly when the path is new or still leaves over the recorded neighbour. */
  lemma RegisterKeepsRecordExactlyWhen(hash: Hasher, n: Node, t: Table, ahead: Path, uln: UlnTable, now: nat)
    requires |ahead| > VICINITY_RADIUS && ahead[1] in uln && NextHopsRecorded(n, t)
    ensures NextHopsRecorded(n.(external := Registered(hash, n.external, ahead, uln, now)),
            TableWith(hash, t, ahead, uln))
       <==> (hash(ahead) in n.external ==> n.external[hash(ahead)].via == uln[ahead[1]])
  {
    var id := hash(ahead);
    var n', t' := n.(external := Registered(hash, n.external, ahead, uln, now)), TableWith(hash, t, ahead, uln);
    assert id in n'.external && t'[id].nextHop == uln[ahead[1]];
    assert id in n.external ==> n'.external[id].via == n.external[id].via;
  }

  predicate PointsTo(t: Table, id: PathId, neighbor: UnderlayId) {
    id in t && t[id].Forward? && t[id].nextHop == neighbor
  }

  /** After a neighbour went down no explicit entry points to it any more, exactly when the
      entries that did were also recorded as leaving over it. */
  lemma {:induction false} DownClearsNeighborExactlyWhen(hash: Hasher, root: NodeId, n: Node, t: Table,
      neighbor: UnderlayId, n': Node, out: seq<Update>)
    requires NodeStep(hash, root, n, NeighborDown(neighbor), n', out)
    ensures Replay(t, out).Done?
    ensures (forall id :: id in n'.external ==> !PointsTo(Replay(t, out).table, id, neighbor))
       <==> (forall id :: id in n.external && PointsTo(t, id, neighbor) ==> n.external[id].via == neighbor)
  {
    ReplayRemovals(t, out, RecordedVia(n.external, neighbor));
    forall id | id in n.external && id !in n'.external ensures n.external[id].via == neighbor { }
    forall id | id in n'.external ensures PointsTo(Replay(t, out).table, id, neighbor) == PointsTo(t, id, neighbor) { }
  }

  /** Such a disagreement is reachable: set up over one neighbour, refreshed over another,
      an entry survives the loss of the neighbour it forwards to. */
  lemma StaleNextHopSurvives(hash: Hasher, root: NodeId, ahead: Path, u1: UnderlayId, u2: UnderlayId)
    returns (run: seq<Transition>)
    requires Injective(hash) && |ahead| > VICINITY_RADIUS && u1 != u2
    ensures IsHistory(hash, root, run) && |run| == 4 && run[3].event == NeighborDown(u2)
    ensures Replay(map[], Emitted(run)).Done?
    ensures var t := Replay(map[], Emitted(run)).table;
            hash(ahead) in t && t[hash(ahead)] == EntryFor(hash, ahead, u2)
  {
    run := RefreshedElsewhere(hash, root, ahead, u1, u2);
    assert !SameId(hash, ahead, [root]);
    var d, e1, e2 := DecapEntry(hash, root), EntryFor(hash, ahead, u1), EntryFor(hash, ahead, u2);
    ReplayThree(map[], d, e1, e2);
  }

  lemma {:induction false} ReplayFirst(t: Table, us: seq<Update>)
    requires us != [] && Apply(t, us[0]).Done?
    ensures Replay(t, us) == Replay(Apply(t, us[0]).table, us[1..])
  {
  }

  lemma {:induction false} ReplayThree(t: Table, d: PathIdEntry, e1: PathIdEntry, e2: PathIdEntry)
    requires d.inId !in t && e1.inId !in t && d.inId != e1.inId && e1.inId == e2.inId
    ensures Replay(t, [Create(d), Create(e1), Change(e2)]) == Done(t[d.inId := d][e1.inId := e1][e2.inId := e2])
  {
    ReplayFirst(t, [Create(d), Create(e1), Change(e2)]);
    ReplayFirst(t[d.inId := d], [Create(d), Create(e1), Change(e2)][1..]);
    ReplayFirst(t[d.inId := d][e1.inId := e1], [Create(d), Create(e1), Change(e2)][1..][1..]);
    assert [Create(d), Create(e1), Change(e2)][1..][1..][1..] == [];
  }

  lemma RefreshedElsewhere(hash: Hasher, root: NodeId, ahead: Path, u1: UnderlayId, u2: UnderlayId)
    returns (run: seq<Transition>)
    requires |ahead| > VICINITY_RADIUS && u1 != u2
    ensures IsHistory(hash, root, run) && |run| == 4 && run[3].event == NeighborDown(u2)
    ensures Emitted(run) == [Create(DecapEntry(hash, root)), Create(EntryFor(hash, ahead, u1)),
                             Change(EntryFor(hash, ahead, u2))]
  {
    var soft := Soft(EntryFor(hash, ahead, u1), u1, 0);
    var n0 := Fresh.(started := true);
    var n1 := n0.(external := map[hash(ahead) := soft]);
    var s0 := Transition(Start, n0, [Create(DecapEntry(hash, root))]);
    var s1 := Transition(Setup(ahead, map[ahead[1] := u1], 0), n1, [Create(EntryFor(hash, ahead, u1))]);
    var s2 := Transition(Setup(ahead, map[ahead[1] := u2], 0), n1, [Change(EntryFor(hash, ahead, u2))]);
    var s3 := Transition(NeighborDown(u2), n1, []);
    HistoryGrows(hash, root, [], s0);
    HistoryGrows(hash, root, [] + [s0], s1);
    run := [] + [s0] + [s1];
    assert Emitted(run) == [] + s0.out + s1.out;
    HistoryGrows(hash, root, run, s2);
    run := run + [s2];
    assert RecordedVia(n1.external, u2) == {};
    assert n1.external - {} == n1.external;
    HistoryGrows(hash, root, run, s3);
    run := run + [s3];
  }
}
