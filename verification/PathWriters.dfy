/** The use cases that write path-id entries: explicit paths set up by other nodes, paths
    precomputed inside the vicinity, and the entry that ends a path at the own node. */
module PathWriters {
  import opened NodeIds
  import opened FwdTables

  /** Paths of at most this many nodes, counted from the own node, are precomputed. */
  const VICINITY_RADIUS: nat := 3

  type UlnTable = map<NodeId, UnderlayId>

  /** Soft state of an entry another node asked for. */
  datatype Soft = Soft(entry: PathIdEntry, via: UnderlayId, lastSeen: nat)

  type External = map<PathId, Soft>

  /** The entry for packets that enter at the first node of inPath. */
  function EntryFor(hash: Hasher, inPath: Path, nextHop: UnderlayId): PathIdEntry
    requires inPath != []
  {
    Forward(hash(inPath), hash(inPath[1..]), nextHop)
  }

  // ---------- explicit paths ----------

  function Registered(hash: Hasher, external: External, inPath: Path, uln: UlnTable, now: nat): External
    requires |inPath| > VICINITY_RADIUS
  {
    if inPath[1] !in uln then external
    else
      var id, nextHop := hash(inPath), uln[inPath[1]];
      if id in external then external[id := external[id].(lastSeen := now)]
      else external[id := Soft(EntryFor(hash, inPath, nextHop), nextHop, now)]
  }

  function RegisterOutput(hash: Hasher, external: External, inPath: Path, uln: UlnTable): seq<Update>
    requires |inPath| > VICINITY_RADIUS
  {
    if inPath[1] !in uln then []
    else
      var entry := EntryFor(hash, inPath, uln[inPath[1]]);
      if hash(inPath) in external then [Change(entry)] else [Create(entry)]
  }

  function Elapsed(since: nat, now: nat): nat {
    if now < since then 0 else now - since
  }

  /** Entries not refreshed for at least maxAge. */
  function Expired(external: External, now: nat, maxAge: nat): set<PathId> {
    set id | id in external && Elapsed(external[id].lastSeen, now) >= maxAge
  }

  function RecordedVia(external: External, neighbor: UnderlayId): set<PathId> {
    set id | id in external && external[id].via == neighbor
  }

  datatype SetupResult = AssertionFails | Stop | PassOn

  class ExplicitPathManagement {
    const hash: Hasher
    const maxAge: nat
    var external: External

    constructor (hash: Hasher, maxAge: nat)
      ensures this.hash == hash && this.maxAge == maxAge && external == map[]
    {
      this.hash, this.maxAge, external := hash, maxAge, map[];
    }

    method RegisterPath(inPath: Path, uln: UlnTable, now: nat) returns (out: seq<Update>)
      requires |inPath| > VICINITY_RADIUS
      modifies this
      ensures external == Registered(hash, old(external), inPath, uln, now)
      ensures out == RegisterOutput(hash, old(external), inPath, uln)
    {
      var outPath := inPath[1..];
      var inId := hash(inPath);
      if outPath[0] !in uln { return []; }
      var nextHop := uln[outPath[0]];
      var entry := Forward(inId, hash(outPath), nextHop);
      if inId in external {
        out := [Change(entry)];
        external := external[inId := external[inId].(lastSeen := now)];
      } else {
        out := [Create(entry)];
        external := external[inId := Soft(entry, nextHop, now)];
      }
    }

    /** A PathSetupReq with the given nodes ahead, this one first. */
    method HandlePathSetup(ahead: Path, uln: UlnTable, now: nat) returns (result: SetupResult, out: seq<Update>)
      modifies this
      ensures result == if |ahead| <= VICINITY_RADIUS then AssertionFails
                        else if |ahead| - 1 <= VICINITY_RADIUS then Stop else PassOn
      ensures |ahead| <= VICINITY_RADIUS ==> external == old(external) && out == []
      ensures |ahead| > VICINITY_RADIUS ==>
                && external == Registered(hash, old(external), ahead, uln, now)
                && out == RegisterOutput(hash, old(external), ahead, uln)
    {
      if |ahead| <= VICINITY_RADIUS { return AssertionFails, []; }
      out := RegisterPath(ahead, uln, now);
      result := if |ahead| - 1 <= VICINITY_RADIUS then Stop else PassOn;
    }

    /** A ProbeReq refreshes, or installs, the path it travels outside the vicinity. */
    method HandleProbe(ahead: Path, uln: UlnTable, now: nat) returns (out: seq<Update>)
      modifies this
      ensures |ahead| <= VICINITY_RADIUS ==> external == old(external) && out == []
      ensures |ahead| > VICINITY_RADIUS ==>
                && external == Registered(hash, old(external), ahead, uln, now)
                && out == RegisterOutput(hash, old(external), ahead, uln)
    {
      if |ahead| <= VICINITY_RADIUS { return []; }
      out := RegisterPath(ahead, uln, now);
    }

    method PerformCleanup(now: nat) returns (out: seq<Update>)
      modifies this
      ensures external == old(external) - Expired(old(external), now, maxAge)
      ensures RemovesExactly(out, Expired(old(external), now, maxAge))
    {
      out := RemoveAll(Expired(external, now, maxAge));
    }

    method InvalidateAllOverInterfaces(neighbor: UnderlayId) returns (out: seq<Update>)
      modifies this
      ensures external == old(external) - RecordedVia(old(external), neighbor)
      ensures RemovesExactly(out, RecordedVia(old(external), neighbor))
    {
      out := RemoveAll(RecordedVia(external, neighbor));
    }

    method RemoveAll(ids: set<PathId>) returns (out: seq<Update>)
      modifies this
      ensures external == old(external) - ids
      ensures RemovesExactly(out, ids)
    {
      out := [];
      var rest := ids;
      while rest != {}
        invariant rest <= ids
        invariant external == old(external) - (ids - rest)
        invariant RemovesExactly(out, ids - rest)
      {
        var id :| id in rest;
        external := external - {id};
        out := out + [Remove(id)];
        rest := rest - {id};
      }
    }
  }

  // ---------- contact events that start setups and teardowns ----------

  datatype ContactState = Valid | Invalid | Rediscovering | Dead | Unknown

  /** The stamp stands for the validation state and times compared along with the nodes. */
  datatype ActivePath = ActivePath(ids: Path, stamp: nat)

  datatype RoutedContact = RoutedContact(state: ContactState, path: ActivePath)

  datatype ContactEvent = New(contact: RoutedContact)
                        | Updated(new_: RoutedContact, old_: RoutedContact)
                        | Removed(contact: RoutedContact)

  datatype Action = SendSetup(ids: Path) | SendTeardown(ids: Path)

  predicate Outside(c: RoutedContact) {
    |c.path.ids| > VICINITY_RADIUS
  }

  function SetupFor(c: RoutedContact): seq<Action> {
    if c.state.Valid? then [SendSetup(c.path.ids)] else []
  }

  function TeardownFor(c: RoutedContact): seq<Action> {
    [SendTeardown(c.path.ids)]
  }

  function OnContact(ev: ContactEvent): seq<Action> {
    match ev
    case New(c) => if Outside(c) then SetupFor(c) else []
    case Removed(c) => if Outside(c) then TeardownFor(c) else []
    case Updated(n, o) =>
      match (n.state, o.state)
      case (Valid, Invalid) => if Outside(n) then SetupFor(n) else []
      case (Valid, Rediscovering) => if Outside(n) then SetupFor(n) else []
      case (Valid, Valid) =>
        if Outside(n) && !Outside(o) then SetupFor(n)
        else if Outside(n) && Outside(o) && o.path != n.path then SetupFor(n) + TeardownFor(o)
        else if !Outside(n) && Outside(o) then TeardownFor(o)
        else []
      case (Invalid, Valid) =>
        (if Outside(n) then TeardownFor(o) else [])
        + (if Outside(o) && o.path != n.path then TeardownFor(n) else [])
      case _ => []
  }

  /** Setups are only ever sent along paths that leave the vicinity. */
  lemma SetupsLeaveTheVicinity(ev: ContactEvent, a: Action)
    requires a in OnContact(ev) && a.SendSetup?
    ensures |a.ids| > VICINITY_RADIUS
  {
  }

  /** The handler alone does not rule out a teardown too short for its receivers, which assert that it
      is not: it takes a contact that becomes invalid and at once changes side of the vicinity boundary. */
  lemma TeardownTooShortExactlyWhen(ev: ContactEvent)
    ensures (exists a :: a in OnContact(ev) && a.SendTeardown? && |a.ids| <= VICINITY_RADIUS)
       <==> ev.Updated? && ev.new_.state.Invalid? && ev.old_.state.Valid? && Outside(ev.new_) != Outside(ev.old_)
  {
    if ev.Updated? && ev.new_.state.Invalid? && ev.old_.state.Valid? {
      var t := if Outside(ev.new_) then ev.old_ else ev.new_;
      if Outside(ev.new_) != Outside(ev.old_) {
        assert SendTeardown(t.path.ids) in OnContact(ev);
      }
    }
  }

  /** What is done to a contact of the routing table between two events about it. */
  datatype Change = Invalidate(stamp: nat)
                  | TakePath(path: ActivePath)
                  | Confirm(stamp: nat)
                  | Rediscover
                  | GiveUp
                  | Replace(path: ActivePath)  // by another, valid contact of the bucket

  function Changed(c: RoutedContact, change: Change): RoutedContact {
    match change
    case Invalidate(stamp) =>
      RoutedContact(if c.state.Invalid? || c.state.Rediscovering? then c.state else Invalid,
                    ActivePath(c.path.ids, stamp))
    case TakePath(path) => if c.state.Dead? then c else RoutedContact(Valid, path)
    case Confirm(stamp) => RoutedContact(c.state, ActivePath(c.path.ids, stamp))
    case Rediscover => RoutedContact(Rediscovering, c.path)
    case GiveUp => RoutedContact(Dead, c.path)
    case Replace(path) => RoutedContact(Valid, path)
  }

  ghost predicate Arises(ev: ContactEvent) {
    ev.Updated? ==> exists change :: ev.new_ == Changed(ev.old_, change)
  }

  /** But such events do not arise, because invalidating a contact keeps the nodes of its path: no
      teardown fails the assertion of its receivers. */
  lemma TeardownsLeaveTheVicinity(ev: ContactEvent, a: Action)
    requires Arises(ev) && a in OnContact(ev) && a.SendTeardown?
    ensures |a.ids| > VICINITY_RADIUS
  {
    TeardownTooShortExactlyWhen(ev);
  }

  /** An invalidation marks the path as well, so the two paths differ and both are torn down: the same
      request is sent twice. */
  lemma InvalidationTearsDownTwice(c: RoutedContact, stamp: nat)
    requires c.state.Valid? && stamp != c.path.stamp
    ensures OnContact(Updated(Changed(c, Invalidate(stamp)), c))
         == if Outside(c) then [SendTeardown(c.path.ids), SendTeardown(c.path.ids)] else []
  {
  }

  // ---------- precomputed paths ----------

  /** What the vicinity graph yields: paths from the own node inside the vicinity. */
  predicate VicinityPaths(paths: set<Path>, root: NodeId) {
    forall p :: p in paths ==> 1 <= |p| <= VICINITY_RADIUS && p[0] == root
  }

  /** The table part generated from scratch from the graph and the neighbour table. */
  function EntriesFromGraph(hash: Hasher, paths: set<Path>, uln: UlnTable): set<PathIdEntry> {
    set p | p in paths && |p| >= 2 && p[1] in uln :: EntryFor(hash, p, uln[p[1]])
  }

  /** First the vanished entries are removed, then the new ones installed, each in any order. */
  ghost predicate PrecomputeOutput(out: seq<Update>, before: set<PathIdEntry>, after: set<PathIdEntry>) {
    exists k :: 0 <= k <= |out| && SplitOutput(out, k, before, after)
  }

  ghost predicate SplitOutput(out: seq<Update>, k: nat, before: set<PathIdEntry>, after: set<PathIdEntry>)
    requires k <= |out|
  {
    RemovesExactly(out[..k], Ids(before - after)) && InstallsExactly(out[k..], after - before)
  }

  class PrecomputePathIds {
    const hash: Hasher
    var oldEntries: set<PathIdEntry>

    constructor (hash: Hasher)
      ensures this.hash == hash && oldEntries == {}
    {
      this.hash, oldEntries := hash, {};
    }

    method GenEntriesFromGraph(paths: set<Path>, uln: UlnTable) returns (entries: set<PathIdEntry>)
      ensures entries == EntriesFromGraph(hash, paths, uln)
    {
      entries := {};
      var rest := paths;
      while rest != {}
        invariant rest <= paths
        invariant entries == EntriesFromGraph(hash, paths - rest, uln)
      {
        var inPath :| inPath in rest;
        var done := paths - rest;
        rest := rest - {inPath};
        assert paths - rest == done + {inPath};
        if |inPath| < 2 || inPath[1] !in uln { continue; }
        entries := entries + {Forward(hash(inPath), hash(inPath[1..]), uln[inPath[1]])};
      }
      assert paths - rest == paths;
    }

    method PrecomputePathsAndIds(paths: set<Path>, uln: UlnTable) returns (out: seq<Update>)
      modifies this
      ensures oldEntries == EntriesFromGraph(hash, paths, uln)
      ensures PrecomputeOutput(out, old(oldEntries), oldEntries)
    {
      var graphEntries := GenEntriesFromGraph(paths, uln);
      var removals := [];
      var deleted := oldEntries - graphEntries;
      var left := deleted;
      while left != {}
        invariant left <= deleted
        invariant RemovesExactly(removals, Ids(deleted - left))
      {
        var e :| e in left;
        removals := removals + [Remove(e.inId)];
        assert Ids(deleted - (left - {e})) == Ids(deleted - left) + {e.inId};
        left := left - {e};
      }
      assert deleted - left == deleted;

      var installs := [];
      var fresh_ := graphEntries - oldEntries;
      left := fresh_;
      while left != {}
        invariant left <= fresh_
        invariant InstallsExactly(installs, fresh_ - left)
      {
        var e :| e in left;
        installs := installs + [CreateOrUpdate(e)];
        left := left - {e};
      }
      assert fresh_ - left == fresh_;

      out := removals + installs;
      assert out[..|removals|] == removals && out[|removals|..] == installs;
      assert SplitOutput(out, |removals|, oldEntries, graphEntries);
      oldEntries := graphEntries;
    }
  }
}
