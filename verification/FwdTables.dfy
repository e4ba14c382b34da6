/** The path-id forwarding table and the updates the protocol sends to it. */
module FwdTables {
  import opened NodeIds

  type PathId = seq<nat>
  type UnderlayId = nat   // one underlay connection of a node
  type Path = seq<NodeId>

  /** A path is identified by its digest; distinct paths are taken to have distinct digests. */
  type Hasher = Path -> PathId

  ghost predicate Injective(hash: Hasher) {
    forall p, q :: SameId(hash, p, q) ==> p == q
  }

  predicate SameId(hash: Hasher, p: Path, q: Path) {
    hash(p) == hash(q)
  }

  datatype PathIdEntry =
    | Forward(inId: PathId, outId: PathId, nextHop: UnderlayId)
    | Decapsulate(inId: PathId)   // deliver locally

  datatype Update =
    | Create(entry: PathIdEntry)
    | Change(entry: PathIdEntry)
    | CreateOrUpdate(entry: PathIdEntry)
    | Remove(id: PathId)

  type Table = map<PathId, PathIdEntry>

  datatype Applied = Done(table: Table) | EntryAlreadyExists | EntryMissing

  function Apply(t: Table, u: Update): Applied {
    match u
    case Create(e) => if e.inId in t then EntryAlreadyExists else Done(t[e.inId := e])
    case Change(e) => if e.inId in t then Done(t[e.inId := e]) else EntryMissing
    case CreateOrUpdate(e) => Done(t[e.inId := e])
    case Remove(id) => Done(t - {id})
  }

  /** Apply a stream of updates, stopping at the first error. */
  function Replay(t: Table, us: seq<Update>): Applied
    decreases us
  {
    if us == [] then Done(t)
    else
      match Apply(t, us[0])
      case Done(t') => Replay(t', us[1..])
      case error => error
  }

  lemma {:induction false} ReplayAppend(t: Table, us: seq<Update>, vs: seq<Update>)
    requires Replay(t, us).Done?
    ensures Replay(t, us + vs) == Replay(Replay(t, us).table, vs)
    decreases |us|
  {
    if us == [] {
      assert us + vs == vs;
    } else {
      assert (us + vs)[1..] == us[1..] + vs;
      ReplayAppend(Apply(t, us[0]).table, us[1..], vs);
    }
  }

  datatype Status = Ok | AlreadyExists | Missing

  function StatusOf(a: Applied): Status {
    match a
    case Done(_) => Ok
    case EntryAlreadyExists => AlreadyExists
    case EntryMissing => Missing
  }

  /** The in-memory table the updates are dispatched onto. */
  class InMemoryFwdTables {
    var pathIdTable: Table

    constructor ()
      ensures pathIdTable == map[]
    {
      pathIdTable := map[];
    }

    method CreateEntry(entry: PathIdEntry) returns (status: Status)
      modifies this
      ensures status == if entry.inId in old(pathIdTable) then AlreadyExists else Ok
      ensures pathIdTable == if status == Ok then old(pathIdTable)[entry.inId := entry] else old(pathIdTable)
    {
      if entry.inId in pathIdTable { return AlreadyExists; }
      pathIdTable := pathIdTable[entry.inId := entry];
      status := Ok;
    }

    method UpdateEntry(entry: PathIdEntry) returns (status: Status)
      modifies this
      ensures status == if entry.inId in old(pathIdTable) then Ok else Missing
      ensures pathIdTable == if status == Ok then old(pathIdTable)[entry.inId := entry] else old(pathIdTable)
    {
      if entry.inId !in pathIdTable { return Missing; }
      pathIdTable := pathIdTable[entry.inId := entry];
      status := Ok;
    }

    method RemoveEntry(id: PathId) returns (removed: set<PathIdEntry>)
      modifies this
      ensures pathIdTable == old(pathIdTable) - {id}
      ensures removed == if id in old(pathIdTable) then {old(pathIdTable)[id]} else {}
    {
      removed := if id in pathIdTable then {pathIdTable[id]} else {};
      pathIdTable := pathIdTable - {id};
    }

    /** Dispatch of one update: the table becomes what the update asks for, or stays. */
    method HandleRequest(u: Update) returns (status: Status)
      modifies this
      ensures status == StatusOf(Apply(old(pathIdTable), u))
      ensures pathIdTable == if status == Ok then Apply(old(pathIdTable), u).table else old(pathIdTable)
    {
      match u {
        case Create(e) =>
          status := CreateEntry(e);
        case Change(e) =>
          status := UpdateEntry(e);
        case CreateOrUpdate(e) =>
          if e.inId in pathIdTable {
            status := UpdateEntry(e);
          } else {
            status := CreateEntry(e);
          }
        case Remove(id) =>
          var _ := RemoveEntry(id);
          status := Ok;
      }
    }

    /** A whole stream, as long as no update fails. */
    method HandleAll(us: seq<Update>) returns (status: Status)
      modifies this
      ensures status == StatusOf(Replay(old(pathIdTable), us))
      ensures status == Ok ==> Replay(old(pathIdTable), us) == Done(pathIdTable)
    {
      status := Ok;
      var i := 0;
      while i < |us|
        invariant 0 <= i <= |us| && status == Ok
        invariant Replay(old(pathIdTable), us) == Replay(pathIdTable, us[i..])
      {
        assert us[i..][0] == us[i] && us[i..][1..] == us[i + 1..];
        status := HandleRequest(us[i]);
        if status != Ok { return; }
        i := i + 1;
      }
    }
  }

  /** The updates remove exactly the given ids, in some order. */
  ghost predicate RemovesExactly(us: seq<Update>, ids: set<PathId>) {
    && (forall u :: u in us ==> u.Remove? && u.id in ids)
    && (forall id :: id in ids ==> Remove(id) in us)
  }

  /** The updates install exactly the given entries, in some order. */
  ghost predicate InstallsExactly(us: seq<Update>, entries: set<PathIdEntry>) {
    && (forall u :: u in us ==> u.CreateOrUpdate? && u.entry in entries)
    && (forall e :: e in entries ==> CreateOrUpdate(e) in us)
  }

  /** Removals never fail and their order does not matter. */
  lemma {:induction false} ReplayRemovals(t: Table, us: seq<Update>, ids: set<PathId>)
    requires RemovesExactly(us, ids)
    ensures Replay(t, us) == Done(t - ids)
    decreases |us|
  {
    if us == [] {
      assert ids == {};
      assert t - ids == t;
    } else {
      var rest := us[1..];
      var ids' := set u | u in rest :: u.id;
      forall id | id in ids' ensures Remove(id) in rest {
        var u :| u in rest && u.id == id;
        assert u in us;
      }
      ReplayRemovals(t - {us[0].id}, rest, ids');
      assert us[0] in us;
      forall id | id in ids ensures id == us[0].id || id in ids' {
        assert Remove(id) in us;
        if Remove(id) != us[0] { assert Remove(id) in rest; }
      }
      forall id | id in ids' ensures id in ids {
        var u :| u in rest && u.id == id;
        assert u in us;
      }
      assert ids == ids' + {us[0].id};
      assert (t - {us[0].id}) - ids' == t - ids;
    }
  }

  ghost predicate OneEntryPerId(entries: set<PathIdEntry>) {
    forall e, f :: e in entries && f in entries && e.inId == f.inId ==> e == f
  }

  function Ids(entries: set<PathIdEntry>): set<PathId> {
    set e | e in entries :: e.inId
  }

  /** Installations never fail; whatever their order, each entry ends up under its id. */
  lemma {:induction false} ReplayInstallations(t: Table, us: seq<Update>, entries: set<PathIdEntry>)
    requires InstallsExactly(us, entries) && OneEntryPerId(entries)
    ensures Replay(t, us).Done?
    ensures var t' := Replay(t, us).table;
            && t'.Keys == t.Keys + Ids(entries)
            && (forall e :: e in entries ==> t'[e.inId] == e)
            && (forall id :: id in t && id !in Ids(entries) ==> t'[id] == t[id])
    decreases |us|
  {
    if us == [] {
      assert entries == {};
    } else {
      var rest := us[1..];
      var first := us[0].entry;
      assert us[0] in us;
      var entries' := set u | u in rest :: u.entry;
      forall u | u in rest ensures u in us { }
      forall e | e in entries' ensures e in entries && CreateOrUpdate(e) in rest {
        var u :| u in rest && u.entry == e;
      }
      forall e | e in entries ensures e == first || e in entries' {
        assert CreateOrUpdate(e) in us;
        if e != first { assert CreateOrUpdate(e) in rest; }
      }
      assert entries == entries' + {first};
      ReplayInstallations(t[first.inId := first], rest, entries');
      assert Ids(entries) == Ids(entries') + {first.inId};
    }
  }
}
