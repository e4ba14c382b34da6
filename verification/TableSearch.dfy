/** What a search in the routing table in use can rely on: the first contact listed, how far the walk over
    the buckets goes for n contacts, and the check made before a choice by proximity. */
module TableSearch {
  import opened Bits
  import opened NodeIds
  import opened Routing
  import opened FlatTables

  // ---------- the first contact ----------

  /** No contact is nearer to the target than the first one listed. */
  ghost predicate LeadsWithNearest(closest: seq<Ranked>, contacts: set<Contact>, target: NodeId) {
    && (closest == [] ==> contacts == {})
    && (closest != [] ==> closest[0].contact in contacts)
    && forall c :: closest != [] && c in contacts ==> Distance(closest[0].contact.id, target) <= Distance(c.id, target)
  }

  lemma CutLeadsWithNearest(closest: seq<Ranked>, sorted: seq<Ranked>, cut: bool, n: nat, contacts: set<Contact>,
                            root: NodeId, target: NodeId, g: nat)
    requires ValidGrouping(g) && Usable(root, contacts) && n >= 1
    requires SortedByXor(sorted) && IsCut(closest, sorted, cut, n)
    requires forall r :: r in multiset(sorted) <==> r in Ranks(contacts, target, g)
    ensures LeadsWithNearest(closest, contacts, target)
  {
    SortedIsRanked(sorted, root, contacts, target, g);
    forall c | c in contacts
      ensures closest != [] && Distance(closest[0].contact.id, target) <= Distance(c.id, target)
    {
      var r := Ranked(Prefix(c.id, target, g), c);
      assert r in Ranks(contacts, target, g);
      FirstIsNearest(sorted, multiset(sorted), r, root, target, g);
    }
    if closest != [] {
      assert sorted[0] in multiset(sorted);
      assert closest[0] in Ranks(contacts, target, g);
    }
  }

  lemma ClosestLeadsWithNearest(closest: seq<Ranked>, root: NodeId, buckets: Buckets, target: NodeId, n: nat, g: nat)
    requires ValidTable(root, buckets) && ValidGrouping(g) && n >= 1 && IsClosest(closest, root, buckets, target, n, g)
    ensures LeadsWithNearest(closest, Gathered(root, buckets, target, n), target)
  {
    var last := |buckets| - 1;
    var contacts := Gathered(root, buckets, target, n);
    var cut := Level(root, last, target) == last && |buckets[last]| >= n;
    var sorted :| Sorts(sorted, multiset(Ranks(contacts, target, g))) && IsCut(closest, sorted, cut, n);
    GatheredIsUsable(root, buckets, target, n);
    CutLeadsWithNearest(closest, sorted, cut, n, contacts, root, target, g);
  }

  lemma NearestOfBoth(closest: seq<Ranked>, inner: seq<Ranked>, listed: set<Contact>, contacts: set<Contact>,
                      neighbors: set<Contact>, target: NodeId)
    requires listed == (set r | r in inner :: r.contact) && listed <= contacts
    requires LeadsWithNearest(inner, contacts, target) && LeadsWithNearest(closest, listed + neighbors, target)
    ensures LeadsWithNearest(closest, contacts + neighbors, target)
  {
    if inner != [] {
      assert inner[0] in inner;
      assert inner[0].contact in listed + neighbors;
    }
  }

  lemma AddedLeadsWithNearest(closest: seq<Ranked>, inner: seq<Ranked>, merged: seq<Ranked>, cut: bool, n: nat,
                              contacts: set<Contact>, neighbors: set<Contact>, root: NodeId, target: NodeId, g: nat)
    requires ValidGrouping(g) && Usable(root, contacts) && Usable(root, neighbors) && n >= 1
    requires LeadsWithNearest(inner, contacts, target)
    requires forall r :: r in multiset(inner) ==> r in Ranks(contacts, target, g)
    requires Sorts(merged, multiset(inner) + multiset(Ranks(neighbors, target, g))) && IsCut(closest, merged, cut, n)
    ensures LeadsWithNearest(closest, contacts + neighbors, target)
  {
    var listed := set r | r in inner :: r.contact;
    ListedRanks(inner, listed, contacts, target, g);
    assert Usable(root, listed + neighbors);
    MergedRanks(merged, inner, listed, neighbors, target, g);
    CutLeadsWithNearest(closest, merged, cut, n, listed + neighbors, root, target, g);
    NearestOfBoth(closest, inner, listed, contacts, neighbors, target);
  }

  /** The table in use lists, for any number of contacts asked for, the nearest of all contacts collected and
      all neighbours first. */
  lemma MergedLeadsWithNearest(closest: seq<Ranked>, root: NodeId, buckets: Buckets, neighbors: set<Contact>,
                               target: NodeId, n: nat, g: nat)
    requires ValidTable(root, buckets) && ValidGrouping(g) && Usable(root, neighbors) && n >= 1
    requires IsMerged(closest, root, buckets, neighbors, target, n, g)
    ensures LeadsWithNearest(closest, Gathered(root, buckets, target, n) + neighbors, target)
  {
    var inner, merged :| IsMergeOf(closest, inner, merged, root, buckets, neighbors, target, n, g);
    ClosestStopsExactlyWhen(inner, root, buckets, target, n, g);
    ClosestLeadsWithNearest(inner, root, buckets, target, n, g);
    GatheredIsUsable(root, buckets, target, n);
    AddedLeadsWithNearest(closest, inner, merged, CutsLastBucket(merged, root, |buckets| - 1, n), n,
                          Gathered(root, buckets, target, n), neighbors, root, target, g);
  }

  // ---------- searches for n contacts ----------

  /** The number of contacts in the buckets from one level down to another. */
  function Count(buckets: Buckets, first: nat, last: nat): nat
    requires first <= last < |buckets|
    decreases |buckets| - first
  {
    if first == last then |buckets[first]| else |buckets[first]| + Count(buckets, first + 1, last)
  }

  /** A contact the walk did not get to lies behind enough others, all of which were collected. */
  lemma {:induction false} MissedBehind(buckets: Buckets, t: nat, k: nat, n: int, j: nat, c: Contact) returns (i: nat)
    requires t + k <= j < |buckets| && c in buckets[j]
    requires InRange(Walk(t, |buckets| - 1), buckets) && c !in Collected(buckets, Walk(t, |buckets| - 1)[k..], n)
    ensures t + k <= i < j && Count(buckets, t + k, i) >= n
    ensures forall m :: t + k <= m <= i ==> buckets[m] <= Collected(buckets, Walk(t, |buckets| - 1)[k..], n)
    decreases j - k
  {
    var order := Walk(t, |buckets| - 1);
    assert order[k] == t + k && order[k..][0] == order[k] && order[k..][1..] == order[k + 1..];
    var here := buckets[t + k];
    if |here| >= n {
      i := t + k;
    } else {
      i := MissedBehind(buckets, t, k + 1, n - |here|, j, c);
      assert Collected(buckets, order[k..], n) == here + Collected(buckets, order[k + 1..], n - |here|);
    }
  }

  /** The walk ends where there are enough contacts. */
  lemma {:induction false} EndsWithEnough(buckets: Buckets, t: nat, k: nat, n: int, i: nat, c: Contact) returns (m: nat)
    requires t + k <= i < |buckets| && Count(buckets, t + k, i) >= n
    requires InRange(Walk(t, |buckets| - 1), buckets) && c in Collected(buckets, Walk(t, |buckets| - 1)[k..], n)
    ensures t + k <= m <= i && c in buckets[m]
    decreases i - k
  {
    var order := Walk(t, |buckets| - 1);
    assert order[k] == t + k && order[k..][0] == order[k] && order[k..][1..] == order[k + 1..];
    var here := buckets[t + k];
    m := t + k;
    if c !in here {
      m := EndsWithEnough(buckets, t, k + 1, n - |here|, i, c);
    }
  }

  /** In the filled buckets from t down to i the target has the bit of the root. */
  predicate NoneNearerTo(root: NodeId, buckets: Buckets, target: NodeId, t: nat, i: nat)
    requires i < |buckets| <= BITS
  {
    forall m :: t <= m <= i && buckets[m] != {} ==> BitAt(target, m) == BitAt(root, m)
  }

  /** From the target's bucket down to one above the last there are n contacts or more, none of them nearer
      than the root, and a deeper bucket holds a nearer one. */
  ghost predicate OverlookedFor(root: NodeId, buckets: Buckets, target: NodeId, n: nat)
    requires 1 <= |buckets| <= BITS
  {
    var t := Level(root, |buckets| - 1, target);
    exists i: nat :: t <= i < |buckets| - 1 && EndsAbove(root, buckets, target, n, t, i)
  }

  ghost predicate EndsAbove(root: NodeId, buckets: Buckets, target: NodeId, n: nat, t: nat, i: nat)
    requires t <= i < |buckets| <= BITS
  {
    Count(buckets, t, i) >= n && NoneNearerTo(root, buckets, target, t, i) && NearerBelow(root, buckets, target, i)
  }

  lemma NoneGatheredIsNearer(root: NodeId, buckets: Buckets, target: NodeId, t: nat, i: nat, gathered: set<Contact>)
    requires ValidTable(root, buckets) && i < |buckets| - 1 && !AnyNearer(gathered, root, target)
    requires forall m :: t <= m <= i ==> buckets[m] <= gathered
    ensures NoneNearerTo(root, buckets, target, t, i)
  {
    forall m | t <= m <= i && buckets[m] != {} ensures BitAt(target, m) == BitAt(root, m) {
      var d :| d in buckets[m];
      assert d in gathered;
      LevelNearer(root, buckets, target, m, d);
    }
  }

  lemma MissedIsOverlookedFor(root: NodeId, buckets: Buckets, target: NodeId, n: nat, j: nat, c: Contact)
    requires ValidTable(root, buckets) && j < |buckets| && c in buckets[j] && Nearer(c, root, target)
    requires !AnyNearer(Gathered(root, buckets, target, n), root, target)
    ensures OverlookedFor(root, buckets, target, n)
  {
    var t := Level(root, |buckets| - 1, target);
    NearerIsBelow(root, buckets, target, j, c);
    var i := MissedByWalk(root, buckets, target, n, j, c);
    NoneGatheredIsNearer(root, buckets, target, t, i, Gathered(root, buckets, target, n));
    NearerFrom(root, buckets, target, i, j, c);
    assert EndsAbove(root, buckets, target, n, t, i);
  }

  lemma NearerFrom(root: NodeId, buckets: Buckets, target: NodeId, i: nat, j: nat, c: Contact)
    requires i < j < |buckets| && c in buckets[j] && Nearer(c, root, target)
    ensures NearerBelow(root, buckets, target, i)
  {
  }

  lemma MissedByWalk(root: NodeId, buckets: Buckets, target: NodeId, n: nat, j: nat, c: Contact) returns (i: nat)
    requires 1 <= |buckets| && Level(root, |buckets| - 1, target) <= j < |buckets|
    requires c in buckets[j] && c !in Gathered(root, buckets, target, n)
    ensures Level(root, |buckets| - 1, target) <= i < j && Count(buckets, Level(root, |buckets| - 1, target), i) >= n
    ensures forall m :: Level(root, |buckets| - 1, target) <= m <= i ==>
            buckets[m] <= Gathered(root, buckets, target, n)
  {
    var t := Level(root, |buckets| - 1, target);
    var order := Walk(t, |buckets| - 1);
    assert order[0..] == order;
    i := MissedBehind(buckets, t, 0, n, j, c);
  }

  lemma FoundByWalk(root: NodeId, buckets: Buckets, target: NodeId, n: nat, i: nat, d: Contact) returns (m: nat)
    requires 1 <= |buckets| && Level(root, |buckets| - 1, target) <= i < |buckets|
    requires Count(buckets, Level(root, |buckets| - 1, target), i) >= n && d in Gathered(root, buckets, target, n)
    ensures Level(root, |buckets| - 1, target) <= m <= i && d in buckets[m]
  {
    var t := Level(root, |buckets| - 1, target);
    var order := Walk(t, |buckets| - 1);
    assert order[0..] == order;
    m := EndsWithEnough(buckets, t, 0, n, i, d);
  }

  lemma OverlookedForIsMissed(root: NodeId, buckets: Buckets, target: NodeId, n: nat)
    requires ValidTable(root, buckets) && OverlookedFor(root, buckets, target, n)
    ensures AnyNearer(Stored(buckets), root, target)
    ensures !AnyNearer(Gathered(root, buckets, target, n), root, target)
  {
    var t := Level(root, |buckets| - 1, target);
    var i: nat :| t <= i < |buckets| - 1 && EndsAbove(root, buckets, target, n, t, i);
    var j, c :| i < j < |buckets| && c in buckets[j] && Nearer(c, root, target);
    StoredAt(buckets, j, c);
    forall d | d in Gathered(root, buckets, target, n) ensures !Nearer(d, root, target) {
      var m := FoundByWalk(root, buckets, target, n, i, d);
      LevelNearer(root, buckets, target, m, d);
    }
  }

  /** The walk misses every nearer contact of the buckets exactly when it is overlooked. */
  lemma MissesExactlyWhen(root: NodeId, buckets: Buckets, target: NodeId, n: nat)
    requires ValidTable(root, buckets)
    ensures (AnyNearer(Stored(buckets), root, target) && !AnyNearer(Gathered(root, buckets, target, n), root, target))
       <==> OverlookedFor(root, buckets, target, n)
  {
    if OverlookedFor(root, buckets, target, n) {
      OverlookedForIsMissed(root, buckets, target, n);
    } else if AnyNearer(Stored(buckets), root, target) && !AnyNearer(Gathered(root, buckets, target, n), root, target) {
      var c :| c in Stored(buckets) && Nearer(c, root, target);
      var j :| 0 <= j < |buckets| && c in buckets[j];
      MissedIsOverlookedFor(root, buckets, target, n, j, c);
    }
  }

  /** The requester itself is the nearest of these contacts, and nearer than the root. */
  ghost predicate RequesterIsNearest(requester: NodeId, contacts: set<Contact>, root: NodeId, target: NodeId) {
    && Distance(requester, target) < Distance(root, target)
    && (exists c :: c in contacts && c.id == requester)
    && forall c :: c in contacts ==> Distance(requester, target) <= Distance(c.id, target)
  }

  lemma FindNodeStopsExactlyWhen(closest: seq<Ranked>, root: NodeId, requester: NodeId, contacts: set<Contact>,
                                 target: NodeId, g: nat)
    requires ValidGrouping(g) && RankedFor(closest, root, target, g) && LeadsWithNearest(closest, contacts, target)
    ensures FindNodeHop(root, requester, target, closest, g) == Root
       <==> !AnyNearer(contacts, root, target) || RequesterIsNearest(requester, contacts, root, target)
  {
    if closest != [] {
      var first := closest[0].contact;
      SharedPrefixOrderIsXorOrder(root, first.id, target, g);
      XorCancels(requester, first.id, target);
      assert AnyNearer(contacts, root, target) <==> Nearer(first, root, target);
    }
  }

  /** A FindNodeReq for n contacts is not passed on although table or neighbours hold a nearer contact exactly
      when the walk overlooked it and no neighbour is nearer, or when the nearest contact found is the
      requester. */
  lemma FindNodeStopsTooEarlyExactlyWhen(closest: seq<Ranked>, root: NodeId, requester: NodeId, buckets: Buckets,
                                         neighbors: set<Contact>, target: NodeId, n: nat, g: nat)
    requires ValidTable(root, buckets) && ValidGrouping(g) && Usable(root, neighbors) && n >= 1
    requires IsMerged(closest, root, buckets, neighbors, target, n, g)
    ensures (&& FindNodeHop(root, requester, target, closest, g) == Root
             && AnyNearer(Stored(buckets) + neighbors, root, target))
       <==> || (OverlookedFor(root, buckets, target, n) && !AnyNearer(neighbors, root, target))
            || RequesterIsNearest(requester, Gathered(root, buckets, target, n) + neighbors, root, target)
  {
    var gathered := Gathered(root, buckets, target, n);
    MergedStopsExactlyWhen(closest, root, buckets, neighbors, target, n, g);
    MergedLeadsWithNearest(closest, root, buckets, neighbors, target, n, g);
    FindNodeStopsExactlyWhen(closest, root, requester, gathered + neighbors, target, g);
    MissesExactlyWhen(root, buckets, target, n);
    CollectedIsStored(buckets, Walk(Level(root, |buckets| - 1, target), |buckets| - 1), n);
    EitherNearer(gathered, neighbors, root, target);
    EitherNearer(Stored(buckets), neighbors, root, target);
    if RequesterIsNearest(requester, gathered + neighbors, root, target) {
      var c :| c in gathered + neighbors && c.id == requester;
      assert Nearer(c, root, target) && c in Stored(buckets) + neighbors;
    }
  }

  /** Where next_hop stops because nothing found is nearer, a FindNodeReq is not passed on either. */
  lemma FindNodeStopsToo(closest: seq<Ranked>, root: NodeId, requester: NodeId, buckets: Buckets,
                         neighbors: set<Contact>, target: NodeId, n: nat, g: nat)
    requires ValidTable(root, buckets) && ValidGrouping(g) && Usable(root, neighbors) && n >= 1
    requires IsMerged(closest, root, buckets, neighbors, target, n, g) && NextHop(root, target, closest, g) == Root
    ensures FindNodeHop(root, requester, target, closest, g) == Root
  {
    var gathered := Gathered(root, buckets, target, n);
    MergedStopsExactlyWhen(closest, root, buckets, neighbors, target, n, g);
    MergedLeadsWithNearest(closest, root, buckets, neighbors, target, n, g);
    EitherNearer(gathered, neighbors, root, target);
    FindNodeStopsExactlyWhen(closest, root, requester, gathered + neighbors, target, g);
  }

  /** So the table at which next_hop overlooks a nearer contact stops a FindNodeReq for one contact as well. */
  lemma FindNodeOverlooksToo(root: NodeId, requester: NodeId, unit: nat, target: NodeId, farther: Contact,
                             nearer: Contact)
    requires root == 0 && unit == Pow2(BITS - 4) && target == 9 * unit
    requires farther.WellFormed() && farther.id == 4 * unit && nearer.WellFormed() && nearer.id == unit
    ensures ValidTable(root, ThreeBuckets(farther, nearer)) && Nearer(nearer, root, target)
    ensures var closest := [Ranked(Prefix(farther.id, target, 1), farther)];
            && IsMerged(closest, root, ThreeBuckets(farther, nearer), {}, target, 1, 1)
            && FindNodeHop(root, requester, target, closest, 1) == Root
  {
    NearerContactOverlooked(root, unit, target, farther, nearer);
    FindNodeStopsToo([Ranked(Prefix(farther.id, target, 1), farther)], root, requester,
                     ThreeBuckets(farther, nearer), {}, target, 1, 1);
  }

  lemma EitherNearer(a: set<Contact>, b: set<Contact>, root: NodeId, target: NodeId)
    ensures AnyNearer(a + b, root, target) <==> AnyNearer(a, root, target) || AnyNearer(b, root, target)
  {
  }

  /** For one contact this is the situation in which next_hop stops too early. */
  lemma OverlookedForOne(root: NodeId, buckets: Buckets, target: NodeId)
    requires ValidTable(root, buckets)
    ensures OverlookedFor(root, buckets, target, 1) <==> Overlooked(root, buckets, target)
  {
    MissesExactlyWhen(root, buckets, target, 1);
    if Overlooked(root, buckets, target) {
      OverlookedIsMissed(root, buckets, target);
    } else if OverlookedFor(root, buckets, target, 1) {
      var c :| c in Stored(buckets) && Nearer(c, root, target);
      var j :| 0 <= j < |buckets| && c in buckets[j];
      MissedIsOverlooked(root, buckets, target, j, c);
    }
  }

  // ---------- the check before a choice by proximity ----------

  /** Everything in a bucket: the valid contacts and those in other states. */
  function Held(buckets: Buckets, others: Buckets, level: nat): set<Contact>
    requires level < |buckets| && level < |others|
  {
    buckets[level] + others[level]
  }

  /** Buckets are compared by what they hold, so two empty ones are the same. */
  predicate SameBucket(root: NodeId, buckets: Buckets, others: Buckets, id: NodeId)
    requires 1 <= |buckets| == |others|
  {
    var last := |buckets| - 1;
    Held(buckets, others, Level(root, last, id)) == Held(buckets, others, last)
  }

  /** Neither bucket holds any contact, valid or not. */
  predicate BothEmpty(buckets: Buckets, others: Buckets, i: nat, j: nat)
    requires i < |buckets| == |others| && j < |buckets|
  {
    Held(buckets, others, i) == {} && Held(buckets, others, j) == {}
  }

  lemma SameBucketExactlyWhen(root: NodeId, buckets: Buckets, others: Buckets, id: NodeId)
    requires ValidTable(root, buckets) && ValidTable(root, others) && |buckets| == |others|
    ensures SameBucket(root, buckets, others, id)
       <==> || Level(root, |buckets| - 1, id) == |buckets| - 1
            || BothEmpty(buckets, others, Level(root, |buckets| - 1, id), |buckets| - 1)
  {
    var last := |buckets| - 1;
    var level := Level(root, last, id);
    forall c | c in Held(buckets, others, level) ensures Placed(root, last, level, c) {
    }
    forall c | c in Held(buckets, others, last) ensures Placed(root, last, last, c) {
    }
  }

  /** The contact shares more of the target than the root does. */
  predicate Progresses(c: NodeId, root: NodeId, target: NodeId, g: nat)
    requires ValidGrouping(g)
  {
    Prefix(c, target, g).length > Prefix(root, target, g).length
  }

  lemma {:induction false} ProgressInBits(c: NodeId, root: NodeId, target: NodeId, g: nat)
    requires ValidGrouping(g) && Progresses(c, root, target, g)
    ensures Progresses(c, root, target, 1)
  {
    PrefixLength(c, target, g);
    PrefixLength(root, target, g);
    PrefixLength(c, target, 1);
    PrefixLength(root, target, 1);
    var a, b := LeadingZeros(Distance(c, target), BITS), LeadingZeros(Distance(root, target), BITS);
    if a <= b { GroupsMonotone(a, b, g); }
  }

  lemma {:induction false} SharedLengthBounded(a: NodeId, b: NodeId)
    ensures Prefix(a, b, 1).length <= BITS
  {
    PrefixLength(a, b, 1);
  }

  /** Such a contact differs from the root where the target does. */
  lemma {:induction false} ProgressIsOnLevel(c: NodeId, root: NodeId, target: NodeId, g: nat, last: nat)
    requires ValidGrouping(g) && Progresses(c, root, target, g)
    ensures Level(root, last, c) == Level(root, last, target)
  {
    ProgressInBits(c, root, target, g);
    var shared := Prefix(root, target, 1).length;
    SharedLengthBounded(root, target);
    SharedLengthBounded(c, target);
    SharedBitsAtLeast(root, target, shared);
    SharedBitsAtLeast(root, target, shared + 1);
    SharedBitsAtLeast(c, target, shared);
    SharedBitsAtLeast(c, target, shared + 1);
    SharedBitsAtLeast(root, c, shared);
    SharedBitsAtLeast(root, c, shared + 1);
    assert Shr(c, BITS - shared) == Shr(target, BITS - shared) by {
      ShrStep(c, BITS - (shared + 1));
      ShrStep(target, BITS - (shared + 1));
    }
  }

  lemma EmptyLevelDoesNotProgress(root: NodeId, buckets: Buckets, target: NodeId, g: nat, c: Contact)
    requires ValidTable(root, buckets) && ValidGrouping(g) && c in Stored(buckets)
    requires buckets[Level(root, |buckets| - 1, target)] == {}
    ensures !Progresses(c.id, root, target, g)
  {
    var i :| 0 <= i < |buckets| && c in buckets[i];
    assert Placed(root, |buckets| - 1, i, c);
    if Progresses(c.id, root, target, g) {
      ProgressIsOnLevel(c.id, root, target, g, |buckets| - 1);
      assert false;
    }
  }

  predicate Longest(c: Contact, contacts: set<Contact>, target: NodeId, g: nat)
    requires ValidGrouping(g)
  {
    forall d :: d in contacts ==> Prefix(d.id, target, g).length <= Prefix(c.id, target, g).length
  }

  /** Two neighbours share equally much of the target, more than the root and no less than any other. */
  ghost predicate TwoLead(neighbors: set<Contact>, root: NodeId, target: NodeId, g: nat)
    requires ValidGrouping(g)
  {
    exists a, b ::
      && a in neighbors && b in neighbors && a != b && Progresses(a.id, root, target, g)
      && Longest(a, neighbors, target, g) && Longest(b, neighbors, target, g)
  }

  /** The list before it is cut: neighbours, and contacts none of which shares more of the target than the
      root does. */
  ghost predicate NeighborsAhead(merged: seq<Ranked>, inner: seq<Ranked>, neighbors: set<Contact>, root: NodeId,
                                 target: NodeId, g: nat)
    requires ValidGrouping(g)
  {
    && Sorts(merged, multiset(inner) + multiset(Ranks(neighbors, target, g)))
    && forall r :: r in multiset(inner) ==> r.prefix.length <= Prefix(root, target, g).length
  }

  lemma AheadIsNeighbor(merged: seq<Ranked>, inner: seq<Ranked>, neighbors: set<Contact>, root: NodeId, target: NodeId,
                        g: nat, i: nat)
    requires ValidGrouping(g) && NeighborsAhead(merged, inner, neighbors, root, target, g)
    requires i < |merged| && merged[i].prefix.length > Prefix(root, target, g).length
    ensures merged[i] in Ranks(neighbors, target, g) && multiset(merged)[merged[i]] == 1
  {
    var r := merged[i];
    assert r in multiset(merged) && r !in multiset(inner);
    assert multiset(merged)[r] == multiset(inner)[r] + multiset(Ranks(neighbors, target, g))[r];
  }

  lemma TwiceIsTwice(merged: seq<Ranked>)
    requires |merged| >= 2 && merged[0] == merged[1]
    ensures multiset(merged)[merged[0]] >= 2
  {
    assert merged == [merged[0]] + ([merged[1]] + merged[2..]);
  }

  lemma FirstTwoLead(merged: seq<Ranked>, inner: seq<Ranked>, neighbors: set<Contact>, root: NodeId, target: NodeId,
                     g: nat)
    requires ValidGrouping(g) && NeighborsAhead(merged, inner, neighbors, root, target, g)
    requires |merged| >= 2 && merged[1].prefix.length >= merged[0].prefix.length > Prefix(root, target, g).length
    ensures TwoLead(neighbors, root, target, g)
  {
    AheadIsNeighbor(merged, inner, neighbors, root, target, g, 0);
    AheadIsNeighbor(merged, inner, neighbors, root, target, g, 1);
    if merged[0] == merged[1] { TwiceIsTwice(merged); }
    var a, b := merged[0].contact, merged[1].contact;
    assert NotLonger(merged[1], merged[0]);
    forall d | d in neighbors ensures Prefix(d.id, target, g).length <= merged[0].prefix.length {
      var _ := NeighborIsListed(merged, inner, neighbors, target, g, d);
    }
    assert Longest(a, neighbors, target, g) && Longest(b, neighbors, target, g);
  }

  predicate NotLonger(a: Ranked, b: Ranked) {
    a.prefix.length <= b.prefix.length
  }

  lemma SortedIsNotLonger(sorted: seq<Ranked>, i: nat, j: nat)
    requires SortedByXor(sorted) && i <= j < |sorted|
    ensures NotLonger(sorted[j], sorted[i])
  {
  }

  lemma NeighborIsListed(merged: seq<Ranked>, inner: seq<Ranked>, neighbors: set<Contact>, target: NodeId, g: nat,
                         d: Contact)
    returns (k: nat)
    requires ValidGrouping(g) && Sorts(merged, multiset(inner) + multiset(Ranks(neighbors, target, g)))
             && d in neighbors
    ensures k < |merged| && merged[k] == Ranked(Prefix(d.id, target, g), d)
    ensures Prefix(d.id, target, g).length <= merged[0].prefix.length
  {
    var r := Ranked(Prefix(d.id, target, g), d);
    assert r in Ranks(neighbors, target, g);
    assert r in multiset(merged);
    k :| 0 <= k < |merged| && merged[k] == r;
    SortedIsNotLonger(merged, 0, k);
  }

  /** Two leading neighbours come first. */
  lemma LeadersComeFirst(merged: seq<Ranked>, inner: seq<Ranked>, neighbors: set<Contact>, root: NodeId,
                         target: NodeId, g: nat)
    requires ValidGrouping(g) && TwoLead(neighbors, root, target, g)
    requires Sorts(merged, multiset(inner) + multiset(Ranks(neighbors, target, g)))
    ensures |merged| >= 2 && merged[1].prefix.length > Prefix(root, target, g).length
    ensures merged[0].prefix.length > Prefix(root, target, g).length
  {
    var a, b :| && a in neighbors && b in neighbors && a != b && Progresses(a.id, root, target, g)
                && Longest(a, neighbors, target, g) && Longest(b, neighbors, target, g);
    var i := NeighborIsListed(merged, inner, neighbors, target, g, a);
    var j := NeighborIsListed(merged, inner, neighbors, target, g, b);
    SortedIsNotLonger(merged, 1, if i == 0 then j else i);
  }

  lemma LeadersAreEqual(merged: seq<Ranked>, inner: seq<Ranked>, neighbors: set<Contact>, root: NodeId, target: NodeId,
                        g: nat)
    requires ValidGrouping(g) && TwoLead(neighbors, root, target, g)
    requires NeighborsAhead(merged, inner, neighbors, root, target, g)
    ensures |merged| >= 2 && merged[1].prefix.length >= merged[0].prefix.length > Prefix(root, target, g).length
  {
    LeadersComeFirst(merged, inner, neighbors, root, target, g);
    AheadIsNeighbor(merged, inner, neighbors, root, target, g, 0);
    var a, b :| && a in neighbors && b in neighbors && a != b && Progresses(a.id, root, target, g)
                && Longest(a, neighbors, target, g) && Longest(b, neighbors, target, g);
    var i := NeighborIsListed(merged, inner, neighbors, target, g, a);
    var j := NeighborIsListed(merged, inner, neighbors, target, g, b);
    SortedIsNotLonger(merged, 1, if i == 0 then j else i);
    assert merged[0].contact in neighbors;
  }

  /** The check fails exactly when the target's bucket is not the last, neither of the two holds any contact,
      and two neighbours lead with equally long prefixes. */
  ghost predicate CheckFails(root: NodeId, buckets: Buckets, others: Buckets, neighbors: set<Contact>, target: NodeId,
                             g: nat)
    requires 1 <= |buckets| == |others| && ValidGrouping(g)
  {
    var last := |buckets| - 1;
    var t := Level(root, last, target);
    t < last && BothEmpty(buckets, others, t, last) && TwoLead(neighbors, root, target, g)
  }

  /** The bucket of the first contact listed looks like that of the root. */
  predicate FirstInSameBucket(closest: seq<Ranked>, root: NodeId, buckets: Buckets, others: Buckets)
    requires 1 <= |buckets| == |others|
  {
    closest != [] && SameBucket(root, buckets, others, closest[0].contact.id)
  }

  lemma EmptyBucketPutsNeighborsAhead(closest: seq<Ranked>, inner: seq<Ranked>, merged: seq<Ranked>, root: NodeId,
                                      buckets: Buckets, neighbors: set<Contact>, target: NodeId, g: nat)
    requires ValidTable(root, buckets) && ValidGrouping(g)
    requires IsMergeOf(closest, inner, merged, root, buckets, neighbors, target, 1, g)
    requires buckets[Level(root, |buckets| - 1, target)] == {}
    ensures NeighborsAhead(merged, inner, neighbors, root, target, g)
  {
    ClosestStopsExactlyWhen(inner, root, buckets, target, 1, g);
    CollectedIsStored(buckets, Walk(Level(root, |buckets| - 1, target), |buckets| - 1), 1);
    forall r | r in multiset(inner) ensures r.prefix.length <= Prefix(root, target, g).length {
      assert r in Ranks(Gathered(root, buckets, target, 1), target, g);
      EmptyLevelDoesNotProgress(root, buckets, target, g, r.contact);
    }
  }

  lemma MergeIsRanked(closest: seq<Ranked>, inner: seq<Ranked>, merged: seq<Ranked>, root: NodeId, buckets: Buckets,
                      neighbors: set<Contact>, target: NodeId, g: nat, i: nat)
    requires ValidTable(root, buckets) && ValidGrouping(g) && i < |merged|
    requires IsMergeOf(closest, inner, merged, root, buckets, neighbors, target, 1, g)
    ensures merged[i].prefix == Prefix(merged[i].contact.id, target, g)
  {
    ClosestStopsExactlyWhen(inner, root, buckets, target, 1, g);
    assert merged[i] in multiset(merged);
    assert merged[i] in multiset(inner) || merged[i] in Ranks(neighbors, target, g);
  }

  lemma FailureMeansTwoLead(closest: seq<Ranked>, inner: seq<Ranked>, merged: seq<Ranked>, root: NodeId,
                            buckets: Buckets, others: Buckets, neighbors: set<Contact>, target: NodeId, g: nat)
    requires ValidTable(root, buckets) && ValidTable(root, others) && |buckets| == |others| && ValidGrouping(g)
    requires IsMergeOf(closest, inner, merged, root, buckets, neighbors, target, 1, g)
    requires AssertionFails(root, target, closest, g, FirstInSameBucket(closest, root, buckets, others))
    ensures CheckFails(root, buckets, others, neighbors, target, g)
  {
    var last := |buckets| - 1;
    MergeIsRanked(closest, inner, merged, root, buckets, neighbors, target, g, 0);
    MergeIsRanked(closest, inner, merged, root, buckets, neighbors, target, g, 1);
    ProgressIsOnLevel(merged[0].contact.id, root, target, g, last);
    ProgressIsOnLevel(merged[1].contact.id, root, target, g, last);
    SameBucketExactlyWhen(root, buckets, others, merged[0].contact.id);
    EmptyBucketPutsNeighborsAhead(closest, inner, merged, root, buckets, neighbors, target, g);
    FirstTwoLead(merged, inner, neighbors, root, target, g);
  }

  lemma TwoLeadMeansFailure(closest: seq<Ranked>, inner: seq<Ranked>, merged: seq<Ranked>, root: NodeId,
                            buckets: Buckets, others: Buckets, neighbors: set<Contact>, target: NodeId, g: nat)
    requires ValidTable(root, buckets) && ValidTable(root, others) && |buckets| == |others| && ValidGrouping(g)
    requires IsMergeOf(closest, inner, merged, root, buckets, neighbors, target, 1, g)
    requires CheckFails(root, buckets, others, neighbors, target, g)
    ensures AssertionFails(root, target, closest, g, FirstInSameBucket(closest, root, buckets, others))
  {
    var last := |buckets| - 1;
    EmptyBucketPutsNeighborsAhead(closest, inner, merged, root, buckets, neighbors, target, g);
    LeadersAreEqual(merged, inner, neighbors, root, target, g);
    MergeIsRanked(closest, inner, merged, root, buckets, neighbors, target, g, 0);
    MergeIsRanked(closest, inner, merged, root, buckets, neighbors, target, g, 1);
    ProgressIsOnLevel(merged[0].contact.id, root, target, g, last);
    ProgressIsOnLevel(merged[1].contact.id, root, target, g, last);
    SameBucketExactlyWhen(root, buckets, others, merged[0].contact.id);
  }

  /** The assertion of next_hop, over the whole table in use. Contacts of the last bucket never violate it;
      what does is that two empty buckets look the same. */
  lemma AssertionFailsExactlyWhen(closest: seq<Ranked>, root: NodeId, buckets: Buckets, others: Buckets,
                                  neighbors: set<Contact>, target: NodeId, g: nat)
    requires ValidTable(root, buckets) && ValidTable(root, others) && |buckets| == |others| && ValidGrouping(g)
    requires IsMerged(closest, root, buckets, neighbors, target, 1, g)
    ensures AssertionFails(root, target, closest, g, FirstInSameBucket(closest, root, buckets, others))
       <==> CheckFails(root, buckets, others, neighbors, target, g)
  {
    var inner, merged :| IsMergeOf(closest, inner, merged, root, buckets, neighbors, target, 1, g);
    if CheckFails(root, buckets, others, neighbors, target, g) {
      TwoLeadMeansFailure(closest, inner, merged, root, buckets, others, neighbors, target, g);
    } else if AssertionFails(root, target, closest, g, FirstInSameBucket(closest, root, buckets, others)) {
      FailureMeansTwoLead(closest, inner, merged, root, buckets, others, neighbors, target, g);
    }
  }

  lemma {:induction false} LengthOfDistance(a: NodeId, b: NodeId, k: nat, n: nat)
    requires k + n + 1 == BITS && Pow2(k) <= Distance(a, b) < 2 * Pow2(k)
    ensures Prefix(a, b, 1).length == n && Prefix(a, b, 1).xor == Distance(a, b)
  {
    PrefixLength(a, b, 1);
    LeadingZerosAtLeast(Distance(a, b), BITS, n);
    LeadingZerosAtLeast(Distance(a, b), BITS, n + 1);
  }

  /** Root 0000, target 1000, neighbours 1100 and 1101 in the four highest bits. */
  predicate IsExample(root: NodeId, unit: nat, target: NodeId, a: Contact, b: Contact) {
    && root == 0 && unit == Pow2(BITS - 4) && target == 8 * unit
    && a.WellFormed() && a.id == 12 * unit && b.WellFormed() && b.id == 13 * unit
  }

  lemma {:induction false} ExampleXors(k: nat, unit: nat, target: NodeId, a: NodeId, b: NodeId)
    requires unit == Pow2(k) && target == 8 * unit && a == 12 * unit && b == 13 * unit
    ensures Distance(0, target) == 8 * unit && Distance(a, target) == 4 * unit && Distance(b, target) == 5 * unit
  {
    XorWithZero(target);
    DistanceScaled(12, 8, unit, k);
    DistanceScaled(13, 8, unit, k);
    assert Xor(12, 8) == 4 && Xor(13, 8) == 5;
  }

  lemma Shifted(k: nat, unit: nat)
    requires unit == Pow2(k)
    ensures Pow2(k + 2) == 4 * unit && Pow2(k + 3) == 8 * unit
  {
    assert Pow2(k + 1) == 2 * unit;
  }

  lemma {:induction false} ExamplePrefixes(k: nat, unit: nat, target: NodeId, a: NodeId, b: NodeId)
    requires k + 4 == BITS && unit == Pow2(k) && target == 8 * unit && a == 12 * unit && b == 13 * unit
    ensures Prefix(0, target, 1).length == 0
    ensures Prefix(a, target, 1) == SharedPrefix(4 * unit, 1) && Prefix(b, target, 1) == SharedPrefix(5 * unit, 1)
  {
    ExampleXors(k, unit, target, a, b);
    Shifted(k, unit);
    LengthOfDistance(0, target, k + 3, 0);
    LengthOfDistance(a, target, k + 2, 1);
    LengthOfDistance(b, target, k + 2, 1);
  }

  /** A table after a split, all of whose contacts have died. */
  function TwoEmpty(): Buckets {
    [{}, {}]
  }

  lemma {:induction false} NothingGathered(root: NodeId, target: NodeId)
    ensures Gathered(root, TwoEmpty(), target, 1) == {}
  {
    var order := Walk(Level(root, 1, target), 1);
    assert TwoEmpty()[order[0]] == {} && TwoEmpty()[order[1]] == {};
    FirstFilledBucket(TwoEmpty(), order, 2);
  }

  lemma EmptyTableListsNothing(root: NodeId, target: NodeId)
    ensures ValidTable(root, TwoEmpty()) && IsClosest([], root, TwoEmpty(), target, 1, 1)
  {
    var none: seq<Ranked> := [];
    NothingGathered(root, target);
    assert Ranks({}, target, 1) == {};
    assert Sorts(none, multiset(Ranks({}, target, 1)));
  }

  lemma TwoSorted(target: NodeId, a: Contact, b: Contact)
    requires a != b && Prefix(a.id, target, 1).length == Prefix(b.id, target, 1).length
    requires Prefix(a.id, target, 1).xor <= Prefix(b.id, target, 1).xor
    ensures Sorts([Ranked(Prefix(a.id, target, 1), a), Ranked(Prefix(b.id, target, 1), b)],
                  multiset(Ranks({a, b}, target, 1)))
  {
    var ra, rb := Ranked(Prefix(a.id, target, 1), a), Ranked(Prefix(b.id, target, 1), b);
    assert Ranks({a, b}, target, 1) == {ra, rb};
    assert multiset([ra, rb]) == multiset({ra, rb});
  }

  lemma OnlyNeighborsListed(root: NodeId, target: NodeId, a: Contact, b: Contact)
    requires a != b && Prefix(a.id, target, 1).length == Prefix(b.id, target, 1).length
    requires Prefix(a.id, target, 1).xor <= Prefix(b.id, target, 1).xor && Level(root, 1, b.id) == 0
    ensures var closest := [Ranked(Prefix(a.id, target, 1), a), Ranked(Prefix(b.id, target, 1), b)];
            ValidTable(root, TwoEmpty()) && IsMerged(closest, root, TwoEmpty(), {a, b}, target, 1, 1)
  {
    var closest := [Ranked(Prefix(a.id, target, 1), a), Ranked(Prefix(b.id, target, 1), b)];
    var ranks := multiset(Ranks({a, b}, target, 1));
    var none: seq<Ranked> := [];
    EmptyTableListsNothing(root, target);
    TwoSorted(target, a, b);
    assert multiset(none) + ranks == ranks;
    assert IsMergeOf(closest, none, closest, root, TwoEmpty(), {a, b}, target, 1, 1);
  }

  lemma TwoLeadInEmptyTable(root: NodeId, target: NodeId, a: Contact, b: Contact)
    requires a != b && Level(root, 1, target) == 0 && Progresses(a.id, root, target, 1)
    requires Prefix(a.id, target, 1).length == Prefix(b.id, target, 1).length
    ensures CheckFails(root, TwoEmpty(), TwoEmpty(), {a, b}, target, 1)
  {
    assert Longest(a, {a, b}, target, 1) && Longest(b, {a, b}, target, 1);
    assert TwoLead({a, b}, root, target, 1);
  }

  lemma {:induction false} ExampleProgresses(root: NodeId, unit: nat, target: NodeId, a: Contact, b: Contact)
    requires IsExample(root, unit, target, a, b)
    ensures a != b && Level(root, 1, target) == 0 && Level(root, 1, b.id) == 0
    ensures Progresses(a.id, root, target, 1)
    ensures Prefix(a.id, target, 1).length == Prefix(b.id, target, 1).length
    ensures Prefix(a.id, target, 1).xor <= Prefix(b.id, target, 1).xor
  {
    ExamplePrefixes(BITS - 4, unit, target, a.id, b.id);
    ProgressIsOnLevel(b.id, root, target, 1, 1);
  }

  /** Such a table exists: both buckets empty and two neighbours that share the first bit of the target. */
  lemma EmptyBucketsLookTheSame(root: NodeId, unit: nat, target: NodeId, a: Contact, b: Contact)
    requires IsExample(root, unit, target, a, b)
    ensures var closest := [Ranked(Prefix(a.id, target, 1), a), Ranked(Prefix(b.id, target, 1), b)];
            && ValidTable(root, TwoEmpty()) && IsMerged(closest, root, TwoEmpty(), {a, b}, target, 1, 1)
            && RankedFor(closest, root, target, 1) && AssertionFails(root, target, closest, 1, true)
    ensures CheckFails(root, TwoEmpty(), TwoEmpty(), {a, b}, target, 1)
  {
    ExampleProgresses(root, unit, target, a, b);
    OnlyNeighborsListed(root, target, a, b);
    TwoLeadInEmptyTable(root, target, a, b);
  }
}
