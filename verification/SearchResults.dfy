/** How many contacts a search in the routing table returns, and that they are the nearest ones. */
module SearchResults {
  import opened Bits
  import opened NodeIds
  import opened Routing
  import opened FlatTables

  // ---------- how many contacts the walk collects ----------

  predicate Distinct(order: seq<nat>) {
    forall i, j :: 0 <= i < j < |order| ==> order[i] != order[j]
  }

  lemma BucketsApart(root: NodeId, buckets: Buckets, i: nat, j: nat, c: Contact)
    requires ValidTable(root, buckets) && i < |buckets| && j < |buckets| && i != j && c in buckets[i]
    ensures c !in buckets[j]
  {
    assert Placed(root, |buckets| - 1, i, c);
  }

  lemma {:induction false} CollectedFrom(buckets: Buckets, order: seq<nat>, n: int, c: Contact) returns (i: nat)
    requires InRange(order, buckets) && c in Collected(buckets, order, n)
    ensures i < |order| && order[i] < |buckets| && c in buckets[order[i]]
  {
    assert order[0] < |buckets|;
    if c in buckets[order[0]] {
      i := 0;
    } else {
      i := CollectedFrom(buckets, order[1..], n - |buckets[order[0]]|, c);
      i := i + 1;
    }
  }

  lemma {:induction false} RestApart(root: NodeId, buckets: Buckets, order: seq<nat>, n: int)
    requires ValidTable(root, buckets) && InRange(order, buckets) && Distinct(order) && order != []
    ensures order[0] < |buckets| && InRange(order[1..], buckets)
    ensures buckets[order[0]] !! Collected(buckets, order[1..], n)
  {
    assert order[0] < |buckets|;
    forall c | c in Collected(buckets, order[1..], n) ensures c !in buckets[order[0]] {
      var j := CollectedFrom(buckets, order[1..], n, c);
      BucketsApart(root, buckets, order[j + 1], order[0], c);
    }
  }

  lemma UnionCounts(a: set<Contact>, b: set<Contact>)
    requires a !! b
    ensures |a + b| == |a| + |b|
  {
  }

  /** A walk that meets no bucket twice collects n contacts, or all there are on its way. */
  lemma {:induction false} CollectsEnough(root: NodeId, buckets: Buckets, order: seq<nat>, n: int, i: nat)
    requires ValidTable(root, buckets) && InRange(order, buckets) && Distinct(order) && i < |order|
    ensures order[i] < |buckets|
    ensures |Collected(buckets, order, n)| >= n || buckets[order[i]] <= Collected(buckets, order, n)
  {
    assert order[0] < |buckets|;
    var here := buckets[order[0]];
    if |here| < n && i > 0 {
      var rest := order[1..];
      RestApart(root, buckets, order, n - |here|);
      assert Collected(buckets, order, n) == here + Collected(buckets, rest, n - |here|);
      UnionCounts(here, Collected(buckets, rest, n - |here|));
      CollectsEnough(root, buckets, rest, n - |here|, i - 1);
      assert rest[i - 1] == order[i];
    }
  }

  lemma WalkMeets(t: nat, last: nat, buckets: Buckets, level: nat) returns (i: nat)
    requires t <= last && level <= last && |buckets| == last + 1
    ensures Distinct(Walk(t, last)) && InRange(Walk(t, last), buckets)
    ensures i < |Walk(t, last)| && Walk(t, last)[i] == level
  {
    i := if level >= t then level - t else last - level;
  }

  lemma MetIsCollected(root: NodeId, buckets: Buckets, t: nat, n: nat, level: nat)
    requires ValidTable(root, buckets) && t < |buckets| && level < |buckets|
    ensures InRange(Walk(t, |buckets| - 1), buckets)
    ensures var found := Collected(buckets, Walk(t, |buckets| - 1), n);
            |found| >= n || buckets[level] <= found
  {
    var i := WalkMeets(t, |buckets| - 1, buckets, level);
    CollectsEnough(root, buckets, Walk(t, |buckets| - 1), n, i);
  }

  /** The walk meets every bucket: it collects n contacts, or all that are stored. */
  lemma GatheredIsEnough(root: NodeId, buckets: Buckets, target: NodeId, n: nat)
    requires ValidTable(root, buckets) && |Gathered(root, buckets, target, n)| < n
    ensures Gathered(root, buckets, target, n) == Stored(buckets)
  {
    CollectedIsStored(buckets, Walk(Level(root, |buckets| - 1, target), |buckets| - 1), n);
    forall c | c in Stored(buckets) ensures c in Gathered(root, buckets, target, n) {
      var level :| 0 <= level < |buckets| && c in buckets[level];
      MetIsCollected(root, buckets, Level(root, |buckets| - 1, target), n, level);
    }
  }

  // ---------- which of them are listed ----------

  function RankOf(c: Contact, target: NodeId, g: nat): Ranked
    requires ValidGrouping(g)
  {
    Ranked(Prefix(c.id, target, g), c)
  }

  /** At least n contacts are listed, and the first n are all no farther from the target than this one. */
  predicate Beaten(listed: seq<Ranked>, n: nat, c: Contact, target: NodeId) {
    n <= |listed| && forall i :: 0 <= i < n ==> Distance(listed[i].contact.id, target) <= Distance(c.id, target)
  }

  /** No contact is left out for one that is farther: each is among the first n or beaten by them. */
  ghost predicate ListsNearest(listed: seq<Ranked>, contacts: set<Contact>, target: NodeId, n: nat, g: nat)
    requires ValidGrouping(g)
  {
    forall c :: c in contacts ==>
      RankOf(c, target, g) in (if n <= |listed| then listed[..n] else listed) || Beaten(listed, n, c, target)
  }

  lemma SortedByDistance(sorted: seq<Ranked>, target: NodeId, g: nat, i: nat, j: nat)
    requires ValidGrouping(g) && SortedByXor(sorted) && i <= j < |sorted|
    requires sorted[i] == RankOf(sorted[i].contact, target, g) && sorted[j] == RankOf(sorted[j].contact, target, g)
    ensures Distance(sorted[i].contact.id, target) <= Distance(sorted[j].contact.id, target)
  {
    SharedPrefixOrderIsXorOrder(sorted[i].contact.id, sorted[j].contact.id, target, g);
  }

  ghost predicate AreRanks(listed: seq<Ranked>, target: NodeId, g: nat)
    requires ValidGrouping(g)
  {
    forall i :: 0 <= i < |listed| ==> listed[i] == RankOf(listed[i].contact, target, g)
  }

  lemma ListedOrBeaten(sorted: seq<Ranked>, target: NodeId, n: nat, g: nat, c: Contact)
    requires ValidGrouping(g) && SortedByXor(sorted) && AreRanks(sorted, target, g)
    requires RankOf(c, target, g) in sorted
    ensures RankOf(c, target, g) in (if n <= |sorted| then sorted[..n] else sorted) || Beaten(sorted, n, c, target)
  {
    var k :| 0 <= k < |sorted| && sorted[k] == RankOf(c, target, g);
    if n <= k {
      forall i | 0 <= i < n ensures Distance(sorted[i].contact.id, target) <= Distance(c.id, target) {
        SortedByDistance(sorted, target, g, i, k);
      }
    } else if n <= |sorted| {
      assert sorted[..n][k] == sorted[k];
    }
  }

  lemma {:induction false} RanksCount(contacts: set<Contact>, target: NodeId, g: nat)
    requires ValidGrouping(g)
    ensures |Ranks(contacts, target, g)| == |contacts|
  {
    if contacts == {} {
      assert Ranks(contacts, target, g) == {};
    } else {
      var c :| c in contacts;
      RanksCount(contacts - {c}, target, g);
      assert Ranks(contacts, target, g) == Ranks(contacts - {c}, target, g) + {RankOf(c, target, g)};
    }
  }

  lemma RanksAreRanks(listed: seq<Ranked>, contacts: set<Contact>, target: NodeId, g: nat)
    requires ValidGrouping(g) && forall r :: r in multiset(listed) ==> r in Ranks(contacts, target, g)
    ensures AreRanks(listed, target, g)
  {
    forall i | 0 <= i < |listed| ensures listed[i] == RankOf(listed[i].contact, target, g) {
      assert listed[i] in multiset(listed);
    }
  }

  lemma SortedListsNearest(inner: seq<Ranked>, sorted: seq<Ranked>, cut: bool, contacts: set<Contact>, target: NodeId,
                           n: nat, g: nat, c: Contact)
    requires ValidGrouping(g) && IsCut(inner, sorted, cut, n) && AreRanks(sorted, target, g)
    requires Sorts(sorted, multiset(Ranks(contacts, target, g))) && c in contacts
    ensures RankOf(c, target, g) in inner || Beaten(inner, n, c, target)
  {
    assert RankOf(c, target, g) in Ranks(contacts, target, g);
    assert RankOf(c, target, g) in multiset(sorted);
    ListedOrBeaten(sorted, target, n, g, c);
  }

  lemma SortedCount(sorted: seq<Ranked>, contacts: set<Contact>, target: NodeId, g: nat)
    requires ValidGrouping(g) && Sorts(sorted, multiset(Ranks(contacts, target, g)))
    ensures |sorted| == |contacts| && AreRanks(sorted, target, g)
  {
    RanksCount(contacts, target, g);
    assert |multiset(sorted)| == |sorted|;
    RanksAreRanks(sorted, contacts, target, g);
  }

  /** The bucket table alone lists what the walk collected, or the n nearest of it. */
  lemma ClosestListsNearest(inner: seq<Ranked>, root: NodeId, buckets: Buckets, target: NodeId, n: nat, g: nat)
    requires ValidTable(root, buckets) && ValidGrouping(g) && IsClosest(inner, root, buckets, target, n, g)
    ensures SortedByXor(inner) && AreRanks(inner, target, g)
    ensures |inner| == |Gathered(root, buckets, target, n)| || |inner| == n
    ensures forall c :: c in Gathered(root, buckets, target, n) ==>
              RankOf(c, target, g) in inner || Beaten(inner, n, c, target)
  {
    var contacts := Gathered(root, buckets, target, n);
    var cut := Level(root, |buckets| - 1, target) == |buckets| - 1 && |buckets[|buckets| - 1]| >= n;
    var sorted :| Sorts(sorted, multiset(Ranks(contacts, target, g))) && IsCut(inner, sorted, cut, n);
    SortedCount(sorted, contacts, target, g);
    forall c | c in contacts ensures RankOf(c, target, g) in inner || Beaten(inner, n, c, target) {
      SortedListsNearest(inner, sorted, cut, contacts, target, n, g, c);
    }
  }

  lemma MultisetOfTail(s: seq<Ranked>, k: nat, x: Ranked)
    requires k <= |s| && x !in s[k..]
    ensures multiset(s)[x] == multiset(s[..k])[x]
  {
    assert s == s[..k] + s[k..];
    assert multiset(s[k..])[x] == 0;
  }

  /** Sorting more contacts in cannot push a farther one among the first n. */
  lemma StaysBeaten(merged: seq<Ranked>, inner: seq<Ranked>, more: multiset<Ranked>, target: NodeId, n: nat, g: nat,
                    c: Contact)
    requires ValidGrouping(g) && Sorts(merged, multiset(inner) + more) && AreRanks(merged, target, g)
    requires Beaten(inner, n, c, target)
    ensures Beaten(merged, n, c, target)
  {
    assert |multiset(merged)| == |merged| && |multiset(inner)| == |inner|;
    forall i | 0 <= i < n ensures Distance(merged[i].contact.id, target) <= Distance(c.id, target) {
      if Distance(merged[i].contact.id, target) > Distance(c.id, target) {
        FirstAreBehind(merged, inner, more, target, n, g, c, i);
        assert false;
      }
    }
  }

  lemma {:induction false} SmallerIsShorter(a: multiset<Ranked>, b: multiset<Ranked>)
    requires a <= b
    ensures |a| <= |b|
  {
    assert b == a + (b - a);
  }

  lemma FitsInFront(merged: seq<Ranked>, few: seq<Ranked>, i: nat)
    requires multiset(few) <= multiset(merged) && i <= |merged| && forall x :: x in few ==> x !in merged[i..]
    ensures |few| <= i
  {
    forall x ensures multiset(few)[x] <= multiset(merged[..i])[x] {
      if x in few { MultisetOfTail(merged, i, x); }
    }
    SmallerIsShorter(multiset(few), multiset(merged[..i]));
  }

  lemma BehindIsFarther(merged: seq<Ranked>, target: NodeId, g: nat, d: nat, i: nat, x: Ranked)
    requires ValidGrouping(g) && SortedByXor(merged) && AreRanks(merged, target, g) && i < |merged|
    requires Distance(x.contact.id, target) <= d < Distance(merged[i].contact.id, target)
    ensures x !in merged[i..]
  {
    forall j | i <= j < |merged| ensures merged[j] != x {
      SortedByDistance(merged, target, g, i, j);
    }
  }

  lemma FrontOf(inner: seq<Ranked>, more: multiset<Ranked>, n: nat)
    requires n <= |inner|
    ensures multiset(inner[..n]) <= multiset(inner) + more
  {
    assert inner == inner[..n] + inner[n..];
  }

  lemma FirstAreBehind(merged: seq<Ranked>, inner: seq<Ranked>, more: multiset<Ranked>, target: NodeId, n: nat, g: nat,
                       c: Contact, i: nat)
    requires ValidGrouping(g) && Sorts(merged, multiset(inner) + more) && AreRanks(merged, target, g)
    requires Beaten(inner, n, c, target) && i < |merged|
    requires Distance(merged[i].contact.id, target) > Distance(c.id, target)
    ensures n <= i
  {
    FrontOf(inner, more, n);
    forall x | x in inner[..n] ensures x !in merged[i..] {
      BehindIsFarther(merged, target, g, Distance(c.id, target), i, x);
    }
    FitsInFront(merged, inner[..n], i);
  }

  // ---------- the table in use ----------

  lemma MergedIsRanked(closest: seq<Ranked>, inner: seq<Ranked>, merged: seq<Ranked>, root: NodeId, buckets: Buckets,
                       neighbors: set<Contact>, target: NodeId, n: nat, g: nat)
    requires ValidTable(root, buckets) && ValidGrouping(g)
    requires IsMergeOf(closest, inner, merged, root, buckets, neighbors, target, n, g)
    ensures AreRanks(merged, target, g) && |merged| >= |inner|
    ensures forall r :: r in inner || r in Ranks(neighbors, target, g) ==> r in merged
  {
    ClosestListsNearest(inner, root, buckets, target, n, g);
    var both := multiset(inner) + multiset(Ranks(neighbors, target, g));
    assert |multiset(merged)| == |merged| && |multiset(inner)| == |inner|;
    forall i | 0 <= i < |merged| ensures merged[i] == RankOf(merged[i].contact, target, g) {
      assert merged[i] in multiset(merged);
      assert merged[i] in multiset(inner) || merged[i] in Ranks(neighbors, target, g);
    }
    forall r | r in inner || r in Ranks(neighbors, target, g) ensures r in merged {
      assert r in both;
      assert r in multiset(merged);
    }
  }

  lemma MergeListsNearest(closest: seq<Ranked>, inner: seq<Ranked>, merged: seq<Ranked>, root: NodeId, buckets: Buckets,
                          neighbors: set<Contact>, target: NodeId, n: nat, g: nat, c: Contact)
    requires ValidTable(root, buckets) && ValidGrouping(g)
    requires IsMergeOf(closest, inner, merged, root, buckets, neighbors, target, n, g)
    requires c in Gathered(root, buckets, target, n) + neighbors
    ensures RankOf(c, target, g) in (if n <= |merged| then merged[..n] else merged) || Beaten(merged, n, c, target)
  {
    ClosestListsNearest(inner, root, buckets, target, n, g);
    MergedIsRanked(closest, inner, merged, root, buckets, neighbors, target, n, g);
    if RankOf(c, target, g) in merged {
      ListedOrBeaten(merged, target, n, g, c);
    } else {
      assert RankOf(c, target, g) !in Ranks(neighbors, target, g);
      StaysBeaten(merged, inner, multiset(Ranks(neighbors, target, g)), target, n, g, c);
    }
  }

  /** The search returns the n contacts nearest to the target of all that the walk collected and all neighbours,
      nearest first. It returns fewer only if it returns everything the table and the neighbours hold, and more
      only if the first one too many is not in the last bucket. */
  lemma FindsNearest(closest: seq<Ranked>, root: NodeId, buckets: Buckets, neighbors: set<Contact>, target: NodeId,
                     n: nat, g: nat)
    requires ValidTable(root, buckets) && ValidGrouping(g)
    requires IsMerged(closest, root, buckets, neighbors, target, n, g)
    ensures SortedByXor(closest) && AreRanks(closest, target, g)
    ensures ListsNearest(closest, Gathered(root, buckets, target, n) + neighbors, target, n, g)
    ensures |closest| < n ==> forall c :: c in Stored(buckets) + neighbors ==> RankOf(c, target, g) in closest
    ensures |closest| > n ==> Level(root, |buckets| - 1, closest[n].contact.id) < |buckets| - 1
  {
    var inner, merged :| IsMergeOf(closest, inner, merged, root, buckets, neighbors, target, n, g);
    MergedIsRanked(closest, inner, merged, root, buckets, neighbors, target, n, g);
    ClosestListsNearest(inner, root, buckets, target, n, g);
    var found := Gathered(root, buckets, target, n) + neighbors;
    forall c | c in found
      ensures RankOf(c, target, g) in (if n <= |closest| then closest[..n] else closest)
              || Beaten(closest, n, c, target)
    {
      MergeListsNearest(closest, inner, merged, root, buckets, neighbors, target, n, g, c);
    }
    if |closest| < n {
      GatheredIsEnough(root, buckets, target, n);
    }
  }

  /** The list is cut exactly when the first contact after the nth agrees with the own id in as many bits as
      the last bucket demands. */
  lemma {:induction false} CutExactlyWhen(closest: seq<Ranked>, inner: seq<Ranked>, merged: seq<Ranked>, root: NodeId,
                                          buckets: Buckets,
                       neighbors: set<Contact>, target: NodeId, n: nat, g: nat)
    requires ValidTable(root, buckets) && ValidGrouping(g)
    requires IsMergeOf(closest, inner, merged, root, buckets, neighbors, target, n, g)
    ensures closest <= merged && (closest != merged ==> |closest| == n)
    ensures var free := BITS - (|buckets| - 1);
            closest != merged <==> n < |merged| && Shr(root, free) == Shr(merged[n].contact.id, free)
  {
    if n < |merged| {
      SharedBitsAtLeast(root, merged[n].contact.id, |buckets| - 1);
    }
  }
}
