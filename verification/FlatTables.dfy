/** The bucket table: one bucket for every number of leading bits shared with the own id, and the
    walk over the buckets that collects the contacts closest to a target. */
module FlatTables {
  import opened Bits
  import opened NodeIds
  import opened Routing

  /** The valid contacts of each bucket. The last bucket holds all ids that share more bits. */
  type Buckets = seq<set<Contact>>

  /** The bucket an id belongs to. */
  function Level(root: NodeId, last: nat, id: NodeId): (level: nat)
    ensures level <= last
  {
    var shared := Prefix(root, id, 1).length;
    if shared < last then shared else last
  }

  predicate Placed(root: NodeId, last: nat, level: nat, c: Contact) {
    c.WellFormed() && c.id != root && Level(root, last, c.id) == level
  }

  ghost predicate ValidTable(root: NodeId, buckets: Buckets) {
    && 1 <= |buckets| <= BITS
    && forall i, c :: 0 <= i < |buckets| && c in buckets[i] ==> Placed(root, |buckets| - 1, i, c)
  }

  /** Bit of an id, counted from the highest. */
  function BitAt(id: NodeId, level: nat): nat
    requires level < BITS
  {
    Shr(id, BITS - (level + 1)) % 2
  }

  predicate Nearer(c: Contact, root: NodeId, target: NodeId) {
    Distance(c.id, target) < Distance(root, target)
  }

  lemma {:induction false} SharedBitsAtLeast(a: NodeId, b: NodeId, n: nat)
    requires n <= BITS
    ensures Prefix(a, b, 1).length >= n <==> Shr(a, BITS - n) == Shr(b, BITS - n)
  {
    PrefixLength(a, b, 1);
    LeadingZerosAtLeast(Distance(a, b), BITS, n);
    ShrIsZeroBelowPow2(Distance(a, b), BITS - n);
    XorShr(a, b, BITS - n);
    XorZeroIffEqual(Shr(a, BITS - n), Shr(b, BITS - n));
  }

  /** The bits before the first difference agree and the next one does not. */
  lemma {:induction false} SharedBits(a: NodeId, b: NodeId, level: nat)
    requires level < BITS
    ensures level < Prefix(a, b, 1).length ==> BitAt(a, level) == BitAt(b, level)
    ensures level == Prefix(a, b, 1).length ==> BitAt(a, level) != BitAt(b, level)
    ensures level == Prefix(a, b, 1).length ==>
              Shr(a, BITS - (level + 1)) / 2 == Shr(b, BITS - (level + 1)) / 2
  {
    SharedBitsAtLeast(a, b, level);
    SharedBitsAtLeast(a, b, level + 1);
    ShrStep(a, BITS - (level + 1));
    ShrStep(b, BITS - (level + 1));
  }

  /** Whether a contact is nearer than the root depends only on the first bit in which it differs
      from the root, so it is the same for all contacts of a bucket other than the last. */
  lemma {:induction false} NearerIffBitDiffers(c: Contact, root: NodeId, target: NodeId, level: nat)
    requires level < BITS && Prefix(root, c.id, 1).length == level
    ensures Nearer(c, root, target) <==> BitAt(target, level) != BitAt(root, level)
  {
    SharedBits(root, c.id, level);
    NearerHasTheBit(c.id, root, target, BITS - (level + 1));
  }

  /** Order in which levels are visited: from the target's level down to the last, then up to the first. */
  function Walk(t: nat, last: nat): (order: seq<nat>)
    requires t <= last
    ensures |order| == last + 1
    ensures forall i :: 0 <= i <= last ==> order[i] == if t + i <= last then t + i else last - i
  {
    seq(last + 1, i requires 0 <= i <= last => if t + i <= last then t + i else last - i)
  }

  predicate InRange(order: seq<nat>, buckets: Buckets) {
    forall i :: 0 <= i < |order| ==> order[i] < |buckets|
  }

  /** Whole buckets are collected until there are n contacts. */
  function Collected(buckets: Buckets, order: seq<nat>, n: int): set<Contact>
    requires InRange(order, buckets)
  {
    if order == [] then {}
    else
      var here := buckets[order[0]];
      if |here| >= n then here else here + Collected(buckets, order[1..], n - |here|)
  }

  /** With one contact wanted the first bucket that is not empty is the last one visited. */
  lemma {:induction false} FirstFilledBucket(buckets: Buckets, order: seq<nat>, k: nat)
    requires InRange(order, buckets) && k <= |order|
    requires forall i :: 0 <= i < k ==> buckets[order[i]] == {}
    requires k < |order| ==> buckets[order[k]] != {}
    ensures Collected(buckets, order, 1) == if k < |order| then buckets[order[k]] else {}
  {
    if k > 0 {
      assert order[0] < |buckets|;
      FirstFilledBucket(buckets, order[1..], k - 1);
    }
  }

  function Ranks(contacts: set<Contact>, target: NodeId, g: nat): set<Ranked>
    requires ValidGrouping(g)
  {
    set c | c in contacts :: Ranked(Prefix(c.id, target, g), c)
  }

  /** The contacts collected for n contacts close to the target. */
  function Gathered(root: NodeId, buckets: Buckets, target: NodeId, n: nat): set<Contact>
    requires buckets != []
  {
    var last := |buckets| - 1;
    Collected(buckets, Walk(Level(root, last, target), last), n)
  }

  predicate IsCut(closest: seq<Ranked>, sorted: seq<Ranked>, cut: bool, n: nat) {
    if cut then n <= |sorted| && closest == sorted[..n] else closest == sorted
  }

  /** What the bucket table returns: the contacts collected, sorted; only if the last bucket alone
      suffices is the list cut to n. */
  ghost predicate IsClosest(closest: seq<Ranked>, root: NodeId, buckets: Buckets, target: NodeId, n: nat, g: nat)
    requires ValidTable(root, buckets) && ValidGrouping(g)
  {
    var last := |buckets| - 1;
    exists sorted ::
      && Sorts(sorted, multiset(Ranks(Gathered(root, buckets, target, n), target, g)))
      && IsCut(closest, sorted, Level(root, last, target) == last && |buckets[last]| >= n, n)
  }

  /** The table in use adds the valid contacts of the underlay neighbours, sorts again, and cuts if
      the contact after the nth belongs to the last bucket. */
  ghost predicate IsMerged(closest: seq<Ranked>, root: NodeId, buckets: Buckets, neighbors: set<Contact>,
                           target: NodeId, n: nat, g: nat)
    requires ValidTable(root, buckets) && ValidGrouping(g)
  {
    exists inner, merged :: IsMergeOf(closest, inner, merged, root, buckets, neighbors, target, n, g)
  }

  ghost predicate IsMergeOf(closest: seq<Ranked>, inner: seq<Ranked>, merged: seq<Ranked>, root: NodeId,
                            buckets: Buckets, neighbors: set<Contact>, target: NodeId, n: nat, g: nat)
    requires ValidTable(root, buckets) && ValidGrouping(g)
  {
    && IsClosest(inner, root, buckets, target, n, g)
    && Sorts(merged, multiset(inner) + multiset(Ranks(neighbors, target, g)))
    && IsCut(closest, merged, CutsLastBucket(merged, root, |buckets| - 1, n), n)
  }

  predicate CutsLastBucket(merged: seq<Ranked>, root: NodeId, last: nat, n: nat) {
    n < |merged| && Level(root, last, merged[n].contact.id) == last
  }

  ghost predicate Usable(root: NodeId, contacts: set<Contact>) {
    forall c :: c in contacts ==> c.WellFormed() && c.id != root
  }

  ghost predicate AnyNearer(contacts: set<Contact>, root: NodeId, target: NodeId) {
    exists c :: c in contacts && Nearer(c, root, target)
  }

  lemma {:induction false} CollectedIsPlaced(root: NodeId, buckets: Buckets, order: seq<nat>, n: int, c: Contact)
    requires ValidTable(root, buckets) && InRange(order, buckets) && c in Collected(buckets, order, n)
    ensures c.WellFormed() && c.id != root
  {
    assert order[0] < |buckets|;
    if c in buckets[order[0]] {
      assert Placed(root, |buckets| - 1, order[0], c);
    } else {
      CollectedIsPlaced(root, buckets, order[1..], n - |buckets[order[0]]|, c);
    }
  }

  lemma GatheredIsUsable(root: NodeId, buckets: Buckets, target: NodeId, n: nat)
    requires ValidTable(root, buckets)
    ensures Usable(root, Gathered(root, buckets, target, n))
  {
    var last := |buckets| - 1;
    var order := Walk(Level(root, last, target), last);
    forall c | c in Gathered(root, buckets, target, n) ensures c.WellFormed() && c.id != root {
      CollectedIsPlaced(root, buckets, order, n, c);
    }
  }

  lemma SortedIsRanked(sorted: seq<Ranked>, root: NodeId, contacts: set<Contact>, target: NodeId, g: nat)
    requires ValidGrouping(g) && Usable(root, contacts)
    requires forall r :: r in multiset(sorted) ==> r in Ranks(contacts, target, g)
    ensures RankedFor(sorted, root, target, g)
  {
    forall i | 0 <= i < |sorted|
      ensures sorted[i].contact in contacts && sorted[i].prefix == Prefix(sorted[i].contact.id, target, g)
    {
      assert sorted[i] in multiset(sorted);
    }
  }

  lemma CutStopsExactlyWhen(closest: seq<Ranked>, sorted: seq<Ranked>, cut: bool, n: nat, contacts: set<Contact>,
                            root: NodeId, target: NodeId, g: nat)
    requires ValidGrouping(g) && Usable(root, contacts) && n >= 1
    requires SortedByXor(sorted) && IsCut(closest, sorted, cut, n)
    requires forall r :: r in multiset(sorted) <==> r in Ranks(contacts, target, g)
    ensures RankedFor(closest, root, target, g)
    ensures NextHop(root, target, closest, g) == Root <==> !AnyNearer(contacts, root, target)
  {
    SortedIsRanked(sorted, root, contacts, target, g);
    SortedStopsExactlyWhen(root, target, sorted, multiset(sorted), |closest|, g);
    assert closest == sorted[..|closest|];
    forall c | c in contacts
      ensures Ranked(Prefix(c.id, target, g), c) in multiset(sorted) && Distance(c.id, target) != Distance(root, target)
    {
      assert Ranked(Prefix(c.id, target, g), c) in Ranks(contacts, target, g);
      ContactNeverAtRootDistance(c.id, root, target);
    }
    forall r | r in multiset(sorted) ensures r.contact in contacts {
      assert r in Ranks(contacts, target, g);
    }
  }

  lemma CutIsPart(closest: seq<Ranked>, sorted: seq<Ranked>, cut: bool, n: nat, ranks: set<Ranked>)
    requires Sorts(sorted, multiset(ranks)) && IsCut(closest, sorted, cut, n)
    ensures SortedByXor(closest) && forall r :: r in multiset(closest) ==> r in ranks
  {
    forall r | r in multiset(closest) ensures r in ranks {
      var i :| 0 <= i < |closest| && closest[i] == r;
      assert sorted[i] in multiset(sorted);
    }
  }

  /** The bucket table alone: next_hop stops exactly when nothing collected is nearer. */
  lemma ClosestStopsExactlyWhen(closest: seq<Ranked>, root: NodeId, buckets: Buckets, target: NodeId, n: nat, g: nat)
    requires ValidTable(root, buckets) && ValidGrouping(g) && n >= 1 && IsClosest(closest, root, buckets, target, n, g)
    ensures RankedFor(closest, root, target, g) && SortedByXor(closest)
    ensures forall r :: r in multiset(closest) ==> r in Ranks(Gathered(root, buckets, target, n), target, g)
    ensures NextHop(root, target, closest, g) == Root <==> !AnyNearer(Gathered(root, buckets, target, n), root, target)
  {
    var last := |buckets| - 1;
    var contacts := Gathered(root, buckets, target, n);
    var cut := Level(root, last, target) == last && |buckets[last]| >= n;
    var sorted :| Sorts(sorted, multiset(Ranks(contacts, target, g))) && IsCut(closest, sorted, cut, n);
    GatheredIsUsable(root, buckets, target, n);
    CutIsPart(closest, sorted, cut, n, Ranks(contacts, target, g));
    CutStopsExactlyWhen(closest, sorted, cut, n, contacts, root, target, g);
  }

  /** Adding contacts to a list that has a nearer contact if any of these has, sorting and cutting. */
  lemma AddedStopsExactlyWhen(closest: seq<Ranked>, inner: seq<Ranked>, merged: seq<Ranked>, cut: bool, n: nat,
                              contacts: set<Contact>, neighbors: set<Contact>, root: NodeId, target: NodeId, g: nat)
    requires ValidGrouping(g) && Usable(root, contacts) && Usable(root, neighbors) && n >= 1
    requires SortedByXor(inner) && forall r :: r in multiset(inner) ==> r in Ranks(contacts, target, g)
    requires NextHop(root, target, inner, g) == Root <==> !AnyNearer(contacts, root, target)
    requires Sorts(merged, multiset(inner) + multiset(Ranks(neighbors, target, g))) && IsCut(closest, merged, cut, n)
    ensures RankedFor(closest, root, target, g)
    ensures NextHop(root, target, closest, g) == Root
       <==> !AnyNearer(contacts, root, target) && !AnyNearer(neighbors, root, target)
  {
    var listed := set r | r in inner :: r.contact;
    ListedRanks(inner, listed, contacts, target, g);
    assert Usable(root, listed) && Usable(root, listed + neighbors);
    CutStopsExactlyWhen(inner, inner, false, n, listed, root, target, g);
    MergedRanks(merged, inner, listed, neighbors, target, g);
    CutStopsExactlyWhen(closest, merged, cut, n, listed + neighbors, root, target, g);
    assert AnyNearer(listed + neighbors, root, target)
      <==> AnyNearer(listed, root, target) || AnyNearer(neighbors, root, target);
  }

  /** The table in use: next_hop stops exactly when neither a collected contact nor a neighbour is nearer. */
  lemma MergedStopsExactlyWhen(closest: seq<Ranked>, root: NodeId, buckets: Buckets, neighbors: set<Contact>,
                               target: NodeId, n: nat, g: nat)
    requires ValidTable(root, buckets) && ValidGrouping(g) && Usable(root, neighbors) && n >= 1
    requires IsMerged(closest, root, buckets, neighbors, target, n, g)
    ensures RankedFor(closest, root, target, g)
    ensures NextHop(root, target, closest, g) == Root
       <==> !AnyNearer(Gathered(root, buckets, target, n), root, target) && !AnyNearer(neighbors, root, target)
  {
    var inner, merged :| IsMergeOf(closest, inner, merged, root, buckets, neighbors, target, n, g);
    ClosestStopsExactlyWhen(inner, root, buckets, target, n, g);
    GatheredIsUsable(root, buckets, target, n);
    AddedStopsExactlyWhen(closest, inner, merged, CutsLastBucket(merged, root, |buckets| - 1, n), n,
                          Gathered(root, buckets, target, n), neighbors, root, target, g);
  }

  lemma ListedRanks(inner: seq<Ranked>, listed: set<Contact>, contacts: set<Contact>, target: NodeId, g: nat)
    requires ValidGrouping(g) && listed == set r | r in inner :: r.contact
    requires forall r :: r in multiset(inner) ==> r in Ranks(contacts, target, g)
    ensures listed <= contacts
    ensures forall r :: r in multiset(inner) <==> r in Ranks(listed, target, g)
  {
    forall r | r in inner ensures r.contact in contacts && r.prefix == Prefix(r.contact.id, target, g) {
      assert r in multiset(inner);
    }
  }

  lemma MergedRanks(merged: seq<Ranked>, inner: seq<Ranked>, a: set<Contact>, b: set<Contact>, target: NodeId, g: nat)
    requires ValidGrouping(g) && multiset(merged) == multiset(inner) + multiset(Ranks(b, target, g))
    requires forall r :: r in multiset(inner) <==> r in Ranks(a, target, g)
    ensures forall r :: r in multiset(merged) <==> r in Ranks(a + b, target, g)
  {
    forall r | r in multiset(merged) ensures r in Ranks(a + b, target, g) {
      assert r in multiset(inner) || r in Ranks(b, target, g);
      assert r.contact in a + b;
    }
    forall r | r in Ranks(a + b, target, g) ensures r in multiset(merged) {
      if r.contact in a { assert r in Ranks(a, target, g); } else { assert r in Ranks(b, target, g); }
    }
  }

  /** Every contact of the buckets. */
  function Stored(buckets: Buckets): set<Contact> {
    set i, c | 0 <= i < |buckets| && c in buckets[i] :: c
  }

  /** The first bucket with contacts at or below level t. */
  predicate FirstFilled(buckets: Buckets, t: nat, i: nat) {
    t <= i < |buckets| && buckets[i] != {} && forall k :: t <= k < i ==> buckets[k] == {}
  }

  ghost predicate NearerBelow(root: NodeId, buckets: Buckets, target: NodeId, i: nat) {
    exists j, c :: i < j < |buckets| && c in buckets[j] && Nearer(c, root, target)
  }

  /** The target's bucket is empty, the first one with contacts below it is not the last, and there the
      target has the bit of the root. Then none of its contacts is nearer than the root, yet the search
      ends with it; a contact in a deeper bucket can be nearer. */
  ghost predicate Overlooked(root: NodeId, buckets: Buckets, target: NodeId)
    requires 1 <= |buckets| <= BITS
  {
    var last := |buckets| - 1;
    var t := Level(root, last, target);
    exists i: nat :: FirstFilled(buckets, t, i) && t < i < last && BitAt(target, i) == BitAt(root, i)
                  && NearerBelow(root, buckets, target, i)
  }

  /** Contacts of a level other than the last are nearer than the root, all or none. */
  lemma LevelNearer(root: NodeId, buckets: Buckets, target: NodeId, i: nat, c: Contact)
    requires ValidTable(root, buckets) && i < |buckets| - 1 && c in buckets[i]
    ensures Nearer(c, root, target) <==> BitAt(target, i) != BitAt(root, i)
    ensures i < Level(root, |buckets| - 1, target) ==> !Nearer(c, root, target)
    ensures i == Level(root, |buckets| - 1, target) ==> Nearer(c, root, target)
  {
    assert Placed(root, |buckets| - 1, i, c);
    NearerIffBitDiffers(c, root, target, i);
    SharedBits(root, target, i);
  }

  lemma StoredAt(buckets: Buckets, i: nat, c: Contact)
    requires i < |buckets| && c in buckets[i]
    ensures c in Stored(buckets)
  {
  }

  lemma FindFirstFilled(buckets: Buckets, t: nat, j: nat) returns (i: nat)
    requires t <= j < |buckets| && buckets[j] != {}
    ensures FirstFilled(buckets, t, i) && i <= j
  {
    i := t;
    while buckets[i] == {}
      invariant t <= i <= j && forall k :: t <= k < i ==> buckets[k] == {}
      decreases j - i
    {
      i := i + 1;
    }
  }

  /** For one contact the search ends with the first bucket that has any. */
  lemma {:induction false} GatheredIsFirstFilled(buckets: Buckets, t: nat, i: nat)
    requires FirstFilled(buckets, t, i)
    ensures Collected(buckets, Walk(t, |buckets| - 1), 1) == buckets[i]
  {
    var order := Walk(t, |buckets| - 1);
    forall m | 0 <= m < i - t ensures buckets[order[m]] == {} {
      assert order[m] == t + m;
    }
    assert order[i - t] == i;
    FirstFilledBucket(buckets, order, i - t);
  }

  /** A contact nearer than the root lies at or below the target's level. */
  lemma NearerIsBelow(root: NodeId, buckets: Buckets, target: NodeId, j: nat, c: Contact)
    requires ValidTable(root, buckets) && j < |buckets| && c in buckets[j] && Nearer(c, root, target)
    ensures Level(root, |buckets| - 1, target) <= j
  {
    if j < |buckets| - 1 { LevelNearer(root, buckets, target, j, c); }
  }

  lemma BlockedBy(root: NodeId, buckets: Buckets, target: NodeId, i: nat, d: Contact)
    requires ValidTable(root, buckets) && FirstFilled(buckets, Level(root, |buckets| - 1, target), i)
    requires d in buckets[i] && !Nearer(d, root, target) && NearerBelow(root, buckets, target, i)
    ensures Overlooked(root, buckets, target)
  {
    LevelNearer(root, buckets, target, i, d);
  }

  lemma MissedIsOverlooked(root: NodeId, buckets: Buckets, target: NodeId, j: nat, c: Contact)
    requires ValidTable(root, buckets) && j < |buckets| && c in buckets[j] && Nearer(c, root, target)
    requires !AnyNearer(Gathered(root, buckets, target, 1), root, target)
    ensures Overlooked(root, buckets, target)
  {
    var t := Level(root, |buckets| - 1, target);
    NearerIsBelow(root, buckets, target, j, c);
    var i := FindFirstFilled(buckets, t, j);
    GatheredIsFirstFilled(buckets, t, i);
    var d :| d in buckets[i];
    assert !Nearer(d, root, target) && i < j;
    BlockedBy(root, buckets, target, i, d);
  }

  lemma OverlookedIsMissed(root: NodeId, buckets: Buckets, target: NodeId)
    requires ValidTable(root, buckets) && Overlooked(root, buckets, target)
    ensures AnyNearer(Stored(buckets), root, target)
    ensures !AnyNearer(Gathered(root, buckets, target, 1), root, target)
  {
    var t := Level(root, |buckets| - 1, target);
    var i: nat :| FirstFilled(buckets, t, i) && t < i < |buckets| - 1 && BitAt(target, i) == BitAt(root, i)
               && NearerBelow(root, buckets, target, i);
    var j, c :| i < j < |buckets| && c in buckets[j] && Nearer(c, root, target);
    StoredAt(buckets, j, c);
    GatheredIsFirstFilled(buckets, t, i);
    forall d | d in Gathered(root, buckets, target, 1) ensures !Nearer(d, root, target) {
      LevelNearer(root, buckets, target, i, d);
    }
  }

  /** The search for the next hop ends at the root although the table holds a nearer contact exactly
      when the walk over the buckets overlooked it and no neighbour is nearer. */
  lemma StopsTooEarlyExactlyWhen(closest: seq<Ranked>, root: NodeId, buckets: Buckets, neighbors: set<Contact>,
                                 target: NodeId, g: nat)
    requires ValidTable(root, buckets) && ValidGrouping(g) && Usable(root, neighbors)
    requires IsMerged(closest, root, buckets, neighbors, target, 1, g)
    ensures (NextHop(root, target, closest, g) == Root && AnyNearer(Stored(buckets) + neighbors, root, target))
       <==> (Overlooked(root, buckets, target) && !AnyNearer(neighbors, root, target))
  {
    MergedStopsExactlyWhen(closest, root, buckets, neighbors, target, 1, g);
    if Overlooked(root, buckets, target) {
      OverlookedIsMissed(root, buckets, target);
    } else if NextHop(root, target, closest, g) == Root && AnyNearer(Stored(buckets), root, target) {
      var c :| c in Stored(buckets) && Nearer(c, root, target);
      var j :| 0 <= j < |buckets| && c in buckets[j];
      MissedIsOverlooked(root, buckets, target, j, c);
    }
  }

  lemma {:induction false} CollectedIsStored(buckets: Buckets, order: seq<nat>, n: int)
    requires InRange(order, buckets)
    ensures Collected(buckets, order, n) <= Stored(buckets)
  {
    if order != [] {
      assert order[0] < |buckets|;
      CollectedIsStored(buckets, order[1..], n - |buckets[order[0]]|);
    }
  }

  /** Apart from that, stopping at the root is right in both directions. */
  lemma StopsExactlyWhenRootIsNearest(closest: seq<Ranked>, root: NodeId, buckets: Buckets, neighbors: set<Contact>,
                                      target: NodeId, g: nat)
    requires ValidTable(root, buckets) && ValidGrouping(g) && Usable(root, neighbors)
    requires IsMerged(closest, root, buckets, neighbors, target, 1, g)
    ensures NextHop(root, target, closest, g) == Root
       <==> || !AnyNearer(Stored(buckets) + neighbors, root, target)
            || (Overlooked(root, buckets, target) && !AnyNearer(neighbors, root, target))
  {
    StopsTooEarlyExactlyWhen(closest, root, buckets, neighbors, target, g);
    MergedStopsExactlyWhen(closest, root, buckets, neighbors, target, 1, g);
    CollectedIsStored(buckets, Walk(Level(root, |buckets| - 1, target), |buckets| - 1), 1);
  }

  lemma {:induction false} SharesWithZero(x: NodeId, n: nat)
    requires n < BITS && Pow2(BITS - n - 1) <= x < Pow2(BITS - n)
    ensures Prefix(0, x, 1).length == n && Distance(0, x) == x
  {
    XorWithZero(x);
    PrefixLength(0, x, 1);
    LeadingZerosAtLeast(x, BITS, n);
    LeadingZerosAtLeast(x, BITS, n + 1);
  }

  lemma {:induction false} DistanceScaled(a: nat, b: nat, unit: nat, k: nat)
    requires unit == Pow2(k)
    ensures Xor(a * unit, b * unit) == Xor(a, b) * unit
  {
    ShlIsProduct(a, k);
    ShlIsProduct(b, k);
    ShlIsProduct(Xor(a, b), k);
    XorShl(a, b, k);
  }

  lemma {:induction false} ExampleLevels(k: nat, unit: nat, target: NodeId, far: NodeId, near: NodeId)
    requires k == BITS - 4 && unit == Pow2(k) && target == 9 * unit && far == 4 * unit && near == unit
    ensures Prefix(0, target, 1).length == 0 && Prefix(0, far, 1).length == 1 && Prefix(0, near, 1).length == 3
    ensures Distance(0, target) == target
  {
    assert Pow2(k + 1) == 2 * unit && Pow2(k + 2) == 4 * unit && Pow2(k + 3) == 8 * unit && Pow2(k + 4) == 16 * unit;
    SharesWithZero(target, 0);
    SharesWithZero(far, 1);
    SharesWithZero(near, 3);
  }

  lemma {:induction false} ExampleDistances(k: nat, unit: nat, target: NodeId, far: NodeId, near: NodeId)
    requires unit == Pow2(k) && target == 9 * unit && far == 4 * unit && near == unit
    ensures Distance(far, target) == 13 * unit && Distance(near, target) == 8 * unit
  {
    DistanceScaled(4, 9, unit, k);
    DistanceScaled(1, 9, unit, k);
    assert Xor(4, 9) == 13 && Xor(1, 9) == 8;
  }

  /** Nothing at the target's level, a contact one level down, another one deeper. */
  function ThreeBuckets(farther: Contact, nearer: Contact): Buckets {
    [{}, {farther}, {nearer}]
  }

  lemma OneGathered(root: NodeId, target: NodeId, farther: Contact, nearer: Contact)
    requires Level(root, 2, target) == 0
    ensures Gathered(root, ThreeBuckets(farther, nearer), target, 1) == {farther}
  {
    var buckets := ThreeBuckets(farther, nearer);
    assert buckets[0] == {} && buckets[1] == {farther};
    assert FirstFilled(buckets, 0, 1);
    GatheredIsFirstFilled(buckets, 0, 1);
  }

  lemma OneSorted(target: NodeId, c: Contact)
    ensures var closest := [Ranked(Prefix(c.id, target, 1), c)];
            && Sorts(closest, multiset(Ranks({c}, target, 1)))
            && Sorts(closest, multiset(closest) + multiset(Ranks({}, target, 1)))
  {
    var closest := [Ranked(Prefix(c.id, target, 1), c)];
    assert multiset(Ranks({c}, target, 1)) == multiset(closest);
    assert multiset(closest) + multiset(Ranks({}, target, 1)) == multiset(closest);
  }

  lemma OneListed(root: NodeId, target: NodeId, farther: Contact, nearer: Contact)
    requires ValidTable(root, ThreeBuckets(farther, nearer)) && Level(root, 2, target) == 0
    ensures Gathered(root, ThreeBuckets(farther, nearer), target, 1) == {farther}
    ensures IsMerged([Ranked(Prefix(farther.id, target, 1), farther)], root, ThreeBuckets(farther, nearer), {}, target,
            1, 1)
  {
    var closest := [Ranked(Prefix(farther.id, target, 1), farther)];
    OneGathered(root, target, farther, nearer);
    OneSorted(target, farther);
    assert IsCut(closest, closest, false, 1);
    assert IsClosest(closest, root, ThreeBuckets(farther, nearer), target, 1, 1);
    assert IsMergeOf(closest, closest, closest, root, ThreeBuckets(farther, nearer), {}, target, 1, 1);
  }

  lemma FartherContactHides(root: NodeId, target: NodeId, farther: Contact, nearer: Contact)
    requires Placed(root, 2, 1, farther) && Placed(root, 2, 2, nearer) && Level(root, 2, target) == 0
    requires !Nearer(farther, root, target)
    ensures ValidTable(root, ThreeBuckets(farther, nearer))
    ensures var closest := [Ranked(Prefix(farther.id, target, 1), farther)];
            && IsMerged(closest, root, ThreeBuckets(farther, nearer), {}, target, 1, 1)
            && NextHop(root, target, closest, 1) == Root
  {
    OneListed(root, target, farther, nearer);
    MergedStopsExactlyWhen([Ranked(Prefix(farther.id, target, 1), farther)], root, ThreeBuckets(farther, nearer), {},
        target, 1, 1);
  }

  /** Such a table exists: node 0 knows a contact at distance 8 from target 9 (all times 2^108) and is at
      distance 9 itself, but finds only the contact 4. */
  lemma NearerContactOverlooked(root: NodeId, unit: nat, target: NodeId, farther: Contact, nearer: Contact)
    requires root == 0 && unit == Pow2(BITS - 4) && target == 9 * unit
    requires farther.WellFormed() && farther.id == 4 * unit && nearer.WellFormed() && nearer.id == unit
    ensures ValidTable(root, ThreeBuckets(farther, nearer)) && Nearer(nearer, root, target)
    ensures var closest := [Ranked(Prefix(farther.id, target, 1), farther)];
            && IsMerged(closest, root, ThreeBuckets(farther, nearer), {}, target, 1, 1)
            && NextHop(root, target, closest, 1) == Root
  {
    ExampleLevels(BITS - 4, unit, target, farther.id, nearer.id);
    ExampleDistances(BITS - 4, unit, target, farther.id, nearer.id);
    assert Placed(root, 2, 1, farther) && Placed(root, 2, 2, nearer);
    FartherContactHides(root, target, farther, nearer);
  }
}
