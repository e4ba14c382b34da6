/** The routing tables as objects: buckets, and buckets with the underlay neighbours beside them. */
module RoutingTables {
  import opened NodeIds
  import opened Routing
  import opened FlatTables
  import opened TableSearch

  datatype ClosestResult = Closest(contacts: seq<Ranked>) | InvalidGroupSize

  predicate NotAfter(a: Ranked, b: Ranked) {
    ComparePrefixes(a.prefix, b.prefix) != Greater
  }

  /** Insertion before the first entry that is not nearer. */
  function InsertByXor(x: Ranked, xs: seq<Ranked>): (ys: seq<Ranked>)
    ensures multiset(ys) == multiset(xs) + multiset{x}
  {
    if xs == [] || NotAfter(x, xs[0]) then [x] + xs
    else
      assert xs == [xs[0]] + xs[1..];
      [xs[0]] + InsertByXor(x, xs[1..])
  }

  function SortByXor(xs: seq<Ranked>): (ys: seq<Ranked>)
    ensures multiset(ys) == multiset(xs)
  {
    if xs == [] then []
    else
      assert xs == [xs[0]] + xs[1..];
      InsertByXor(xs[0], SortByXor(xs[1..]))
  }

  lemma SortedWithHead(x: Ranked, xs: seq<Ranked>)
    requires SortedByXor(xs) && forall y :: y in multiset(xs) ==> NotAfter(x, y)
    ensures SortedByXor([x] + xs)
  {
    forall j | 0 <= j < |xs| ensures NotAfter(x, xs[j]) {
      assert xs[j] in multiset(xs);
    }
  }

  lemma {:induction false} InsertKeepsSorted(x: Ranked, xs: seq<Ranked>)
    requires SortedByXor(xs)
    ensures SortedByXor(InsertByXor(x, xs))
  {
    if xs != [] {
      forall y | y in multiset(xs) ensures NotAfter(xs[0], y) {
        var k :| 0 <= k < |xs| && xs[k] == y;
      }
      if NotAfter(x, xs[0]) {
        SortedWithHead(x, xs);
      } else {
        assert xs == [xs[0]] + xs[1..];
        InsertKeepsSorted(x, xs[1..]);
        SortedWithHead(xs[0], InsertByXor(x, xs[1..]));
      }
    }
  }

  lemma {:induction false} SortSorts(xs: seq<Ranked>)
    ensures Sorts(SortByXor(xs), multiset(xs))
  {
    if xs != [] {
      SortSorts(xs[1..]);
      InsertKeepsSorted(xs[0], SortByXor(xs[1..]));
    }
  }

  ghost predicate Lists(xs: seq<Ranked>, contacts: set<Contact>, target: NodeId, g: nat)
    requires ValidGrouping(g)
  {
    multiset(xs) == multiset(Ranks(contacts, target, g))
  }

  lemma {:induction false} RanksSize(contacts: set<Contact>, target: NodeId, g: nat)
    requires ValidGrouping(g)
    ensures |Ranks(contacts, target, g)| == |contacts|
  {
    if contacts != {} {
      var c :| c in contacts;
      var r := Ranked(Prefix(c.id, target, g), c);
      RanksSize(contacts - {c}, target, g);
      assert Ranks(contacts, target, g) == Ranks(contacts - {c}, target, g) + {r};
    }
  }

  lemma ListsMore(xs: seq<Ranked>, ys: seq<Ranked>, a: set<Contact>, b: set<Contact>, target: NodeId, g: nat)
    requires ValidGrouping(g) && Lists(xs, a, target, g) && Lists(ys, b, target, g) && a !! b
    ensures Lists(xs + ys, a + b, target, g) && |xs + ys| == |a + b|
  {
    var ra, rb := Ranks(a, target, g), Ranks(b, target, g);
    assert ra !! rb;
    assert Ranks(a + b, target, g) == ra + rb;
    assert multiset(ra + rb) == multiset(ra) + multiset(rb);
    RanksSize(a + b, target, g);
    assert |multiset(xs + ys)| == |xs + ys|;
  }

  ghost predicate ApartAt(buckets: Buckets, order: seq<nat>, k: nat, m: nat)
    requires InRange(order, buckets) && k < |order| && m < |order|
  {
    buckets[order[k]] !! buckets[order[m]]
  }

  /** No two buckets visited share a contact. */
  ghost predicate Apart(buckets: Buckets, order: seq<nat>)
    requires InRange(order, buckets)
  {
    forall k, m :: 0 <= k < m < |order| ==> ApartAt(buckets, order, k, m)
  }

  lemma WalkIsApart(root: NodeId, buckets: Buckets, t: nat)
    requires ValidTable(root, buckets) && t < |buckets|
    ensures InRange(Walk(t, |buckets| - 1), buckets) && Apart(buckets, Walk(t, |buckets| - 1))
  {
    var order := Walk(t, |buckets| - 1);
    forall k: nat, m: nat | k < m < |order| ensures ApartAt(buckets, order, k, m) {
      assert order[k] != order[m];
      assert forall c :: c in buckets[order[k]] ==> Placed(root, |buckets| - 1, order[k], c);
    }
  }

  /** The first k buckets of the walk hold these contacts, fewer than wanted. */
  ghost predicate Partly(got: set<Contact>, buckets: Buckets, order: seq<nat>, k: nat, n: nat)
    requires InRange(order, buckets)
  {
    && k <= |order| && |got| < n
    && got + Collected(buckets, order[k..], n - |got|) == Collected(buckets, order, n)
    && forall m :: k <= m < |order| ==> got !! buckets[order[m]]
  }

  lemma {:induction false} PartlyNext(got: set<Contact>, buckets: Buckets, order: seq<nat>, k: nat, n: nat)
    requires InRange(order, buckets) && Partly(got, buckets, order, k, n) && k < |order|
    requires forall m :: k < m < |order| ==> buckets[order[k]] !! buckets[order[m]]
    ensures var next := got + buckets[order[k]];
            if |next| >= n then Collected(buckets, order, n) == next else Partly(next, buckets, order, k + 1, n)
  {
    var here := buckets[order[k]];
    assert order[k..][0] == order[k] && order[k..][1..] == order[k + 1..];
    assert |got + here| == |got| + |here|;
    var rest := Collected(buckets, order[k..], n - |got|);
    if |here| < n - |got| {
      assert rest == here + Collected(buckets, order[k + 1..], n - |got| - |here|);
      assert got + rest == (got + here) + Collected(buckets, order[k + 1..], n - |got + here|);
    }
  }

  lemma {:induction false} PartlyDone(got: set<Contact>, buckets: Buckets, order: seq<nat>, n: nat)
    requires InRange(order, buckets) && Partly(got, buckets, order, |order|, n)
    ensures Collected(buckets, order, n) == got
  {
    assert order[|order|..] == [];
  }

  lemma {:induction false} PartlyStart(buckets: Buckets, order: seq<nat>, n: nat)
    requires InRange(order, buckets) && n > 0
    ensures Partly({}, buckets, order, 0, n)
  {
    assert order[0..] == order;
  }

  lemma {:induction false} SortedLists(result: seq<Ranked>, contacts: set<Contact>, target: NodeId, g: nat)
    requires ValidGrouping(g) && Lists(result, contacts, target, g)
    ensures Sorts(SortByXor(result), multiset(Ranks(contacts, target, g))) && |SortByXor(result)| == |result|
  {
    SortSorts(result);
    assert |multiset(SortByXor(result))| == |SortByXor(result)| && |multiset(result)| == |result|;
  }

  lemma {:induction false} SortedIsClosest(result: seq<Ranked>, root: NodeId, buckets: Buckets, target: NodeId, n: nat,
                                           g: nat)
    requires ValidTable(root, buckets) && ValidGrouping(g)
             && Lists(result, Gathered(root, buckets, target, n), target, g)
    requires Level(root, |buckets| - 1, target) == |buckets| - 1 ==> |buckets[|buckets| - 1]| < n
    ensures IsClosest(SortByXor(result), root, buckets, target, n, g)
  {
    SortedLists(result, Gathered(root, buckets, target, n), target, g);
    assert IsCut(SortByXor(result), SortByXor(result), false, n);
  }

  /** The contacts of a bucket with their shared prefixes. */
  method ValidWithPrefix(bucket: set<Contact>, target: NodeId, g: nat) returns (result: seq<Ranked>)
    requires ValidGrouping(g)
    ensures Lists(result, bucket, target, g) && |result| == |bucket|
  {
    result := [];
    var left := bucket;
    while left != {}
      invariant left <= bucket && Lists(result, bucket - left, target, g) && |result| == |bucket - left|
      decreases |left|
    {
      var c :| c in left;
      var r := Ranked(Prefix(c.id, target, g), c);
      assert Ranks({c}, target, g) == {r};
      ListsMore(result, [r], bucket - left, {c}, target, g);
      assert bucket - (left - {c}) == (bucket - left) + {c};
      result := result + [r];
      left := left - {c};
    }
    assert bucket - left == bucket;
  }

  /** The contacts of the first k buckets of the walk. */
  function Visited(buckets: Buckets, order: seq<nat>, k: nat): set<Contact>
    requires InRange(order, buckets) && k <= |order|
  {
    if k == 0 then {} else Visited(buckets, order, k - 1) + buckets[order[k - 1]]
  }

  lemma {:induction false} VisitedIsPartly(buckets: Buckets, order: seq<nat>, k: nat, n: nat)
    requires InRange(order, buckets) && Apart(buckets, order) && k <= |order| && |Visited(buckets, order, k)| < n
    ensures Partly(Visited(buckets, order, k), buckets, order, k, n)
  {
    if k == 0 {
      PartlyStart(buckets, order, n);
    } else {
      SubsetSize(Visited(buckets, order, k - 1), Visited(buckets, order, k));
      VisitedIsPartly(buckets, order, k - 1, n);
      forall m | k - 1 < m < |order| ensures buckets[order[k - 1]] !! buckets[order[m]] {
        assert ApartAt(buckets, order, k - 1, m);
      }
      PartlyNext(Visited(buckets, order, k - 1), buckets, order, k - 1, n);
    }
  }

  lemma {:induction false} SubsetSize<T>(s: set<T>, t: set<T>)
    requires s <= t
    ensures |s| <= |t|
  {
    if s != {} {
      var x :| x in s;
      SubsetSize(s - {x}, t - {x});
    }
  }

  /** The list holds what the first k buckets of the walk hold, and that is not enough. */
  ghost predicate Holding(result: seq<Ranked>, buckets: Buckets, order: seq<nat>, k: nat, n: nat, target: NodeId,
                          g: nat)
    requires ValidGrouping(g) && InRange(order, buckets)
  {
    && k <= |order| && |result| == |Visited(buckets, order, k)| < n
    && Lists(result, Visited(buckets, order, k), target, g)
  }

  lemma {:induction false} HoldingNext(result: seq<Ranked>, more: seq<Ranked>, buckets: Buckets, order: seq<nat>,
                                       k: nat, n: nat, target: NodeId, g: nat)
    requires ValidGrouping(g) && InRange(order, buckets) && Apart(buckets, order) && k < |order|
    requires Holding(result, buckets, order, k, n, target, g) && Lists(more, buckets[order[k]], target, g)
    ensures |result + more| >= n ==> Lists(result + more, Collected(buckets, order, n), target, g)
    ensures |result + more| < n ==> Holding(result + more, buckets, order, k + 1, n, target, g)
  {
    VisitedIsPartly(buckets, order, k, n);
    forall m | k < m < |order| ensures buckets[order[k]] !! buckets[order[m]] {
      assert ApartAt(buckets, order, k, m);
    }
    PartlyNext(Visited(buckets, order, k), buckets, order, k, n);
    ListsMore(result, more, Visited(buckets, order, k), buckets[order[k]], target, g);
  }

  lemma {:induction false} HoldingDone(result: seq<Ranked>, buckets: Buckets, order: seq<nat>, k: nat, n: nat,
                                       target: NodeId, g: nat)
    requires ValidGrouping(g) && InRange(order, buckets) && Apart(buckets, order)
    requires Holding(result, buckets, order, k, n, target, g) && k == |order|
    ensures Lists(result, Collected(buckets, order, n), target, g)
  {
    VisitedIsPartly(buckets, order, k, n);
    PartlyDone(Visited(buckets, order, k), buckets, order, n);
  }

  lemma {:induction false} FirstBucketSuffices(root: NodeId, buckets: Buckets, target: NodeId, n: nat)
    requires ValidTable(root, buckets)
    requires |buckets[Level(root, |buckets| - 1, target)]| >= n
    ensures Gathered(root, buckets, target, n) == buckets[Level(root, |buckets| - 1, target)]
  {
    var last := |buckets| - 1;
    assert Walk(Level(root, last, target), last)[0] == Level(root, last, target);
  }

  /** The last bucket is the target's and suffices, so its n nearest contacts are returned. */
  lemma {:induction false} LastBucketSuffices(result: seq<Ranked>, root: NodeId, buckets: Buckets, target: NodeId,
                                              n: nat, g: nat)
    requires ValidTable(root, buckets) && ValidGrouping(g)
    requires Level(root, |buckets| - 1, target) == |buckets| - 1
    requires Lists(result, buckets[|buckets| - 1], target, g) && |result| == |buckets[|buckets| - 1]| >= n
    ensures |SortByXor(result)| == |result| && IsClosest(SortByXor(result)[..n], root, buckets, target, n, g)
  {
    FirstBucketSuffices(root, buckets, target, n);
    SortedLists(result, Gathered(root, buckets, target, n), target, g);
    assert IsCut(SortByXor(result)[..n], SortByXor(result), true, n);
  }

  predicate IsAt(order: seq<nat>, k: nat, level: nat) {
    k < |order| && order[k] == level
  }

  method Visit(buckets: Buckets, start: seq<Ranked>, level: nat, ghost order: seq<nat>, ghost k: nat, n: nat,
               target: NodeId, g: nat) returns (result: seq<Ranked>)
    requires ValidGrouping(g) && InRange(order, buckets) && Apart(buckets, order)
    requires level < |buckets| && IsAt(order, k, level)
    requires Holding(start, buckets, order, k, n, target, g)
    ensures |result| >= n ==> Lists(result, Collected(buckets, order, n), target, g)
    ensures |result| < n ==> Holding(result, buckets, order, k + 1, n, target, g)
  {
    var more := ValidWithPrefix(buckets[level], target, g);
    HoldingNext(start, more, buckets, order, k, n, target, g);
    result := start + more;
  }

  /** Collects the levels below t, in order, until there are n contacts. */
  method CollectDeeper(buckets: Buckets, start: seq<Ranked>, t: nat, ghost order: seq<nat>, n: nat, target: NodeId,
                       g: nat)
    returns (result: seq<Ranked>)
    requires ValidGrouping(g) && InRange(order, buckets) && Apart(buckets, order) && |order| == |buckets|
             && t < |buckets|
    requires forall k: nat, level: nat :: t < level < |buckets| && level == t + k ==> IsAt(order, k, level)
    requires Holding(start, buckets, order, 1, n, target, g)
    ensures |result| >= n ==> Lists(result, Collected(buckets, order, n), target, g)
    ensures |result| < n ==> Holding(result, buckets, order, |buckets| - t, n, target, g)
  {
    result := start;
    var level := t + 1;
    ghost var k := 1;
    while level < |buckets|
      invariant t < level <= |buckets| && k == level - t
      invariant Holding(result, buckets, order, k, n, target, g)
    {
      result := Visit(buckets, result, level, order, k, n, target, g);
      if |result| >= n {
        return;
      }
      level := level + 1;
      k := k + 1;
    }
  }

  /** Collects the levels above t, nearest first, until there are n contacts. */
  method CollectHigher(buckets: Buckets, start: seq<Ranked>, t: nat, ghost order: seq<nat>, n: nat, target: NodeId,
                       g: nat)
    returns (result: seq<Ranked>)
    requires ValidGrouping(g) && InRange(order, buckets) && Apart(buckets, order) && |order| == |buckets|
             && t < |buckets|
    requires forall k: nat, level: nat :: level < t && k + level + 1 == |buckets| ==> IsAt(order, k, level)
    requires Holding(start, buckets, order, |buckets| - t, n, target, g)
    ensures |result| >= n ==> Lists(result, Collected(buckets, order, n), target, g)
    ensures |result| < n ==> Holding(result, buckets, order, |buckets|, n, target, g)
  {
    result := start;
    var k := |buckets| - t;
    while k < |buckets|
      invariant |buckets| - t <= k <= |buckets|
      invariant Holding(result, buckets, order, k, n, target, g)
    {
      result := Visit(buckets, result, |buckets| - 1 - k, order, k, n, target, g);
      if |result| >= n {
        return;
      }
      k := k + 1;
    }
  }

  /** The bucket of the target does not suffice: deeper levels first, then the higher ones. */
  method CollectAlong(buckets: Buckets, start: seq<Ranked>, t: nat, ghost order: seq<nat>, n: nat, target: NodeId,
                      g: nat)
    returns (result: seq<Ranked>)
    requires ValidGrouping(g) && t < |buckets| && order == Walk(t, |buckets| - 1)
    requires InRange(order, buckets) && Apart(buckets, order)
    requires Lists(start, buckets[t], target, g) && |start| < n
    ensures Lists(result, Collected(buckets, order, n), target, g)
  {
    assert order[0] == t && Lists([], {}, target, g);
    HoldingNext([], start, buckets, order, 0, n, target, g);
    assert [] + start == start;
    result := CollectDeeper(buckets, start, t, order, n, target, g);
    if |result| < n {
      result := CollectHigher(buckets, result, t, order, n, target, g);
      if |result| < n {
        HoldingDone(result, buckets, order, |buckets|, n, target, g);
      }
    }
  }

  method CollectFrom(root: NodeId, buckets: Buckets, start: seq<Ranked>, n: nat, target: NodeId, g: nat)
    returns (result: seq<Ranked>)
    requires ValidTable(root, buckets) && ValidGrouping(g)
    requires Lists(start, buckets[Level(root, |buckets| - 1, target)], target, g) && |start| < n
    ensures Lists(result, Gathered(root, buckets, target, n), target, g)
  {
    var t := Level(root, |buckets| - 1, target);
    WalkIsApart(root, buckets, t);
    result := CollectAlong(buckets, start, t, Walk(t, |buckets| - 1), n, target, g);
  }

  lemma {:induction false} VisitedHas(buckets: Buckets, order: seq<nat>, k: nat, m: nat)
    requires InRange(order, buckets) && m < k <= |order|
    ensures buckets[order[m]] <= Visited(buckets, order, k)
  {
    if m < k - 1 { VisitedHas(buckets, order, k - 1, m); }
  }

  lemma {:induction false} VisitedIsStored(buckets: Buckets, order: seq<nat>, k: nat)
    requires InRange(order, buckets) && k <= |order|
    ensures Visited(buckets, order, k) <= Stored(buckets)
  {
    if k > 0 {
      VisitedIsStored(buckets, order, k - 1);
      assert order[k - 1] < |buckets|;
    }
  }

  lemma {:induction false} TooFewVisited(buckets: Buckets, order: seq<nat>, k: nat, n: nat)
    requires InRange(order, buckets) && Apart(buckets, order) && k <= |order| && |Collected(buckets, order, n)| < n
    ensures |Visited(buckets, order, k)| < n
  {
    if k > 0 {
      TooFewVisited(buckets, order, k - 1, n);
      VisitedIsPartly(buckets, order, k - 1, n);
      forall m | k - 1 < m < |order| ensures buckets[order[k - 1]] !! buckets[order[m]] {
        assert ApartAt(buckets, order, k - 1, m);
      }
      PartlyNext(Visited(buckets, order, k - 1), buckets, order, k - 1, n);
    }
  }

  /** Fewer contacts than asked for are only returned when these are all the table has. */
  lemma FewerMeansAll(root: NodeId, buckets: Buckets, target: NodeId, n: nat)
    requires ValidTable(root, buckets) && |Gathered(root, buckets, target, n)| < n
    ensures Gathered(root, buckets, target, n) == Stored(buckets)
  {
    var last := |buckets| - 1;
    var t := Level(root, last, target);
    var order := Walk(t, last);
    WalkIsApart(root, buckets, t);
    TooFewVisited(buckets, order, |order|, n);
    VisitedIsPartly(buckets, order, |order|, n);
    PartlyDone(Visited(buckets, order, |order|), buckets, order, n);
    VisitedIsStored(buckets, order, |order|);
    forall i, c | 0 <= i < |buckets| && c in buckets[i] ensures c in Visited(buckets, order, |order|) {
      var m := if t <= i then i - t else last - i;
      assert order[m] == i;
      VisitedHas(buckets, order, |order|, m);
    }
  }

  datatype SplitResult = Split(index: nat) | MaxBucketsReached | Unsplittable

  /** The last bucket divided by one more bit of the root. */
  ghost function Divided(root: NodeId, buckets: Buckets): Buckets
    requires buckets != []
  {
    var last := |buckets| - 1;
    buckets[..last] + [OnLevel(root, last + 1, last, buckets[last]), OnLevel(root, last + 1, last + 1, buckets[last])]
  }

  ghost function OnLevel(root: NodeId, last: nat, level: nat, contacts: set<Contact>): set<Contact> {
    set c | c in contacts && Level(root, last, c.id) == level
  }

  ghost predicate Spread(root: NodeId, last: nat, contacts: set<Contact>, exact: set<Contact>, deeper: set<Contact>) {
    exact == OnLevel(root, last + 1, last, contacts) && deeper == OnLevel(root, last + 1, last + 1, contacts)
  }

  lemma SpreadOne(root: NodeId, last: nat, contacts: set<Contact>, exact: set<Contact>, deeper: set<Contact>,
                  c: Contact)
    requires Spread(root, last, contacts, exact, deeper) && Placed(root, last, last, c)
    ensures if Level(root, last + 1, c.id) == last then Spread(root, last, contacts + {c}, exact + {c}, deeper)
            else Spread(root, last, contacts + {c}, exact, deeper + {c})
  {
  }

  lemma DividedIsValid(root: NodeId, buckets: Buckets)
    requires ValidTable(root, buckets) && |buckets| < BITS
    ensures ValidTable(root, Divided(root, buckets)) && Stored(Divided(root, buckets)) == Stored(buckets)
  {
    var last, next := |buckets| - 1, Divided(root, buckets);
    forall i, c | 0 <= i < |next| && c in next[i] ensures Placed(root, last + 1, i, c) && c in Stored(buckets) {
      var was := if i < last then i else last;
      assert c in buckets[was];
      assert Placed(root, last, was, c);
    }
    forall i, c | 0 <= i < |buckets| && c in buckets[i] ensures c in Stored(next) {
      assert Placed(root, last, i, c);
      assert c in next[Level(root, last + 1, c.id)];
    }
  }

  /** The contacts of the last bucket are added again, now that there is one more. */
  method Redistribute(root: NodeId, higher: Buckets, bucket: set<Contact>) returns (next: Buckets)
    requires forall c :: c in bucket ==> Placed(root, |higher|, |higher|, c)
    ensures next == higher + [OnLevel(root, |higher| + 1, |higher|, bucket),
                              OnLevel(root, |higher| + 1, |higher| + 1, bucket)]
  {
    var last := |higher|;
    var exact: set<Contact>, deeper: set<Contact>, left := {}, {}, bucket;
    ghost var done: set<Contact> := {};
    while left != {}
      invariant done + left == bucket && Spread(root, last, done, exact, deeper)
      decreases |left|
    {
      var c :| c in left;
      SpreadOne(root, last, done, exact, deeper, c);
      if Level(root, last + 1, c.id) == last {
        exact := exact + {c};
      } else {
        deeper := deeper + {c};
      }
      left, done := left - {c}, done + {c};
    }
    assert done == bucket;
    next := higher + [exact, deeper];
  }

  /** One bucket for each number of leading bits shared with the root, the last one for all the rest. */
  class FlatRoutingTable {
    const root: NodeId
    var buckets: Buckets   // the valid contacts of each bucket
    var others: Buckets    // its contacts in other states

    ghost predicate Valid()
      reads this
    {
      ValidTable(root, buckets) && ValidTable(root, others) && |buckets| == |others|
    }

    constructor (root: NodeId)
      ensures this.root == root && buckets == [{}] && others == [{}] && Valid()
    {
      this.root := root;
      buckets, others := [{}], [{}];
    }

    method Closest(target: NodeId, n: nat, g: nat) returns (r: ClosestResult)
      requires Valid() && g >= 1
      ensures r.InvalidGroupSize? <==> !ValidGrouping(g)
      ensures r.Closest? ==> IsClosest(r.contacts, root, buckets, target, n, g)
    {
      if SharedPrefixLen(target, root, g).InvalidGrouping? {
        return InvalidGroupSize;
      }
      var t := Level(root, |buckets| - 1, target);
      var result := ValidWithPrefix(buckets[t], target, g);
      if |result| >= n && t == |buckets| - 1 {
        LastBucketSuffices(result, root, buckets, target, n, g);
        return ClosestResult.Closest(SortByXor(result)[..n]);
      }
      if |result| >= n {
        FirstBucketSuffices(root, buckets, target, n);
      } else {
        result := CollectFrom(root, buckets, result, n, target, g);
      }
      SortedIsClosest(result, root, buckets, target, n, g);
      r := ClosestResult.Closest(SortByXor(result));
    }

    method SplitBucket(id: NodeId) returns (r: SplitResult)
      requires Valid()
      modifies this
      ensures Valid() && Stored(buckets) == old(Stored(buckets)) && Stored(others) == old(Stored(others))
      ensures r.MaxBucketsReached? <==> |old(buckets)| >= BITS
      ensures r.Unsplittable? <==> |old(buckets)| < BITS && Level(root, |old(buckets)| - 1, id) != |old(buckets)| - 1
      ensures if r.Split? then
                && r.index == |old(buckets)| - 1
                && buckets == Divided(root, old(buckets)) && others == Divided(root, old(others))
              else buckets == old(buckets) && others == old(others)
    {
      if |buckets| >= BITS {
        return MaxBucketsReached;
      }
      var last := |buckets| - 1;
      if Level(root, last, id) != last {
        return Unsplittable;
      }
      assert forall c :: c in buckets[last] || c in others[last] ==> Placed(root, last, last, c);
      DividedIsValid(root, buckets);
      DividedIsValid(root, others);
      buckets := Redistribute(root, buckets[..last], buckets[last]);
      others := Redistribute(root, others[..last], others[last]);
      r := Split(last);
    }
  }

  /** Buckets for most contacts, and room for every underlay neighbour beside them. */
  class UnlimitedULNRoutingTable {
    const inner: FlatRoutingTable
    var unContacts: set<Contact>

    ghost predicate Valid()
      reads this, inner
    {
      inner.Valid() && Usable(inner.root, unContacts)
    }

    constructor (inner: FlatRoutingTable)
      requires inner.Valid()
      ensures this.inner == inner && unContacts == {} && Valid()
    {
      this.inner := inner;
      unContacts := {};
    }

    method Closest(target: NodeId, n: nat, g: nat) returns (r: ClosestResult)
      requires Valid() && g >= 1
      ensures r.InvalidGroupSize? <==> !ValidGrouping(g)
      ensures r.Closest? ==> IsMerged(r.contacts, inner.root, inner.buckets, unContacts, target, n, g)
    {
      r := inner.Closest(target, n, g);
      if r.InvalidGroupSize? {
        return;
      }
      var neighbors := ValidWithPrefix(unContacts, target, g);
      var merged := SortByXor(r.contacts + neighbors);
      SortSorts(r.contacts + neighbors);
      var cut := CutsLastBucket(merged, inner.root, |inner.buckets| - 1, n);
      var closest := if cut then merged[..n] else merged;
      assert IsMergeOf(closest, r.contacts, merged, inner.root, inner.buckets, unContacts, target, n, g);
      r := ClosestResult.Closest(closest);
    }

    /** The next hop is chosen from the one closest contact the table finds, and what comes with it; ok is
        false when the check made in builds with debug assertions fails. */
    method NextHop(target: NodeId, g: nat, checked: bool) returns (ok: bool, hop: Hop)
      requires Valid() && g >= 1
      ensures !ok <==> checked && ValidGrouping(g)
                       && CheckFails(inner.root, inner.buckets, inner.others, unContacts, target, g)
      ensures ok ==> (hop.BadGrouping? <==> !ValidGrouping(g))
      ensures ok && ValidGrouping(g) ==> exists closest ::
                && IsMerged(closest, inner.root, inner.buckets, unContacts, target, 1, g)
                && hop == Routing.NextHop(inner.root, target, closest, g)
      ensures ok && hop.Via? ==> Nearer(hop.contact, inner.root, target)
      ensures ok && ValidGrouping(g) ==>
                ((hop.Root? && AnyNearer(Stored(inner.buckets) + unContacts, inner.root, target))
            <==> (Overlooked(inner.root, inner.buckets, target) && !AnyNearer(unContacts, inner.root, target)))
    {
      var r := Closest(target, 1, g);
      if r.InvalidGroupSize? {
        return true, BadGrouping;
      }
      AssertionFailsExactlyWhen(r.contacts, inner.root, inner.buckets, inner.others, unContacts, target, g);
      var same := FirstInSameBucket(r.contacts, inner.root, inner.buckets, inner.others);
      if checked && AssertionFails(inner.root, target, r.contacts, g, same) {
        return false, Root;
      }
      ok, hop := true, Routing.NextHop(inner.root, target, r.contacts, g);
      StopsTooEarlyExactlyWhen(r.contacts, inner.root, inner.buckets, unContacts, target, g);
      MergedStopsExactlyWhen(r.contacts, inner.root, inner.buckets, unContacts, target, 1, g);
      if hop.Via? {
        NextHopIsCloser(inner.root, target, r.contacts, g);
      }
    }
  }
}
