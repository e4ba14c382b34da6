/** Choice of the next overlay hop from the contacts a routing table ranks as closest. */
module Routing {
  import opened Bits
  import opened NodeIds

  /** A valid contact: its id and its active path, which excludes the own node. */
  datatype Contact = Contact(id: NodeId, path: seq<NodeId>) {
    predicate WellFormed() {
      |path| >= 1 && path[|path| - 1] == id
    }
  }

  datatype Ranked = Ranked(prefix: SharedPrefix, contact: Contact)

  datatype Hop = Via(contact: Contact) | Root | BadGrouping

  /** What every implementation of closest returns: valid contacts of the table other than
      the root, each with its shared prefix to the target. Nothing is said about order. */
  predicate RankedFor(closest: seq<Ranked>, root: NodeId, target: NodeId, g: nat)
    requires ValidGrouping(g)
  {
    forall i :: 0 <= i < |closest| ==>
      && closest[i].contact.WellFormed()
      && closest[i].contact.id != root
      && closest[i].prefix == Prefix(closest[i].contact.id, target, g)
  }

  predicate LongestPrefixFirst(closest: seq<Ranked>) {
    forall i, j :: 0 <= i < j < |closest| ==> closest[i].prefix.length >= closest[j].prefix.length
  }

  predicate SortedByXor(closest: seq<Ranked>) {
    forall i, j :: 0 <= i < j < |closest| ==> ComparePrefixes(closest[i].prefix, closest[j].prefix) != Greater
  }

  function CompareXor(a: Ranked, b: Ranked): Ordering {
    CompareNat(a.prefix.xor, b.prefix.xor)
  }

  function CompareProximity(a: Ranked, b: Ranked): Ordering {
    match CompareNat(|a.contact.path|, |b.contact.path|)
    case Equal => CompareNat(a.prefix.xor, b.prefix.xor)
    case order => order
  }

  /** The entries before the first one whose prefix length differs. */
  function TakeWhileLength(xs: seq<Ranked>, length: nat): (ys: seq<Ranked>)
    ensures |ys| <= |xs| && ys == xs[..|ys|]
    ensures forall i :: 0 <= i < |ys| ==> ys[i].prefix.length == length
    ensures |ys| < |xs| ==> xs[|ys|].prefix.length != length
  {
    if xs == [] || xs[0].prefix.length != length then []
    else [xs[0]] + TakeWhileLength(xs[1..], length)
  }

  /** The first of the least elements. */
  function MinBy(xs: seq<Ranked>, compare: (Ranked, Ranked) -> Ordering): (m: Ranked)
    requires xs != []
    ensures m in xs
  {
    if |xs| == 1 then xs[0]
    else
      var m := MinBy(xs[..|xs| - 1], compare);
      if compare(m, xs[|xs| - 1]) == Greater then xs[|xs| - 1] else m
  }

  /** The next overlay hop towards the target, or Root when no contact makes progress. */
  function NextHop(root: NodeId, target: NodeId, closest: seq<Ranked>, g: nat): Hop
    requires g >= 1
  {
    match SharedPrefixLen(root, target, g)
    case InvalidGrouping => BadGrouping
    case Grouped(own) =>
      if closest == [] then Root
      else
        var nearest := closest[0].prefix;
        if own.length > nearest.length then Root
        else if nearest.length == own.length then
          if own.xor < nearest.xor then Root
          else Via(MinBy(TakeWhileLength(closest, nearest.length), CompareXor).contact)
        else Via(MinBy(TakeWhileLength(closest, nearest.length), CompareProximity).contact)
  }

  /** What builds with debug assertions check before a choice by proximity: if the bucket of the nearest
      contact looks like that of the own node, the second contact has a shorter prefix. */
  predicate AssertionFails(root: NodeId, target: NodeId, closest: seq<Ranked>, g: nat, sameBucket: bool)
    requires g >= 1
  {
    && ValidGrouping(g) && sameBucket && |closest| >= 2
    && closest[0].prefix.length > Prefix(root, target, g).length
    && closest[0].prefix.length <= closest[1].prefix.length
  }

  /** Where a FindNodeReq goes next: to the first closest contact, if that is nearer than
      the own node and is not the requester itself. */
  function FindNodeHop(root: NodeId, requester: NodeId, target: NodeId, closest: seq<Ranked>, g: nat): Hop
    requires g >= 1
  {
    match SharedPrefixLen(root, target, g)
    case InvalidGrouping => BadGrouping
    case Grouped(own) =>
      if closest != [] && ComparePrefixes(own, closest[0].prefix) == Greater && requester != closest[0].contact.id
      then Via(closest[0].contact)
      else Root
  }

  lemma {:induction false} MinByXorIsLeast(xs: seq<Ranked>)
    requires xs != []
    ensures forall i :: 0 <= i < |xs| ==> MinBy(xs, CompareXor).prefix.xor <= xs[i].prefix.xor
  {
    if |xs| > 1 { MinByXorIsLeast(xs[..|xs| - 1]); }
  }

  lemma {:induction false} MinByProximityIsLeast(xs: seq<Ranked>)
    requires xs != []
    ensures forall i :: 0 <= i < |xs| ==> CompareProximity(MinBy(xs, CompareProximity), xs[i]) != Greater
  {
    if |xs| > 1 { MinByProximityIsLeast(xs[..|xs| - 1]); }
  }

  lemma ContactNeverAtRootDistance(c: NodeId, root: NodeId, target: NodeId)
    requires c != root
    ensures Distance(c, target) != Distance(root, target)
  {
    XorCancels(c, root, target);
  }

  /** Every hop handed out is strictly nearer to the target in the XOR metric than the node
      choosing it, for every grouping and whatever order the contacts come in. */
  lemma NextHopIsCloser(root: NodeId, target: NodeId, closest: seq<Ranked>, g: nat)
    requires ValidGrouping(g) && RankedFor(closest, root, target, g)
    requires NextHop(root, target, closest, g).Via?
    ensures exists i :: 0 <= i < |closest| && closest[i].contact == NextHop(root, target, closest, g).contact
    ensures Distance(NextHop(root, target, closest, g).contact.id, target) < Distance(root, target)
  {
    var own, nearest := Prefix(root, target, g), closest[0].prefix;
    var group := TakeWhileLength(closest, nearest.length);
    assert closest[0] in group by { assert group[0] == closest[0]; }
    var xorChoice := nearest.length == own.length;
    var m := MinBy(group, if xorChoice then CompareXor else CompareProximity);
    var i :| 0 <= i < |group| && group[i] == m;
    assert closest[i] == m;
    if xorChoice {
      MinByXorIsLeast(group);
      assert m.prefix.xor <= group[0].prefix.xor <= own.xor;
      ContactNeverAtRootDistance(m.contact.id, root, target);
    } else {
      SharedPrefixOrderIsXorOrder(m.contact.id, root, target, g);
    }
  }

  predicate NoFarther(a: Ranked, b: Ranked) {
    a.prefix.xor <= b.prefix.xor
  }

  predicate NoWorse(a: Ranked, b: Ranked) {
    |a.contact.path| < |b.contact.path| || (|a.contact.path| == |b.contact.path| && NoFarther(a, b))
  }

  /** The contacts with the longest prefix come first, all of them. */
  lemma {:induction false} LongestPrefixGroup(closest: seq<Ranked>, i: nat)
    requires LongestPrefixFirst(closest) && i < |closest| && closest[i].prefix.length == closest[0].prefix.length
    ensures var group := TakeWhileLength(closest, closest[0].prefix.length); i < |group| && group[i] == closest[i]
  {
  }

  lemma {:induction false} BestOfGroup(group: seq<Ranked>, i: nat)
    requires i < |group|
    ensures NoFarther(MinBy(group, CompareXor), group[i]) && NoWorse(MinBy(group, CompareProximity), group[i])
  {
    MinByXorIsLeast(group);
    MinByProximityIsLeast(group);
  }

  /** Of the contacts with the longest prefix the one handed out is the nearest, if that prefix
      is the own one, and otherwise the one with the shortest path, nearest first. */
  lemma NextHopIsBest(root: NodeId, target: NodeId, closest: seq<Ranked>, g: nat) returns (best: Ranked)
    requires ValidGrouping(g) && LongestPrefixFirst(closest) && NextHop(root, target, closest, g).Via?
    ensures best in closest && best.contact == NextHop(root, target, closest, g).contact
    ensures forall i :: 0 <= i < |closest| && closest[i].prefix.length == closest[0].prefix.length ==>
              if closest[0].prefix.length == Prefix(root, target, g).length then NoFarther(best, closest[i])
              else NoWorse(best, closest[i])
  {
    var group := TakeWhileLength(closest, closest[0].prefix.length);
    best := if closest[0].prefix.length == Prefix(root, target, g).length then MinBy(group, CompareXor)
            else MinBy(group, CompareProximity);
    assert best in group && best in closest;
    forall i | 0 <= i < |closest| && closest[i].prefix.length == closest[0].prefix.length
      ensures NoFarther(MinBy(group, CompareXor), closest[i]) && NoWorse(MinBy(group, CompareProximity), closest[i])
    {
      LongestPrefixGroup(closest, i);
      BestOfGroup(group, i);
    }
  }

  lemma FindNodeHopIsCloser(root: NodeId, requester: NodeId, target: NodeId, closest: seq<Ranked>, g: nat)
    requires ValidGrouping(g) && RankedFor(closest, root, target, g)
    requires FindNodeHop(root, requester, target, closest, g).Via?
    ensures FindNodeHop(root, requester, target, closest, g).contact == closest[0].contact
    ensures Distance(closest[0].contact.id, target) < Distance(root, target)
  {
    SharedPrefixOrderIsXorOrder(root, closest[0].contact.id, target, g);
  }

  /** In a list sorted by distance the first contact decides: stopping at the root means that no
      listed contact is nearer. */
  lemma StopsExactlyWhenNoneListedIsNearer(root: NodeId, target: NodeId, closest: seq<Ranked>, g: nat)
    requires ValidGrouping(g) && RankedFor(closest, root, target, g) && SortedByXor(closest)
    ensures NextHop(root, target, closest, g) == Root
       <==> forall i :: 0 <= i < |closest| ==> Distance(root, target) < Distance(closest[i].contact.id, target)
  {
    if closest != [] {
      var first := closest[0].contact;
      SharedPrefixOrderIsXorOrder(root, first.id, target, g);
      ContactNeverAtRootDistance(first.id, root, target);
      forall i | 0 <= i < |closest| ensures Distance(first.id, target) <= Distance(closest[i].contact.id, target) {
        SharedPrefixOrderIsXorOrder(first.id, closest[i].contact.id, target, g);
      }
    }
  }

  /** A list of exactly these contacts, nearest first. */
  ghost predicate Sorts(sorted: seq<Ranked>, contacts: multiset<Ranked>) {
    SortedByXor(sorted) && multiset(sorted) == contacts
  }

  lemma FirstIsNearest(sorted: seq<Ranked>, contacts: multiset<Ranked>, r: Ranked, root: NodeId, target: NodeId, g: nat)
    requires ValidGrouping(g) && Sorts(sorted, contacts) && RankedFor(sorted, root, target, g) && r in contacts
    ensures sorted != [] && Distance(sorted[0].contact.id, target) <= Distance(r.contact.id, target)
  {
    var k :| 0 <= k < |sorted| && sorted[k] == r;
    SharedPrefixOrderIsXorOrder(sorted[0].contact.id, r.contact.id, target, g);
  }

  /** Cutting a sorted list, but not to nothing, loses no reason to go on. */
  lemma SortedStopsExactlyWhen(root: NodeId, target: NodeId, sorted: seq<Ranked>, contacts: multiset<Ranked>, cut: nat,
                               g: nat)
    requires ValidGrouping(g) && Sorts(sorted, contacts) && RankedFor(sorted, root, target, g)
    requires cut <= |sorted| && (cut == 0 ==> sorted == [])
    ensures NextHop(root, target, sorted[..cut], g) == Root
       <==> forall r :: r in contacts ==> Distance(root, target) < Distance(r.contact.id, target)
  {
    StopsExactlyWhenNoneListedIsNearer(root, target, sorted[..cut], g);
    forall r | r in contacts
      ensures cut > 0 && Distance(sorted[0].contact.id, target) <= Distance(r.contact.id, target)
    {
      FirstIsNearest(sorted, contacts, r, root, target, g);
    }
    forall i | 0 <= i < cut ensures sorted[i] in contacts {
    }
  }
}
