/** Node identifiers of 112 bits, their XOR metric and the shared prefix ordering
    used by key-based routing. */
module NodeIds {
  import opened Bits

  const BITS: nat := 112
  const WORD_BITS: nat := 128  // ids are stored in a 128 bit word

  type NodeId = n: nat | n < Pow2(BITS)

  datatype Ordering = Less | Equal | Greater

  datatype SharedPrefix = SharedPrefix(xor: nat, length: nat)

  datatype GroupingResult = Grouped(prefix: SharedPrefix) | InvalidGrouping

  function Distance(a: NodeId, b: NodeId): (d: NodeId) {
    XorBound(a, b, BITS);
    Xor(a, b)
  }

  /** Leading zeros of an id: counted on the whole word, minus the unused high bits. */
  function IdLeadingZeros(x: NodeId): nat {
    LeadingZerosPadding(x, BITS, WORD_BITS - BITS);
    LeadingZeros(x, WORD_BITS) - (WORD_BITS - BITS)
  }

  /** Whole groups of g bits among the given number of bits. */
  function Groups(bits: nat, g: nat): nat
    requires g >= 1
  {
    bits / g
  }

  /** Shared prefix of two ids counted in groups of bits; group sizes above 112 are rejected. */
  function SharedPrefixLen(a: NodeId, b: NodeId, bitsPerGroup: nat): GroupingResult
    requires bitsPerGroup >= 1
  {
    if bitsPerGroup > BITS then InvalidGrouping
    else if a == b then Grouped(SharedPrefix(Distance(a, b), Groups(BITS, bitsPerGroup)))
    else Grouped(SharedPrefix(Distance(a, b), Groups(IdLeadingZeros(Distance(a, b)), bitsPerGroup)))
  }

  predicate ValidGrouping(bitsPerGroup: nat) {
    1 <= bitsPerGroup <= BITS
  }

  /** The shared prefix under a grouping known to be valid. */
  function Prefix(a: NodeId, b: NodeId, bitsPerGroup: nat): SharedPrefix
    requires ValidGrouping(bitsPerGroup)
  {
    SharedPrefixLen(a, b, bitsPerGroup).prefix
  }

  function CompareNat(a: nat, b: nat): Ordering {
    if a < b then Less else if a == b then Equal else Greater
  }

  function Reverse(o: Ordering): Ordering {
    match o
    case Less => Greater
    case Equal => Equal
    case Greater => Less
  }

  /** Less means closer: longer prefix first, the numerical XOR breaks ties. */
  function ComparePrefixes(a: SharedPrefix, b: SharedPrefix): Ordering {
    match (CompareNat(a.length, b.length), CompareNat(a.xor, b.xor))
    case (Equal, xorOrdering) => xorOrdering
    case (ordering, _) => Reverse(ordering)
  }

  /** The n high bits of an id with all others cleared, computed with a two step mask. */
  function IdPrefix(id: NodeId, n: nat): nat
    requires n <= BITS
  {
    HighBits(id, BITS, n)
  }

  lemma {:induction false} IdLeadingZerosIsCount(x: NodeId)
    ensures IdLeadingZeros(x) == LeadingZeros(x, BITS)
    ensures x == 0 ==> IdLeadingZeros(x) == BITS
  {
    LeadingZerosPadding(x, BITS, WORD_BITS - BITS);
    LeadingZerosAtLeast(x, BITS, BITS);
  }

  /** The number of shared groups, uniformly: the zero distance has 112 leading zeros. */
  lemma PrefixLength(a: NodeId, b: NodeId, g: nat)
    requires ValidGrouping(g)
    ensures Prefix(a, b, g) == SharedPrefix(Distance(a, b), Groups(LeadingZeros(Distance(a, b), BITS), g))
  {
    var zeros := IdLeadingZeros(Distance(a, b));
    assert zeros == LeadingZeros(Distance(a, b), BITS) && (a == b ==> zeros == BITS) by {
      IdLeadingZerosIsCount(Distance(a, b));
      XorZeroIffEqual(a, b);
    }
    assert Prefix(a, b, g) == SharedPrefix(Distance(a, b), Groups(zeros, g));
  }

  lemma GroupsMonotone(p: nat, q: nat, g: nat)
    requires g >= 1 && p <= q
    ensures Groups(p, g) <= Groups(q, g)
  {
    var dp, dq := p / g, q / g;
    assert p == g * dp + p % g && q == g * dq + q % g;
    if dp >= dq + 1 {
      ProductMonotone(g, dq + 1, dp);
      assert false;
    }
  }

  lemma ProductMonotone(g: nat, i: nat, j: nat)
    requires i <= j
    ensures g * i <= g * j
  {
  }

  /** A word with fewer leading zero groups is strictly larger. */
  lemma {:induction false} FewerZerosIsLarger(x: NodeId, y: NodeId, g: nat)
    requires g >= 1
    requires Groups(LeadingZeros(x, BITS), g) > Groups(LeadingZeros(y, BITS), g)
    ensures x < y
  {
    var zx, zy := LeadingZeros(x, BITS), LeadingZeros(y, BITS);
    if zx <= zy { GroupsMonotone(zx, zy, g); }
    LeadingZerosAtLeast(x, BITS, zy + 1);
    LeadingZerosAtLeast(y, BITS, zy + 1);
  }

  /** Ordering by (prefix length descending, XOR ascending) is ordering by XOR, whatever the grouping. */
  lemma SharedPrefixOrderIsXorOrder(a: NodeId, b: NodeId, target: NodeId, g: nat)
    requires ValidGrouping(g)
    ensures ComparePrefixes(Prefix(a, target, g), Prefix(b, target, g))
         == CompareNat(Distance(a, target), Distance(b, target))
  {
    PrefixLength(a, target, g);
    PrefixLength(b, target, g);
    var da, db := Distance(a, target), Distance(b, target);
    if Groups(LeadingZeros(da, BITS), g) > Groups(LeadingZeros(db, BITS), g) {
      FewerZerosIsLarger(da, db, g);
    } else if Groups(LeadingZeros(db, BITS), g) > Groups(LeadingZeros(da, BITS), g) {
      FewerZerosIsLarger(db, da, g);
    }
  }

  /** Equal n bit prefixes are exactly n shared leading bits. */
  lemma EqualPrefixIffSharedBits(a: NodeId, b: NodeId, n: nat)
    requires n <= BITS
    ensures IdPrefix(a, n) == IdPrefix(b, n) <==> Prefix(a, b, 1).length >= n
  {
    PrefixLength(a, b, 1);
    EqualPrefixIffNear(a, b, n);
    LeadingZerosAtLeast(Distance(a, b), BITS, n);
  }

  lemma {:induction false} EqualPrefixIffNear(a: NodeId, b: NodeId, n: nat)
    requires n <= BITS
    ensures IdPrefix(a, n) == IdPrefix(b, n) <==> Distance(a, b) < Pow2(BITS - n)
  {
    SameHighBits(a, b, BITS, n);
  }
}
