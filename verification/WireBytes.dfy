/** Bytes, big-endian numbers and sequences of node ids on the wire. */
module WireBytes {
  import opened Bits
  import opened NodeIds

  type Byte = n: nat | n < 256

  datatype Result<T> = Ok(value: T) | Err

  /** Values that fit k bytes. */
  function Power256(k: nat): nat {
    if k == 0 then 1 else 256 * Power256(k - 1)
  }

  /** The lowest k bytes of a number, most significant first; a cast to k bytes is silent. */
  function BigEndian(n: nat, k: nat): (bytes: seq<Byte>)
    ensures |bytes| == k
    decreases k
  {
    if k == 0 then [] else BigEndian(n / 256, k - 1) + [n % 256]
  }

  function Value(bytes: seq<Byte>): nat {
    if bytes == [] then 0 else 256 * Value(bytes[..|bytes| - 1]) + bytes[|bytes| - 1]
  }

  lemma {:induction false} ValueOfBigEndian(n: nat, k: nat)
    requires n < Power256(k)
    ensures Value(BigEndian(n, k)) == n
    decreases k
  {
    if k > 0 {
      ValueOfBigEndian(n / 256, k - 1);
      assert BigEndian(n, k)[..k - 1] == BigEndian(n / 256, k - 1);
    }
  }

  lemma {:induction false} PowersAgree(k: nat)
    ensures Power256(k) == Pow2(8 * k)
  {
    if k > 0 {
      PowersAgree(k - 1);
      var m := 8 * (k - 1);
      assert Pow2(m + 4) == 16 * Pow2(m) by {
        assert Pow2(m + 2) == 4 * Pow2(m);
      }
      assert Pow2(m + 8) == 16 * Pow2(m + 4) by {
        assert Pow2(m + 6) == 4 * Pow2(m + 4);
      }
    }
  }

  const ID_SIZE: nat := 14

  function IdBytes(id: NodeId): (bytes: seq<Byte>)
    ensures |bytes| == ID_SIZE
  {
    BigEndian(id, ID_SIZE)
  }

  /** A node id from its bytes; fourteen bytes always hold one. */
  function IdOf(bytes: seq<Byte>): NodeId
    requires |bytes| == ID_SIZE
  {
    ValueFits(bytes);
    PowersAgree(ID_SIZE);
    Value(bytes)
  }

  lemma {:induction false} ValueFits(bytes: seq<Byte>)
    ensures Value(bytes) < Power256(|bytes|)
  {
    if bytes != [] { ValueFits(bytes[..|bytes| - 1]); }
  }

  lemma IdRoundTrip(id: NodeId)
    ensures IdOf(IdBytes(id)) == id
  {
    PowersAgree(ID_SIZE);
    ValueOfBigEndian(id, ID_SIZE);
  }

  function IdsBytes(ids: seq<NodeId>): (bytes: seq<Byte>)
    ensures |bytes| == |ids| * ID_SIZE
  {
    if ids == [] then [] else IdBytes(ids[0]) + IdsBytes(ids[1..])
  }

  function IdsOf(bytes: seq<Byte>, count: nat): (ids: seq<NodeId>)
    requires |bytes| == count * ID_SIZE
    ensures |ids| == count
    decreases count
  {
    if count == 0 then [] else [IdOf(bytes[..ID_SIZE])] + IdsOf(bytes[ID_SIZE..], count - 1)
  }

  lemma {:induction false} IdsRoundTrip(ids: seq<NodeId>)
    ensures IdsOf(IdsBytes(ids), |ids|) == ids
  {
    if ids != [] {
      IdRoundTrip(ids[0]);
      IdsRoundTrip(ids[1..]);
      assert IdsBytes(ids)[..ID_SIZE] == IdBytes(ids[0]);
      assert IdsBytes(ids)[ID_SIZE..] == IdsBytes(ids[1..]);
    }
  }

  /** Writing a list of ids hop by hop, and reading it back hop by hop. */
  method WriteIds(buffer: seq<Byte>, ids: seq<NodeId>) returns (out: seq<Byte>)
    ensures out == buffer + IdsBytes(ids)
  {
    out := buffer;
    var i := 0;
    while i < |ids|
      invariant 0 <= i <= |ids|
      invariant out + IdsBytes(ids[i..]) == buffer + IdsBytes(ids)
    {
      ghost var before := out;
      out := out + IdBytes(ids[i]);
      assert ids[i..][1..] == ids[i + 1..];
      assert before + (IdBytes(ids[i]) + IdsBytes(ids[i + 1..])) == out + IdsBytes(ids[i + 1..]);
      i := i + 1;
    }
    assert out + [] == out;
  }

  method ReadIds(bytes: seq<Byte>, cursor: nat, count: nat) returns (ids: seq<NodeId>)
    requires cursor + count * ID_SIZE <= |bytes|
    ensures ids == IdsOf(bytes[cursor..cursor + count * ID_SIZE], count)
  {
    ids := [];
    var i, at := 0, cursor;
    ghost var window := bytes[cursor..cursor + count * ID_SIZE];
    while i < count
      invariant 0 <= i <= count && at == cursor + i * ID_SIZE
      invariant ids + IdsOf(window[i * ID_SIZE..], count - i) == IdsOf(window, count)
    {
      ghost var before, rest := ids, window[i * ID_SIZE..];
      assert rest[..ID_SIZE] == bytes[at..at + ID_SIZE] && rest[ID_SIZE..] == window[(i + 1) * ID_SIZE..];
      ids := ids + [IdOf(bytes[at..at + ID_SIZE])];
      assert before + ([IdOf(rest[..ID_SIZE])] + IdsOf(rest[ID_SIZE..], count - i - 1))
          == ids + IdsOf(rest[ID_SIZE..], count - i - 1);
      at := at + ID_SIZE;
      i := i + 1;
    }
    assert ids + [] == ids;
  }
}
