/** Type-length-value objects in a message payload. */
module WireObjects {
  import opened WireBytes

  const MAX_U16: nat := 0xffff
  const HEADER_LEN: nat := 55

  /** An object as a writer emits it: the length it declares, and the bytes it then writes. */
  datatype Object = Object(tag: Byte, declared: nat, body: seq<Byte>)

  /** An object as a parser finds it. */
  datatype Raw = Raw(tag: Byte, body: seq<Byte>)

  function ObjectBytes(o: Object): (bytes: seq<Byte>)
    ensures |bytes| == 3 + |o.body|
  {
    [o.tag] + BigEndian(o.declared, 2) + o.body
  }

  function Payload(objects: seq<Object>): seq<Byte> {
    if objects == [] then [] else ObjectBytes(objects[0]) + Payload(objects[1..])
  }

  function Raws(objects: seq<Object>): (raws: seq<Raw>)
    ensures |raws| == |objects|
    ensures forall i :: 0 <= i < |objects| ==> raws[i] == Raw(objects[i].tag, objects[i].body)
  {
    if objects == [] then [] else [Raw(objects[0].tag, objects[0].body)] + Raws(objects[1..])
  }

  function Split(payload: seq<Byte>): Result<seq<Raw>> {
    if payload == [] then Ok([])
    else if |payload| < 3 then Err
    else
      var length := Value(payload[1..3]);
      if 3 + length > |payload| then Err
      else
        match Split(payload[3 + length..])
        case Err => Err
        case Ok(rest) => Ok([Raw(payload[0], payload[3..3 + length])] + rest)
  }

  /** The declared length is the number of bytes written, before any cast. */
  predicate Honest(o: Object) {
    o.declared == |o.body|
  }

  lemma LengthField(o: Object, rest: seq<Byte>)
    requires Honest(o) && |o.body| <= MAX_U16
    ensures var p := ObjectBytes(o) + rest;
            && p[0] == o.tag && Value(p[1..3]) == |o.body|
            && p[3..3 + |o.body|] == o.body && p[3 + |o.body|..] == rest
  {
    ValueOfBigEndian(o.declared, 2);
    var p := ObjectBytes(o) + rest;
    assert p[1..3] == BigEndian(o.declared, 2);
  }

  lemma {:induction false} PayloadSplits(objects: seq<Object>)
    requires (forall o :: o in objects ==> Honest(o)) && |Payload(objects)| <= MAX_U16
    ensures Split(Payload(objects)) == Ok(Raws(objects))
  {
    if objects != [] {
      var o, rest := objects[0], Payload(objects[1..]);
      LengthField(o, rest);
      PayloadSplits(objects[1..]);
    }
  }

  lemma {:induction false} PayloadAppend(a: seq<Object>, b: seq<Object>)
    ensures Payload(a + b) == Payload(a) + Payload(b)
  {
    if a == [] {
      assert a + b == b;
    } else {
      assert (a + b)[1..] == a[1..] + b;
      PayloadAppend(a[1..], b);
    }
  }

  lemma {:induction false} PayloadOfOne(o: Object)
    ensures Payload([o]) == ObjectBytes(o)
  {
    assert [o][1..] == [];
  }

  lemma {:induction false} PayloadFrom(before: seq<Object>, o: Object, after: seq<Object>)
    ensures Payload(before + [o] + after) == Payload(before) + (ObjectBytes(o) + Payload(after))
  {
    PayloadAppend(before + [o], after);
    PayloadAppend(before, [o]);
    PayloadOfOne(o);
  }

  /** What a parser has found so far, and what it will find in the rest. */
  function Prepended(raws: seq<Raw>, rest: Result<seq<Raw>>): Result<seq<Raw>> {
    match rest
    case Err => Err
    case Ok(more) => Ok(raws + more)
  }

  lemma PrependedNothing(rest: Result<seq<Raw>>)
    ensures Prepended([], rest) == rest
  {
    if rest.Ok? { assert [] + rest.value == rest.value; }
  }

  lemma PrependedStep(raws: seq<Raw>, raw: Raw, rest: Result<seq<Raw>>)
    ensures Prepended(raws, Prepended([raw], rest)) == Prepended(raws + [raw], rest)
  {
    if rest.Ok? { assert raws + ([raw] + rest.value) == raws + [raw] + rest.value; }
  }
}
