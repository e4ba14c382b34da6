/** When a message can be serialized at all: in terms of the sizes of its parts, and where its header fields lie. */
module WireSizes {
  import opened NodeIds
  import opened SourceRoutes
  import opened WireBytes
  import opened WireObjects
  import opened WireBodies
  import opened WireMessages

  // ---------- sizes ----------

  function PathSizes(contacts: seq<Contact>): nat {
    if contacts == [] then 0 else 14 * |contacts[0].path| + PathSizes(contacts[1..])
  }

  function UpdatePathSizes(updates: seq<Update>): nat {
    if updates == [] then 0 else 14 * |updates[0].contact.path| + UpdatePathSizes(updates[1..])
  }

  function ValueSizes(values: seq<seq<Byte>>): nat {
    if values == [] then 0 else |values[0]| + ValueSizes(values[1..])
  }

  /** The bytes of the object that carries the data, three of them its own head. */
  function DataSize(data: Data, updates: seq<Update>): nat {
    match data
    case NoData => 0
    case Query => 0
    case Find(_) => 0
    case Discovery(cs) => if cs == [] then 0 else 3 + 24 * |cs|
    case Table(cs) => if cs == [] then 0 else 3 + 26 * |cs| + PathSizes(cs)
    case Updating(_) => if updates == [] then 0 else 3 + 27 * |updates| + UpdatePathSizes(updates)
    case Failing(e) => if e.DeadEnd? then 4 else 46
    case Storing(r) => 19 + |r.data| + if r.age.Some? then 8 else 0
    case Stored(_) => 4
    case Fetching(_) => 17
    case Fetched(values) => if values.None? then 4 else 6 + 2 * |values.value| + ValueSizes(values.value)
  }

  /** The bytes of the whole payload. */
  function PayloadSize(m: Message, links: seq<Link>, updates: seq<Update>): nat {
    DataSize(m.data, updates)
    + if m.route.None? then 0
      else
        5 + 14 * |m.route.value.ids| + (if links == [] then 0 else 3 + 32 * |links|)
        + if m.data.Query? || m.data.Find? then 5 else 0
  }

  // ---------- what is written has these sizes ----------

  lemma {:induction false} EntriesSize(contacts: seq<Contact>)
    ensures EntriesLength(contacts) == 26 * |contacts| + PathSizes(contacts)
  {
    if contacts != [] { EntriesSize(contacts[1..]); }
  }

  lemma {:induction false} UpdatesSize(updates: seq<Update>)
    ensures UpdatesLength(updates) == 27 * |updates| + UpdatePathSizes(updates)
  {
    if updates != [] { UpdatesSize(updates[1..]); }
  }

  lemma {:induction false} ValuesSize(values: seq<seq<Byte>>)
    ensures ValuesLength(values) == 2 * |values| + ValueSizes(values)
  {
    if values != [] { ValuesSize(values[1..]); }
  }

  lemma {:induction false} PathFits(contacts: seq<Contact>, i: nat)
    requires i < |contacts|
    ensures 14 * |contacts[i].path| <= PathSizes(contacts)
  {
    if i > 0 { PathFits(contacts[1..], i - 1); }
  }

  lemma {:induction false} UpdatePathFits(updates: seq<Update>, i: nat)
    requires i < |updates|
    ensures 14 * |updates[i].contact.path| <= UpdatePathSizes(updates)
  {
    if i > 0 { UpdatePathFits(updates[1..], i - 1); }
  }

  lemma {:induction false} OneValueFits(values: seq<seq<Byte>>, i: nat)
    requires i < |values|
    ensures |values[i]| <= ValueSizes(values)
  {
    if i > 0 { OneValueFits(values[1..], i - 1); }
  }

  lemma SizeOfOne(o: Object)
    ensures |Payload([o])| == 3 + |o.body|
  {
    PayloadOfOne(o);
  }

  /** Data that fits a message is not refused for any of its parts. */
  lemma {:induction false} FittingDataIsWritten(data: Data, updates: seq<Update>)
    requires DataSize(data, updates) <= MAX_U16 && data != Stored(StoreFailed)
    ensures DataObjects(data, updates).Ok?
  {
    if data.Table? {
      forall i | 0 <= i < |data.contacts| ensures |data.contacts[i].path| <= MAX_U16 {
        PathFits(data.contacts, i);
      }
    } else if data.Updating? {
      forall i | 0 <= i < |updates| ensures |updates[i].contact.path| <= MAX_U16 {
        UpdatePathFits(updates, i);
      }
    } else if data.Fetched? && data.values.Some? {
      var values := data.values.value;
      ValuesSize(values);
      forall i | 0 <= i < |values| ensures |values[i]| <= MAX_U16 {
        OneValueFits(values, i);
      }
    }
  }

  lemma {:induction false} DataObjectSize(data: Data, updates: seq<Update>)
    requires DataObjects(data, updates).Ok?
    ensures data != Stored(StoreFailed)
    ensures |Payload(DataObjects(data, updates).value)| == DataSize(data, updates)
  {
    var objects := DataObjects(data, updates).value;
    if objects != [] {
      assert objects == [objects[0]];
      SizeOfOne(objects[0]);
      BodySize(data, updates, objects[0]);
    }
  }

  lemma {:induction false} BodySize(data: Data, updates: seq<Update>, o: Object)
    requires DataObjects(data, updates) == Ok([o])
    ensures 3 + |o.body| == DataSize(data, updates)
  {
    if data.Discovery? {
      ContactListLength(data.neighbors);
    } else if data.Table? {
      EntriesLengthIsWritten(data.contacts);
      EntriesSize(data.contacts);
    } else if data.Updating? {
      UpdatesLengthIsWritten(updates);
      UpdatesSize(updates);
    } else if data.Fetched? && data.values.Some? {
      ValuesLengthIsWritten(data.values.value);
      ValuesSize(data.values.value);
    }
  }

  lemma {:induction false} NotViaSize(links: seq<Link>)
    ensures |Payload(NotViaObjects(links))| == if links == [] then 0 else 3 + 32 * |links|
  {
    if links != [] {
      NotViaLength(links);
      SizeOfOne(NotViaObject(links));
    }
  }

  lemma {:induction false} SizeOfThree(a: seq<Object>, b: seq<Object>, c: seq<Object>)
    ensures |Payload(a + b + c)| == |Payload(a)| + |Payload(b)| + |Payload(c)|
  {
    PayloadAppend(a + b, c);
    PayloadAppend(a, b);
  }

  lemma {:induction false} ObjectsSize(m: Message, links: seq<Link>, updates: seq<Update>)
    requires Objects(m, links, updates).Ok?
    ensures DataObjects(m.data, updates).Ok? && (m.route.Some? ==> m.route.value.progress <= MAX_INDEX)
    ensures |Payload(Objects(m, links, updates).value)| == PayloadSize(m, links, updates)
  {
    DataObjectSize(m.data, updates);
    if m.route.Some? {
      var route := [RouteObject(m.route.value)];
      NotViaSize(links);
      SizeOfOne(route[0]);
      var notVia, data := NotViaObjects(links), DataObjects(m.data, updates).value;
      if m.data.Failing? {
        SizeOfThree(notVia, route, data);
      } else if m.data.Query? || m.data.Find? {
        var request := [Objects(m, links, updates).value[0]];
        SizeOfOne(request[0]);
        SizeOfThree(request, route, notVia);
      } else {
        SizeOfThree(route, notVia, data);
      }
    }
  }

  /** A message is serialized exactly when it and its progress fit their fields and it does not report a failed
      store: no other check ever refuses one. */
  lemma {:induction false} SerializesExactlyWhen(m: Message, links: seq<Link>, updates: seq<Update>)
    ensures Serialize(m, links, updates).Ok?
       <==> && 55 + PayloadSize(m, links, updates) <= 0xffff && m.data != Stored(StoreFailed)
            && (m.route.Some? ==> m.route.value.progress <= 1023)
  {
    if DataSize(m.data, updates) <= MAX_U16 && m.data != Stored(StoreFailed) {
      FittingDataIsWritten(m.data, updates);
    }
    if Objects(m, links, updates).Ok? {
      ObjectsSize(m, links, updates);
      DataObjectSize(m.data, updates);
    }
  }

  // ---------- where the fields of the header lie ----------

  lemma CutTwice(b: seq<Byte>, i: nat, j: nat, k: nat)
    requires i + j <= i + k <= |b|
    ensures b[i..][j..k] == b[i + j..i + k] && b[i..][j..] == b[i + j..]
  {
  }

  /** Version, kind and flags, then length, destination, source, domain, message id, sequence number and degree,
      each in network byte order. */
  lemma {:induction false} ParsedHeaderLayout(b: seq<Byte>)
    requires |b| == HEADER_LEN
    ensures var h := ParseHeader(b);
            && b[0] == h.version && b[1] == h.kind && b[2] == h.flags
            && Value(b[3..5]) == h.length && Value(b[5..19]) == h.dest && Value(b[19..33]) == h.src
            && Value(b[33..41]) == h.domain && Value(b[41..49]) == h.msgId
            && Value(b[49..53]) == h.ssn && Value(b[53..55]) == h.degree
  {
    CutTwice(b, 3, 0, 2);
    CutTwice(b, 3, 2, 52);
    CutTwice(b, 5, 0, 14);
    CutTwice(b, 5, 14, 50);
    CutTwice(b, 19, 0, 14);
    CutTwice(b, 19, 14, 36);
    CutTwice(b, 33, 0, 8);
    CutTwice(b, 33, 8, 22);
    CutTwice(b, 41, 0, 8);
    CutTwice(b, 41, 8, 14);
    CutTwice(b, 49, 0, 4);
    CutTwice(b, 49, 4, 6);
    assert b[53..55] == b[53..];
  }

  /** The header is written where it is read. */
  lemma {:induction false} HeaderLayout(h: Header)
    requires h.InRange()
    ensures var b := HeaderBytes(h);
            && b[0] == h.version && b[1] == h.kind && b[2] == h.flags
            && Value(b[3..5]) == h.length && Value(b[5..19]) == h.dest && Value(b[19..33]) == h.src
            && Value(b[33..41]) == h.domain && Value(b[41..49]) == h.msgId
            && Value(b[49..53]) == h.ssn && Value(b[53..55]) == h.degree
  {
    HeaderRoundTrip(h);
    ParsedHeaderLayout(HeaderBytes(h));
  }
}
