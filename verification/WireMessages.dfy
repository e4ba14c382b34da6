/** Whole messages: a fixed header and a payload of objects, written and parsed back. */
module WireMessages {
  import opened NodeIds
  import opened SourceRoutes
  import opened WireBytes
  import opened WireObjects
  import opened WireBodies

  // ---------- header ----------

  datatype Header = Header(version: Byte, kind: Byte, flags: Byte, length: nat, dest: NodeId, src: NodeId,
                           domain: nat, msgId: nat, ssn: nat, degree: nat) {
    predicate InRange() {
      length <= MAX_U16 && domain <= MAX_U64 && msgId <= MAX_U64 && ssn <= MAX_U32 && degree <= MAX_U16
    }
  }

  function HeaderBytes(h: Header): (bytes: seq<Byte>)
    ensures |bytes| == HEADER_LEN
  {
    [h.version, h.kind, h.flags] + (BigEndian(h.length, 2) + (IdBytes(h.dest) + (IdBytes(h.src) + Trailer(h))))
  }

  function Trailer(h: Header): (bytes: seq<Byte>)
    ensures |bytes| == 22
  {
    BigEndian(h.domain, 8) + (BigEndian(h.msgId, 8) + (BigEndian(h.ssn, 4) + BigEndian(h.degree, 2)))
  }

  function ParseHeader(bytes: seq<Byte>): Header
    requires |bytes| == HEADER_LEN
  {
    var afterKind := bytes[3..];
    var afterLength := afterKind[2..];
    var afterDest := afterLength[14..];
    var afterSrc := afterDest[14..];
    var afterDomain := afterSrc[8..];
    var afterId := afterDomain[8..];
    Header(bytes[0], bytes[1], bytes[2], Value(afterKind[..2]), IdOf(afterLength[..14]), IdOf(afterDest[..14]),
           Value(afterSrc[..8]), Value(afterDomain[..8]), Value(afterId[..4]), Value(afterId[4..]))
  }

  lemma TrailerParts(h: Header)
    requires h.InRange()
    ensures var t := Trailer(h);
            && Value(t[..8]) == h.domain && Value(t[8..][..8]) == h.msgId
            && Value(t[8..][8..][..4]) == h.ssn && Value(t[8..][8..][4..]) == h.degree
  {
    var d, i, s, g := BigEndian(h.domain, 8), BigEndian(h.msgId, 8), BigEndian(h.ssn, 4), BigEndian(h.degree, 2);
    Cut(d, i + (s + g));
    Cut(i, s + g);
    Cut(s, g);
    ValueOfBigEndian(h.domain, 8);
    ValueOfBigEndian(h.msgId, 8);
    ValueOfBigEndian(h.ssn, 4);
    ValueOfBigEndian(h.degree, 2);
  }

  lemma HeaderRoundTrip(h: Header)
    requires h.InRange()
    ensures ParseHeader(HeaderBytes(h)) == h
  {
    var bytes, k, l := HeaderBytes(h), [h.version, h.kind, h.flags], BigEndian(h.length, 2);
    var d, s, t := IdBytes(h.dest), IdBytes(h.src), Trailer(h);
    Cut(k, l + (d + (s + t)));
    Cut(l, d + (s + t));
    Cut(d, s + t);
    Cut(s, t);
    ValueOfBigEndian(h.length, 2);
    IdRoundTrip(h.dest);
    IdRoundTrip(h.src);
    TrailerParts(h);
  }

  // ---------- messages ----------

  datatype Data =
    | NoData
    | Discovery(neighbors: seq<Contact>)
    | Query
    | Find(neighborhood: nat)
    | Table(contacts: seq<Contact>)
    | Updating(updates: map<Contact, Byte>)
    | Failing(error: ErrorData)
    | Storing(request: StoreReq)
    | Stored(status: StoreStatus)
    | Fetching(handle: NodeId)
    | Fetched(values: Option<seq<seq<Byte>>>)

  /** The links to avoid have an age; they are told apart by the link alone. */
  datatype Message = Message(header: Header, data: Data, notVia: Option<map<Link, nat>>, route: Option<SourceRoute>)

  datatype Form = Plain | Disc | QueryForm | FindForm | TableForm | UpdateForm | ErrorForm
                | StoreReqForm | StoreRspForm | FetchReqForm | FetchRspForm | Unsupported

  function FormOf(kind: Byte): Form {
    if kind == 0x03 || kind == 0x04 then Disc
    else if kind == 0x09 then FindForm
    else if kind == 0x0a || kind == 0x0c then TableForm
    else if kind == 0x0b then QueryForm
    else if kind == 0x11 then UpdateForm
    else if kind == 0x21 || kind == 0x22 || kind == 0x81 || kind == 0x83 then Plain
    else if kind == 0x70 then ErrorForm
    else if kind == 0xa1 then StoreReqForm
    else if kind == 0xa2 then StoreRspForm
    else if kind == 0xa3 then FetchReqForm
    else if kind == 0xa4 then FetchRspForm
    else Unsupported
  }

  function FormOfData(data: Data): Form {
    match data
    case NoData => Plain
    case Discovery(_) => Disc
    case Query => QueryForm
    case Find(_) => FindForm
    case Table(_) => TableForm
    case Updating(_) => UpdateForm
    case Failing(_) => ErrorForm
    case Storing(_) => StoreReqForm
    case Stored(_) => StoreRspForm
    case Fetching(_) => FetchReqForm
    case Fetched(_) => FetchRspForm
  }

  // ---------- writing ----------

  function Clamped(n: nat): Byte {
    if n <= 255 then n else 255
  }

  /** Nothing is written for an empty list. */
  function NotViaObjects(links: seq<Link>): seq<Object> {
    if links == [] then [] else [NotViaObject(links)]
  }

  predicate PathsFit(contacts: seq<Contact>) {
    forall i :: 0 <= i < |contacts| ==> |contacts[i].path| <= MAX_U16
  }

  predicate ValuesFit(values: seq<seq<Byte>>) {
    |values| <= MAX_U16 && (forall i :: 0 <= i < |values| ==> |values[i]| <= MAX_U16)
        && 3 + ValuesLength(values) <= MAX_U16
  }

  predicate UpdatesFit(updates: seq<Update>) {
    |updates| <= MAX_U16 && forall i :: 0 <= i < |updates| ==> |updates[i].contact.path| <= MAX_U16
  }

  /** The object that carries the data, if there is one; updates in the order given. */
  function DataObjects(data: Data, updates: seq<Update>): Result<seq<Object>> {
    match data
    case NoData => Ok([])
    case Query => Ok([])
    case Find(_) => Ok([])
    case Discovery(cs) =>
      if cs == [] then Ok([]) else if |cs| > MAX_U16 then Err else Ok([ContactListObject(cs)])
    case Table(cs) =>
      if cs == [] then Ok([]) else if |cs| > MAX_U16 || !PathsFit(cs) then Err else Ok([TableObject(cs)])
    case Updating(_) =>
      if updates == [] then Ok([]) else if !UpdatesFit(updates) then Err else Ok([UpdateObject(updates)])
    case Failing(e) => Ok([ErrorObject(e)])
    case Storing(r) => if |r.data| > MAX_U16 then Err else Ok([StoreReqObject(r)])
    case Stored(status) => if status.StoreFailed? then Err else Ok([StoreRspObject(status)])
    case Fetching(handle) => Ok([FetchReqObject(handle)])
    case Fetched(values) => if values.Some? && !ValuesFit(values.value) then Err else Ok([FetchRspObject(values)])
  }

  /** All objects of a message in the order they are written. */
  function Objects(m: Message, links: seq<Link>, updates: seq<Update>): Result<seq<Object>> {
    match (m.route, DataObjects(m.data, updates))
    case (_, Err) => Err
    case (None, Ok(data)) => Ok(data)
    case (Some(route), Ok(data)) =>
      if route.progress > MAX_INDEX then Err
      else
        var notVia := NotViaObjects(links);
        match m.data
        case Failing(_) => Ok(notVia + [RouteObject(route)] + data)
        case Query => Ok([RequestObject(REQUEST_VICINITY, Clamped(m.header.degree))] + [RouteObject(route)] + notVia)
        case Find(n) => Ok([RequestObject(REQUEST_OVERLAY, Clamped(n))] + [RouteObject(route)] + notVia)
        case _ => Ok([RouteObject(route)] + notVia + data)
  }

  /** The header is written with the length of the whole message, which must fit it. */
  function Serialize(m: Message, links: seq<Link>, updates: seq<Update>): Result<seq<Byte>> {
    match Objects(m, links, updates)
    case Err => Err
    case Ok(objects) =>
      var payload := Payload(objects);
      if HEADER_LEN + |payload| > MAX_U16 then Err
      else Ok(HeaderBytes(m.header.(length := HEADER_LEN + |payload|)) + payload)
  }

  // ---------- parsing ----------

  datatype Parsed = Parsed(route: Option<SourceRoute>, notVia: map<Link, nat>, contacts: seq<Contact>,
                           table: seq<Contact>, request: Option<(Byte, Byte)>)

  const Nothing := Parsed(None, map[], [], [], None)

  /** A link already there stays as it is. */
  function Inserted(notVia: map<Link, nat>, entries: seq<(Link, nat)>): map<Link, nat> {
    if entries == [] then notVia
    else
      var m := Inserted(notVia, entries[..|entries| - 1]);
      var (link, age) := entries[|entries| - 1];
      if link in m then m else m[link := age]
  }

  function Absorb(p: Parsed, raw: Raw): Result<Parsed> {
    if raw.tag == TAG_ROUTE then
      match ParseRoute(raw.body) case Err => Err case Ok(route) => Ok(p.(route := Some(route)))
    else if raw.tag == TAG_NOT_VIA then
      match ParseNotVia(raw.body) case Err => Err case Ok(entries) => Ok(p.(notVia := Inserted(p.notVia, entries)))
    else if raw.tag == TAG_CONTACTS then
      match ParseContactList(raw.body) case Err => Err case Ok(cs) => Ok(p.(contacts := p.contacts + cs))
    else if raw.tag == TAG_TABLE then
      match ParseTable(raw.body) case Err => Err case Ok(cs) => Ok(p.(table := p.table + cs))
    else if raw.tag == TAG_REQUEST then
      match ParseRequest(raw.body) case Err => Err case Ok(request) => Ok(p.(request := Some(request)))
    else Ok(p)
  }

  /** The common parser: objects may come in any order, unknown ones are skipped. */
  function Gather(raws: seq<Raw>): Result<Parsed> {
    if raws == [] then Ok(Nothing)
    else
      match Gather(raws[..|raws| - 1])
      case Err => Err
      case Ok(p) => Absorb(p, raws[|raws| - 1])
  }

  /** The body of the first object with the tag. */
  function BodyOf(tag: Byte, raws: seq<Raw>): Option<seq<Byte>> {
    if raws == [] then None else if raws[0].tag == tag then Some(raws[0].body) else BodyOf(tag, raws[1..])
  }

  /** Of several error objects the last one counts; none may be malformed. */
  function LastError(raws: seq<Raw>): Result<Option<ErrorData>> {
    if raws == [] then Ok(None)
    else
      var raw := raws[|raws| - 1];
      match (LastError(raws[..|raws| - 1]), ParseError(raw.body))
      case (Err, _) => Err
      case (Ok(found), e) =>
        if raw.tag != TAG_ERROR then Ok(found) else if e.Err? then Err else Ok(Some(e.value))
  }

  function AsMap(updates: seq<Update>): map<Contact, Byte> {
    if updates == [] then map[]
    else
      var last := updates[|updates| - 1];
      AsMap(updates[..|updates| - 1])[last.contact := last.action]
  }

  function ParseData(form: Form, p: Parsed, raws: seq<Raw>): (r: Result<Data>)
    ensures r.Ok? ==> FormOfData(r.value) == form
  {
    match form
    case Plain => Ok(NoData)
    case Disc => Ok(Discovery(p.contacts))
    case TableForm => Ok(Table(p.table))
    case QueryForm => if p.request.Some? && p.request.value.0 == REQUEST_VICINITY then Ok(Query) else Err
    case FindForm => if p.request.Some? && p.request.value.1 > 0 then Ok(Find(p.request.value.1)) else Err
    case UpdateForm =>
      (match BodyOf(TAG_UPDATE, raws)
       case None => Ok(Updating(map[]))
       case Some(body) => match ParseUpdates(body) case Err => Err case Ok(us) => Ok(Updating(AsMap(us))))
    case ErrorForm =>
      (match LastError(raws)
       case Ok(Some(e)) => Ok(Failing(e))
       case _ => Err)
    case StoreReqForm =>
      (match BodyOf(TAG_STORE_REQ, raws)
       case None => Err
       case Some(body) => match ParseStoreReq(body) case Err => Err case Ok(r) => Ok(Storing(r)))
    case StoreRspForm =>
      (match BodyOf(TAG_STORE_RSP, raws)
       case None => Err
       case Some(body) => match ParseStoreRsp(body) case Err => Err case Ok(st) => Ok(Stored(st)))
    case FetchReqForm =>
      (match BodyOf(TAG_FETCH_REQ, raws)
       case None => Err
       case Some(body) => match ParseFetchReq(body) case Err => Err case Ok(handle) => Ok(Fetching(handle)))
    case FetchRspForm =>
      (match BodyOf(TAG_FETCH_RSP, raws)
       case None => Err
       case Some(body) => match ParseFetchRsp(body) case Err => Err case Ok(values) => Ok(Fetched(values)))
    case Unsupported => Err
  }

  function ParsePayload(header: Header, payload: seq<Byte>): Result<Message> {
    match Split(payload)
    case Err => Err
    case Ok(raws) =>
      match Gather(raws)
      case Err => Err
      case Ok(p) =>
        match ParseData(FormOf(header.kind), p, raws)
        case Err => Err
        case Ok(data) =>
          if data.Discovery? then Ok(Message(header, data, None, None))
          else if p.route.None? then Err
          else Ok(Message(header, data, Some(p.notVia), p.route))
  }

  function Deserialize(bytes: seq<Byte>): Result<Message> {
    if |bytes| < HEADER_LEN then Err
    else
      var header := ParseHeader(bytes[..HEADER_LEN]);
      if header.length < HEADER_LEN || |bytes| < header.length then Err
      else ParsePayload(header, bytes[HEADER_LEN..header.length])
  }

  function GatherPayload(payload: seq<Byte>): Result<Parsed> {
    match Split(payload)
    case Err => Err
    case Ok(raws) => Gather(raws)
  }

  lemma {:induction false} MalformedStays(raws: seq<Raw>, more: seq<Raw>)
    requires Gather(raws) == Err
    ensures Gather(raws + more) == Err
    decreases |more|
  {
    if more == [] {
      assert raws + more == raws;
    } else {
      var all := raws + more;
      assert all[..|all| - 1] == raws + more[..|more| - 1];
      MalformedStays(raws, more[..|more| - 1]);
    }
  }

  /** Having found raws, the parser stands at the cursor and knows parsed. */
  ghost predicate ParsedUpTo(payload: seq<Byte>, consumed: nat, raws: seq<Raw>, parsed: Parsed)
    requires consumed <= |payload|
  {
    Split(payload) == Prepended(raws, Split(payload[consumed..])) && Gather(raws) == Ok(parsed)
  }

  lemma {:induction false} NextObject(payload: seq<Byte>, consumed: nat, raws: seq<Raw>, length: nat)
    requires consumed + 3 <= |payload| && length == Value(payload[consumed + 1..consumed + 3])
    requires Split(payload) == Prepended(raws, Split(payload[consumed..]))
    ensures consumed + 3 + length > |payload| ==> Split(payload) == Err
    ensures consumed + 3 + length <= |payload| ==>
              var raw := Raw(payload[consumed], payload[consumed + 3..consumed + 3 + length]);
              Split(payload) == Prepended(raws + [raw], Split(payload[consumed + 3 + length..]))
  {
    var rest := payload[consumed..];
    assert rest[1..3] == payload[consumed + 1..consumed + 3];
    if consumed + 3 + length <= |payload| {
      var raw := Raw(payload[consumed], payload[consumed + 3..consumed + 3 + length]);
      assert rest[3..3 + length] == raw.body && rest[3 + length..] == payload[consumed + 3 + length..];
      PrependedStep(raws, raw, Split(payload[consumed + 3 + length..]));
    }
  }

  lemma {:induction false} ObjectAbsorbed(raws: seq<Raw>, raw: Raw, parsed: Parsed, more: Result<seq<Raw>>)
    requires Gather(raws) == Ok(parsed)
    ensures Gather(raws + [raw]) == Absorb(parsed, raw)
    ensures Absorb(parsed, raw).Err? && more.Ok? ==> Gather(raws + [raw] + more.value) == Err
  {
    assert (raws + [raw])[..|raws|] == raws;
    if Absorb(parsed, raw).Err? && more.Ok? { MalformedStays(raws + [raw], more.value); }
  }

  /** The common parser as one loop over a cursor: each object is looked at as it is reached,
      and the first malformed one, or one that exceeds the payload, ends the parse. */
  method ParseReqRspPayload(payload: seq<Byte>) returns (r: Result<Parsed>)
    ensures r == GatherPayload(payload)
  {
    var consumed, parsed := 0, Nothing;
    ghost var raws: seq<Raw> := [];
    PrependedNothing(Split(payload));
    assert payload[0..] == payload;
    while consumed < |payload|
      invariant 0 <= consumed <= |payload| && ParsedUpTo(payload, consumed, raws, parsed)
    {
      if |payload| - consumed < 3 { return Err; }
      var tag, length := payload[consumed], Value(payload[consumed + 1..consumed + 3]);
      NextObject(payload, consumed, raws, length);
      if consumed + 3 + length > |payload| { return Err; }
      var raw := Raw(tag, payload[consumed + 3..consumed + 3 + length]);
      consumed := consumed + 3 + length;
      ObjectAbsorbed(raws, raw, parsed, Split(payload[consumed..]));
      match Absorb(parsed, raw) {
        case Err => return Err;
        case Ok(p) => parsed := p;
      }
      raws := raws + [raw];
    }
    assert raws + [] == raws;
    r := Ok(parsed);
  }

  // ---------- round trip ----------

  /** The links, or updates, in some order of iteration. */
  ghost predicate Lists<T(!new)>(xs: seq<T>, elements: set<T>) {
    && (forall x :: x in xs <==> x in elements)
    && (forall i, j :: 0 <= i < j < |xs| ==> xs[i] != xs[j])
  }

  function LinksOf(m: Message): set<Link> {
    if m.notVia.Some? then m.notVia.value.Keys else {}
  }

  function UpdatesOf(data: Data): set<Update> {
    if data.Updating? then set c | c in data.updates :: Update(c, data.updates[c]) else {}
  }

  /** The sixteen kinds of message with a payload, and what each one carries. */
  predicate Carries(kind: Byte, data: Data) {
    match data
    case NoData => kind == 0x21 || kind == 0x22 || kind == 0x81 || kind == 0x83  // probes, path setup and teardown
    case Discovery(_) => kind == 0x03 || kind == 0x04                            // ULNDiscReq and ULNDiscRsp
    case Query => kind == 0x0b                                                   // QueryRouteReq
    case Find(_) => kind == 0x09                                                 // FindNodeReq
    case Table(_) => kind == 0x0a || kind == 0x0c                                // FindNodeRsp and QueryRouteRsp
    case Updating(_) => kind == 0x11                                             // UpdateRouteReq
    case Failing(_) => kind == 0x70                                              // Error
    case Storing(_) => kind == 0xa1                                              // StoreReq
    case Stored(_) => kind == 0xa2                                               // StoreRsp
    case Fetching(_) => kind == 0xa3                                             // FetchReq
    case Fetched(_) => kind == 0xa4                                              // FetchRsp
  }

  /** Each kind is parsed for what it carries. */
  lemma KindIsParsedFor(kind: Byte, data: Data)
    ensures Carries(kind, data) <==> FormOf(kind) == FormOfData(data)
  {
  }

  /** Whatever bytes arrive, a message parsed from them carries what its kind says. */
  lemma {:induction false} ParsedCarriesItsKind(bytes: seq<Byte>)
    requires Deserialize(bytes).Ok?
    ensures var m := Deserialize(bytes).value;
            && Carries(m.header.kind, m.data) && m.header == ParseHeader(bytes[..HEADER_LEN])
            && (m.data.Discovery? <==> m.route.None?) && (m.data.Discovery? <==> m.notVia.None?)
  {
    var header := ParseHeader(bytes[..HEADER_LEN]);
    KindIsParsedFor(header.kind, Deserialize(bytes).value.data);
  }

  ghost predicate CanonicalData(data: Data) {
    match data
    case Discovery(cs) => forall c :: c in cs ==> SafeSsn(c.ssn)
    case Find(n) => n >= 1
    case Table(cs) => forall c :: c in cs ==> c.Canonical()
    case Updating(us) => forall c :: c in us ==> c.Canonical()
    case Failing(e) => e.DeadEnd? || e.link.Normal()
    case Storing(r) => r.age.Some? ==> r.age.value <= MAX_U64
    case _ => true
  }

  /** Fields in range, contacts with a path that ends at their id, links in normal form. */
  ghost predicate Canonical(m: Message) {
    && m.header.(length := 0).InRange() && Carries(m.header.kind, m.data)
    && (m.data.Discovery? <==> m.route.None?) && (m.data.Discovery? ==> m.notVia.None?)
    && (m.route.Some? ==> m.route.value.Valid())
    && (forall l :: l in LinksOf(m) ==> l.Normal())
    && CanonicalData(m.data)
  }

  /** Links lose their age, absent links become the empty set. */
  function Zeroed(links: set<Link>): map<Link, nat> {
    map l | l in links :: 0
  }

  function NormalData(data: Data): Data {
    match data
    case Discovery(cs) => Discovery(Mapped(Direct, cs))
    case Find(n) => Find(Clamped(n))
    case _ => data
  }

  function Normal(m: Message, length: nat): Message {
    Message(m.header.(length := length), NormalData(m.data),
            if m.data.Discovery? then None else Some(Zeroed(LinksOf(m))), m.route)
  }

  lemma {:induction false} RawsAppend(objects: seq<Object>, o: Object)
    ensures Raws(objects + [o]) == Raws(objects) + [Raw(o.tag, o.body)]
  {
  }

  lemma {:induction false} GatherAppend(objects: seq<Object>, o: Object, p: Parsed)
    requires Gather(Raws(objects)) == Ok(p)
    ensures Gather(Raws(objects + [o])) == Absorb(p, Raw(o.tag, o.body))
  {
    RawsAppend(objects, o);
    var raws := Raws(objects) + [Raw(o.tag, o.body)];
    assert raws[..|raws| - 1] == Raws(objects);
  }

  lemma {:induction false} InsertedZeroed(links: seq<Link>, entries: seq<(Link, nat)>)
    requires entries == Mapped(Aged, links)
    ensures Inserted(map[], entries) == Zeroed(set l | l in links)
    decreases |links|
  {
    if links != [] {
      var n := |links| - 1;
      assert entries[..n] == Mapped(Aged, links[..n]);
      InsertedZeroed(links[..n], entries[..n]);
      assert (set l | l in links) == (set l | l in links[..n]) + {links[n]};
    }
  }

  lemma {:induction false} NotViaGathers(objects: seq<Object>, links: seq<Link>, p: Parsed)
    requires Gather(Raws(objects)) == Ok(p) && p.notVia == map[] && forall l :: l in links ==> l.Normal()
    ensures Gather(Raws(objects + NotViaObjects(links))) == Ok(p.(notVia := Zeroed(set l | l in links)))
  {
    if links == [] {
      assert objects + NotViaObjects(links) == objects;
      assert Zeroed(set l | l in links) == map[];
    } else {
      NotViaRoundTrip(links);
      GatherAppend(objects, NotViaObject(links), p);
      InsertedZeroed(links, Mapped(Aged, links));
    }
  }

  lemma {:induction false} RouteGathers(objects: seq<Object>, route: SourceRoute, p: Parsed)
    requires Gather(Raws(objects)) == Ok(p) && route.Valid() && route.progress <= MAX_INDEX
    ensures Gather(Raws(objects + [RouteObject(route)])) == Ok(p.(route := Some(route)))
  {
    RouteRoundTrip(route);
    GatherAppend(objects, RouteObject(route), p);
  }

  lemma RequestGathers(kind: Byte, radius: Byte)
    ensures Gather(Raws([RequestObject(kind, radius)])) == Ok(Nothing.(request := Some((kind, radius))))
  {
    GatherAppend([], RequestObject(kind, radius), Nothing);
    assert [] + [RequestObject(kind, radius)] == [RequestObject(kind, radius)];
  }

  function WithData(p: Parsed, data: Data): Parsed {
    match data
    case Discovery(cs) => p.(contacts := Mapped(Direct, cs))
    case Table(cs) => p.(table := cs)
    case _ => p
  }

  lemma {:induction false} ContactsGather(objects: seq<Object>, contacts: seq<Contact>, p: Parsed)
    requires Gather(Raws(objects)) == Ok(p) && p.contacts == [] && forall c :: c in contacts ==> SafeSsn(c.ssn)
    ensures Gather(Raws(objects + [ContactListObject(contacts)])) == Ok(p.(contacts := Mapped(Direct, contacts)))
  {
    ContactListRoundTrip(contacts);
    GatherAppend(objects, ContactListObject(contacts), p);
    assert [] + Mapped(Direct, contacts) == Mapped(Direct, contacts);
  }

  lemma {:induction false} TableAbsorbed(p: Parsed, body: seq<Byte>, contacts: seq<Contact>)
    requires p.table == [] && ParseTable(body) == Ok(contacts)
    ensures Absorb(p, Raw(TAG_TABLE, body)) == Ok(p.(table := contacts))
  {
    assert [] + contacts == contacts;
  }

  lemma {:induction false} TableGathers(objects: seq<Object>, contacts: seq<Contact>, p: Parsed)
    requires Gather(Raws(objects)) == Ok(p) && p.table == []
    requires forall c :: c in contacts ==> c.Canonical() && |c.path| <= MAX_U16
    ensures Gather(Raws(objects + [TableObject(contacts)])) == Ok(p.(table := contacts))
  {
    TableRoundTrip(contacts);
    TableAbsorbed(p, TableObject(contacts).body, contacts);
    GatherAppend(objects, TableObject(contacts), p);
  }

  lemma {:induction false} NothingGathers(objects: seq<Object>, p: Parsed)
    requires Gather(Raws(objects)) == Ok(p)
    ensures Gather(Raws(objects + [])) == Ok(p)
  {
    assert objects + [] == objects;
  }

  /** Objects that carry other data are skipped by the common parser. */
  lemma {:induction false} SkippedGathers(objects: seq<Object>, o: Object, p: Parsed)
    requires Gather(Raws(objects)) == Ok(p) && Skipped(o)
    ensures Gather(Raws(objects + [o])) == Ok(p)
  {
    GatherAppend(objects, o, p);
  }

  predicate Skipped(o: Object) {
    o.tag == TAG_UPDATE || o.tag == TAG_ERROR || o.tag >= TAG_STORE_REQ
  }

  lemma {:induction false} OtherDataIsSkipped(data: Data, updates: seq<Update>)
    requires DataObjects(data, updates).Ok? && !data.Discovery? && !data.Table?
    ensures var d := DataObjects(data, updates).value; d == [] || (d == [d[0]] && Skipped(d[0]))
  {
  }

  lemma {:induction false} DataGathers(objects: seq<Object>, data: Data, updates: seq<Update>, p: Parsed)
    requires Gather(Raws(objects)) == Ok(p) && p.contacts == [] && p.table == []
    requires CanonicalData(data) && DataObjects(data, updates).Ok?
    ensures Gather(Raws(objects + DataObjects(data, updates).value)) == Ok(WithData(p, data))
  {
    if data.Discovery? {
      if data.neighbors == [] { NothingGathers(objects, p); } else { ContactsGather(objects, data.neighbors, p); }
    } else if data.Table? {
      if data.contacts == [] { NothingGathers(objects, p); } else { TableGathers(objects, data.contacts, p); }
    } else {
      OtherDataGathers(objects, data, updates, p);
    }
  }

  lemma {:induction false} OtherDataGathers(objects: seq<Object>, data: Data, updates: seq<Update>, p: Parsed)
    requires Gather(Raws(objects)) == Ok(p)
    requires DataObjects(data, updates).Ok? && !data.Discovery? && !data.Table?
    ensures Gather(Raws(objects + DataObjects(data, updates).value)) == Ok(p)
  {
    var d := DataObjects(data, updates).value;
    OtherDataIsSkipped(data, updates);
    NothingGathers(objects, p);
    if d != [] { SkippedGathers(objects, d[0], p); }
  }

  lemma {:induction false} BodyFound(before: seq<Object>, o: Object)
    requires forall x :: x in before ==> x.tag != o.tag
    ensures BodyOf(o.tag, Raws(before + [o])) == Some(o.body)
  {
    if before == [] {
      assert before + [o] == [o];
    } else {
      assert (before + [o])[1..] == before[1..] + [o];
      BodyFound(before[1..], o);
    }
  }

  lemma {:induction false} BodyMissing(objects: seq<Object>, tag: Byte)
    requires forall x :: x in objects ==> x.tag != tag
    ensures BodyOf(tag, Raws(objects)) == None
  {
    if objects != [] { BodyMissing(objects[1..], tag); }
  }

  lemma {:induction false} NoError(objects: seq<Object>)
    requires forall x :: x in objects ==> x.tag != TAG_ERROR
    ensures LastError(Raws(objects)) == Ok(None)
  {
    if objects != [] {
      var init, o := objects[..|objects| - 1], objects[|objects| - 1];
      NoError(init);
      assert objects == init + [o];
      RawsAppend(init, o);
      assert (Raws(init) + [Raw(o.tag, o.body)])[..|init|] == Raws(init);
    }
  }

  lemma {:induction false} ErrorFound(before: seq<Object>, e: ErrorData)
    requires (forall x :: x in before ==> x.tag != TAG_ERROR) && (e.DeadEnd? || e.link.Normal())
    ensures LastError(Raws(before + [ErrorObject(e)])) == Ok(Some(e))
  {
    var o := ErrorObject(e);
    NoError(before);
    ErrorRoundTrip(e);
    RawsAppend(before, o);
    assert (Raws(before) + [Raw(o.tag, o.body)])[..|before|] == Raws(before);
  }

  lemma {:induction false} AsMapOfListing(updates: seq<Update>)
    requires forall i, j :: 0 <= i < j < |updates| ==> updates[i].contact != updates[j].contact
    ensures forall u :: u in updates ==> u.contact in AsMap(updates) && AsMap(updates)[u.contact] == u.action
    ensures AsMap(updates).Keys == set u | u in updates :: u.contact
  {
    if updates != [] {
      AsMapOfListing(updates[..|updates| - 1]);
    }
  }

  /** In whatever order a map is written, reading its entries gives the map. */
  lemma {:induction false} ListingIsMap(data: Data, updates: seq<Update>)
    requires data.Updating? && Lists(updates, UpdatesOf(data))
    ensures AsMap(updates) == data.updates
  {
    forall i, j | 0 <= i < j < |updates| ensures updates[i].contact != updates[j].contact {
      assert updates[i] in UpdatesOf(data) && updates[j] in UpdatesOf(data);
    }
    AsMapOfListing(updates);
    forall c | c in data.updates ensures c in AsMap(updates) && AsMap(updates)[c] == data.updates[c] {
      assert Update(c, data.updates[c]) in UpdatesOf(data);
    }
    forall c | c in AsMap(updates) ensures c in data.updates {
      var u :| u in updates && u.contact == c;
      assert u in UpdatesOf(data);
    }
  }

  predicate Common(o: Object) {
    o.tag == TAG_ROUTE || o.tag == TAG_NOT_VIA || o.tag == TAG_REQUEST
  }

  lemma {:induction false} UpdatesParse(before: seq<Object>, data: Data, updates: seq<Update>, p: Parsed)
    requires (forall o :: o in before ==> Common(o)) && data.Updating? && CanonicalData(data)
    requires Lists(updates, UpdatesOf(data)) && DataObjects(data, updates).Ok?
    ensures ParseData(UpdateForm, p, Raws(before + DataObjects(data, updates).value)) == Ok(data)
  {
    ListingIsMap(data, updates);
    if updates == [] {
      assert before + [] == before;
      BodyMissing(before, TAG_UPDATE);
    } else {
      forall u | u in updates ensures u.contact.Canonical() && |u.contact.path| <= MAX_U16 {
        assert u in UpdatesOf(data);
      }
      UpdateRoundTrip(updates);
      BodyFound(before, UpdateObject(updates));
    }
  }

  lemma {:induction false} StoreParses(before: seq<Object>, r: StoreReq, p: Parsed)
    requires (forall o :: o in before ==> Common(o)) && |r.data| <= MAX_U16 && (r.age.Some? ==> r.age.value <= MAX_U64)
    ensures ParseData(StoreReqForm, p, Raws(before + [StoreReqObject(r)])) == Ok(Storing(r))
  {
    StoreReqRoundTrip(r);
    BodyFound(before, StoreReqObject(r));
  }

  lemma {:induction false} FetchParses(before: seq<Object>, values: Option<seq<seq<Byte>>>, p: Parsed)
    requires (forall o :: o in before ==> Common(o)) && (values.Some? ==> ValuesFit(values.value))
    ensures ParseData(FetchRspForm, p, Raws(before + [FetchRspObject(values)])) == Ok(Fetched(values))
  {
    FetchRspRoundTrip(values);
    BodyFound(before, FetchRspObject(values));
  }

  lemma {:induction false} StatusParses(before: seq<Object>, status: StoreStatus, p: Parsed)
    requires (forall o :: o in before ==> Common(o)) && !status.StoreFailed?
    ensures ParseData(StoreRspForm, p, Raws(before + [StoreRspObject(status)])) == Ok(Stored(status))
  {
    BodyFound(before, StoreRspObject(status));
  }

  lemma {:induction false} HandleParses(before: seq<Object>, handle: NodeId, p: Parsed)
    requires forall o :: o in before ==> Common(o)
    ensures ParseData(FetchReqForm, p, Raws(before + [FetchReqObject(handle)])) == Ok(Fetching(handle))
  {
    IdRoundTrip(handle);
    BodyFound(before, FetchReqObject(handle));
  }

  lemma {:induction false} LastErrorParses(raws: seq<Raw>, e: ErrorData, p: Parsed)
    requires LastError(raws) == Ok(Some(e))
    ensures ParseData(ErrorForm, p, raws) == Ok(Failing(e))
  {
  }

  lemma {:induction false} ErrorParses(before: seq<Object>, e: ErrorData, p: Parsed)
    requires (forall o :: o in before ==> Common(o)) && (e.DeadEnd? || e.link.Normal())
    ensures ParseData(ErrorForm, p, Raws(before + [ErrorObject(e)])) == Ok(Failing(e))
  {
    ErrorFound(before, e);
    LastErrorParses(Raws(before + [ErrorObject(e)]), e, p);
  }

  lemma {:induction false} HashTableDataParses(before: seq<Object>, data: Data, updates: seq<Update>, p: Parsed)
    requires (forall o :: o in before ==> Common(o)) && CanonicalData(data) && DataObjects(data, updates).Ok?
    requires data.Storing? || data.Stored? || data.Fetching? || data.Fetched?
    ensures ParseData(FormOfData(data), p, Raws(before + DataObjects(data, updates).value)) == Ok(data)
  {
    match data
    case Storing(r) => StoreParses(before, r, p);
    case Stored(status) => StatusParses(before, status, p);
    case Fetching(handle) => HandleParses(before, handle, p);
    case Fetched(values) => FetchParses(before, values, p);
  }

  /** The data object of every kind that has one is found and parsed back. */
  lemma {:induction false} DataParses(before: seq<Object>, data: Data, updates: seq<Update>, p: Parsed)
    requires (forall o :: o in before ==> Common(o)) && CanonicalData(data)
    requires Lists(updates, UpdatesOf(data)) && DataObjects(data, updates).Ok?
    requires !data.Query? && !data.Find?
    ensures ParseData(FormOfData(data), WithData(p, data), Raws(before + DataObjects(data, updates).value))
         == Ok(NormalData(data))
  {
    if data.Updating? {
      UpdatesParse(before, data, updates, p);
    } else if data.Failing? {
      ErrorParses(before, data.error, p);
    } else if data.Storing? || data.Stored? || data.Fetching? || data.Fetched? {
      HashTableDataParses(before, data, updates, p);
    }
  }

  // ---------- whole messages ----------

  function RequestOf(m: Message): Option<(Byte, Byte)> {
    match m.data
    case Query => Some((REQUEST_VICINITY, Clamped(m.header.degree)))
    case Find(n) => Some((REQUEST_OVERLAY, Clamped(n)))
    case _ => None
  }

  function ParsedOf(m: Message): Parsed {
    WithData(Parsed(m.route, Zeroed(LinksOf(m)), [], [], RequestOf(m)), m.data)
  }

  lemma {:induction false} LinksListed(m: Message, links: seq<Link>)
    requires Canonical(m) && Lists(links, LinksOf(m))
    ensures (set l | l in links) == LinksOf(m) && forall l :: l in links ==> l.Normal()
  {
  }

  lemma {:induction false} ErrorHonest(e: ErrorData)
    ensures Honest(ErrorObject(e))
  {
  }

  lemma {:induction false} HashTableDataHonest(data: Data, updates: seq<Update>, o: Object)
    requires data.Storing? || data.Stored? || data.Fetching? || data.Fetched?
    requires DataObjects(data, updates).Ok? && o in DataObjects(data, updates).value
    ensures Honest(o)
  {
    if data.Fetched? {
      FetchRspRoundTrip(data.values);
    }
  }

  lemma {:induction false} DataHonest(data: Data, updates: seq<Update>, o: Object)
    requires DataObjects(data, updates).Ok? && o in DataObjects(data, updates).value
    ensures Honest(o)
  {
    if data.Discovery? {
      ContactListLength(data.neighbors);
    } else if data.Table? {
      EntriesLengthIsWritten(data.contacts);
    } else if data.Updating? {
      UpdatesLengthIsWritten(updates);
    } else if data.Failing? {
      ErrorHonest(data.error);
    } else {
      HashTableDataHonest(data, updates, o);
    }
  }

  lemma {:induction false} RouteAndLinksGather(before: seq<Object>, route: SourceRoute, links: seq<Link>, p: Parsed)
    requires Gather(Raws(before)) == Ok(p) && p.notVia == map[]
    requires route.Valid() && route.progress <= MAX_INDEX && forall l :: l in links ==> l.Normal()
    ensures Gather(Raws(before + [RouteObject(route)] + NotViaObjects(links)))
         == Ok(p.(route := Some(route), notVia := Zeroed(set l | l in links)))
  {
    RouteGathers(before, route, p);
    NotViaGathers(before + [RouteObject(route)], links, p.(route := Some(route)));
  }

  lemma {:induction false} DiscoveryParsed(m: Message)
    requires Canonical(m) && m.data.Discovery?
    ensures ParsedOf(m) == WithData(Nothing, m.data)
  {
    assert Zeroed({}) == map[];
  }

  lemma {:induction false} DiscoveryGathers(m: Message, updates: seq<Update>)
    requires Canonical(m) && m.data.Discovery? && DataObjects(m.data, updates).Ok?
    ensures Gather(Raws(DataObjects(m.data, updates).value)) == Ok(ParsedOf(m))
  {
    var d := DataObjects(m.data, updates).value;
    DiscoveryParsed(m);
    DataGathers([], m.data, updates, Nothing);
    assert [] + d == d;
  }

  lemma {:induction false} RequestMessageGathers(m: Message, links: seq<Link>, kind: Byte, radius: Byte)
    requires Canonical(m) && Lists(links, LinksOf(m)) && RequestOf(m) == Some((kind, radius))
    requires m.route.Some? && m.route.value.progress <= MAX_INDEX
    ensures Gather(Raws([RequestObject(kind, radius)] + [RouteObject(m.route.value)] + NotViaObjects(links)))
            == Ok(ParsedOf(m))
  {
    LinksListed(m, links);
    RequestGathers(kind, radius);
    RouteAndLinksGather([RequestObject(kind, radius)], m.route.value, links, Nothing.(request := Some((kind, radius))));
  }

  lemma {:induction false} ErrorMessageGathers(m: Message, links: seq<Link>)
    requires Canonical(m) && Lists(links, LinksOf(m)) && m.data.Failing?
    requires m.route.value.progress <= MAX_INDEX
    ensures Gather(Raws(NotViaObjects(links) + [RouteObject(m.route.value)] + [ErrorObject(m.data.error)]))
            == Ok(ParsedOf(m))
  {
    LinksListed(m, links);
    NotViaGathers([], links, Nothing);
    assert [] + NotViaObjects(links) == NotViaObjects(links);
    var p := Nothing.(notVia := Zeroed(LinksOf(m)));
    RouteGathers(NotViaObjects(links), m.route.value, p);
    SkippedGathers(NotViaObjects(links) + [RouteObject(m.route.value)], ErrorObject(m.data.error),
        p.(route := m.route));
  }

  lemma {:induction false} DataMessageGathers(m: Message, links: seq<Link>, updates: seq<Update>)
    requires Canonical(m) && Lists(links, LinksOf(m)) && RequestOf(m) == None && DataObjects(m.data, updates).Ok?
    requires m.route.Some? && m.route.value.progress <= MAX_INDEX
    ensures Gather(Raws([RouteObject(m.route.value)] + NotViaObjects(links) + DataObjects(m.data, updates).value))
         == Ok(ParsedOf(m))
  {
    LinksListed(m, links);
    RouteAndLinksGather([], m.route.value, links, Nothing);
    assert [] + [RouteObject(m.route.value)] == [RouteObject(m.route.value)];
    DataGathers([RouteObject(m.route.value)] + NotViaObjects(links), m.data, updates,
                Nothing.(route := m.route, notVia := Zeroed(LinksOf(m))));
  }

  lemma {:induction false} MessageGathers(m: Message, links: seq<Link>, updates: seq<Update>)
    requires Canonical(m) && Lists(links, LinksOf(m)) && Lists(updates, UpdatesOf(m.data))
    requires Objects(m, links, updates).Ok?
    ensures Gather(Raws(Objects(m, links, updates).value)) == Ok(ParsedOf(m))
  {
    match m.data
    case Discovery(_) => DiscoveryGathers(m, updates);
    case Query => RequestMessageGathers(m, links, REQUEST_VICINITY, Clamped(m.header.degree));
    case Find(n) => RequestMessageGathers(m, links, REQUEST_OVERLAY, Clamped(n));
    case Failing(_) => ErrorMessageGathers(m, links);
    case _ => DataMessageGathers(m, links, updates);
  }

  lemma {:induction false} MessageHonest(m: Message, links: seq<Link>, updates: seq<Update>, o: Object)
    requires Objects(m, links, updates).Ok? && o in Objects(m, links, updates).value
    ensures Honest(o)
  {
    NotViaLength(links);
    if o in DataObjects(m.data, updates).value { DataHonest(m.data, updates, o); }
  }

  /** The objects in front of the one with the data. */
  function Front(m: Message, links: seq<Link>): (front: seq<Object>)
    requires RequestOf(m) == None
    ensures forall o :: o in front ==> Common(o)
  {
    if m.route.None? then []
    else if m.data.Failing? then NotViaObjects(links) + [RouteObject(m.route.value)]
    else [RouteObject(m.route.value)] + NotViaObjects(links)
  }

  lemma {:induction false} DataBehindFront(m: Message, links: seq<Link>, updates: seq<Update>)
    requires RequestOf(m) == None && Objects(m, links, updates).Ok?
    ensures DataObjects(m.data, updates).Ok?
    ensures Objects(m, links, updates).value == Front(m, links) + DataObjects(m.data, updates).value
  {
    if m.route.None? {
      assert [] + DataObjects(m.data, updates).value == DataObjects(m.data, updates).value;
    }
  }

  lemma {:induction false} MessageDataParses(m: Message, links: seq<Link>, updates: seq<Update>)
    requires Canonical(m) && Lists(links, LinksOf(m)) && Lists(updates, UpdatesOf(m.data))
    requires Objects(m, links, updates).Ok?
    ensures ParseData(FormOfData(m.data), ParsedOf(m), Raws(Objects(m, links, updates).value)) == Ok(NormalData(m.data))
  {
    if RequestOf(m) == None {
      DataBehindFront(m, links, updates);
      DataParses(Front(m, links), m.data, updates, Parsed(m.route, Zeroed(LinksOf(m)), [], [], None));
    }
  }

  lemma {:induction false} PayloadParsesBack(m: Message, links: seq<Link>, updates: seq<Update>, length: nat)
    requires Canonical(m) && Lists(links, LinksOf(m)) && Lists(updates, UpdatesOf(m.data))
    requires Objects(m, links, updates).Ok? && |Payload(Objects(m, links, updates).value)| <= MAX_U16
    ensures ParsePayload(m.header.(length := length), Payload(Objects(m, links, updates).value))
            == Ok(Normal(m, length))
  {
    var objects := Objects(m, links, updates).value;
    forall o | o in objects ensures Honest(o) {
      MessageHonest(m, links, updates, o);
    }
    PayloadSplits(objects);
    KindIsParsedFor(m.header.kind, m.data);
    MessageGathers(m, links, updates);
    MessageDataParses(m, links, updates);
  }

  lemma {:induction false} FrameRoundTrip(header: Header, payload: seq<Byte>)
    requires header.InRange() && header.length == HEADER_LEN + |payload|
    ensures var bytes := HeaderBytes(header) + payload;
            ParseHeader(bytes[..HEADER_LEN]) == header && bytes[HEADER_LEN..header.length] == payload
  {
    HeaderRoundTrip(header);
    Cut(HeaderBytes(header), payload);
  }

  lemma {:induction false} FrameParses(header: Header, payload: seq<Byte>, m: Message)
    requires header.InRange() && header.length == HEADER_LEN + |payload| && ParsePayload(header, payload) == Ok(m)
    ensures Deserialize(HeaderBytes(header) + payload) == Ok(m)
  {
    FrameRoundTrip(header, payload);
  }

  lemma {:induction false} SerializedFrame(m: Message, links: seq<Link>, updates: seq<Update>, objects: seq<Object>)
    requires Serialize(m, links, updates).Ok? && Objects(m, links, updates) == Ok(objects)
    ensures HEADER_LEN + |Payload(objects)| <= MAX_U16
    ensures Serialize(m, links, updates).value
         == HeaderBytes(m.header.(length := HEADER_LEN + |Payload(objects)|)) + Payload(objects)
  {
  }

  /** What is read back of the data: contact lists keep id and sequence number, a neighbourhood is one byte on
      the wire, and everything else comes back as it was. */
  predicate DataReadsAs(data: Data, read: Data) {
    match data
    case Discovery(cs) =>
      && read.Discovery? && |read.neighbors| == |cs|
      && forall i :: 0 <= i < |cs| ==> read.neighbors[i] == Contact(cs[i].id, [cs[i].id], cs[i].ssn)
    case Find(n) => read == Find(if n <= 255 then n else 255)
    case _ => read == data
  }

  /** Header and route come back, the header with its length; links to avoid come back without their age, and
      only discovery messages have none. */
  predicate ReadsAs(m: Message, read: Message, length: nat) {
    && read.header == m.header.(length := length) && read.route == m.route && DataReadsAs(m.data, read.data)
    && (if m.data.Discovery? then read.notVia == None
        else
          && read.notVia.Some? && read.notVia.value.Keys == LinksOf(m)
          && forall l :: l in read.notVia.value ==> read.notVia.value[l] == 0)
  }

  lemma NormalReadsAs(m: Message, length: nat)
    ensures ReadsAs(m, Normal(m, length), length)
  {
  }

  /** Parsing what was written gives the message back in its normal form, which does not
      depend on the order in which links and updates were iterated over. */
  lemma {:induction false} RoundTrip(m: Message, links: seq<Link>, updates: seq<Update>)
    requires Canonical(m) && Lists(links, LinksOf(m)) && Lists(updates, UpdatesOf(m.data))
    requires Serialize(m, links, updates).Ok?
    ensures var bytes := Serialize(m, links, updates).value;
            Deserialize(bytes) == Ok(Normal(m, |bytes|)) && ReadsAs(m, Deserialize(bytes).value, |bytes|)
  {
    var objects := Objects(m, links, updates).value;
    var header := m.header.(length := HEADER_LEN + |Payload(objects)|);
    SerializedFrame(m, links, updates, objects);
    KindIsParsedFor(m.header.kind, m.data);
    PayloadParsesBack(m, links, updates, header.length);
    FrameParses(header, Payload(objects), Normal(m, header.length));
    NormalReadsAs(m, header.length);
  }

  /** At this place a tag and a length field are followed by exactly the body they announce. */
  predicate Announces(bytes: seq<Byte>, at: nat, o: Object) {
    && at + 3 + |o.body| <= |bytes| && bytes[at] == o.tag
    && Value(bytes[at..][1..3]) == |o.body| && bytes[at..][3..3 + |o.body|] == o.body
  }

  lemma {:induction false} AnnouncesBehind(front: seq<Byte>, o: Object, tail: seq<Byte>)
    requires Honest(o) && |o.body| <= MAX_U16
    ensures Announces(front + (ObjectBytes(o) + tail), |front|, o)
  {
    Cut(front, ObjectBytes(o) + tail);
    LengthField(o, tail);
  }

  lemma {:induction false} FieldInFrame(header: seq<Byte>, p: seq<Byte>, before: seq<Byte>, o: Object, after: seq<Byte>)
    requires Honest(o) && |o.body| <= MAX_U16 && p == before + (ObjectBytes(o) + after)
    ensures Announces(header + p, |header| + |before|, o)
  {
    assert header + p == (header + before) + (ObjectBytes(o) + after);
    AnnouncesBehind(header + before, o, after);
  }

  lemma {:induction false} EveryFieldInFrame(header: seq<Byte>, objects: seq<Object>, i: nat)
    requires i < |objects| && Honest(objects[i]) && |Payload(objects)| <= MAX_U16
    ensures Announces(header + Payload(objects), |header| + |Payload(objects[..i])|, objects[i])
  {
    assert objects == objects[..i] + [objects[i]] + objects[i + 1..];
    ObjectFits(objects[..i], objects[i], objects[i + 1..]);
    PayloadFrom(objects[..i], objects[i], objects[i + 1..]);
    FieldInFrame(header, Payload(objects), Payload(objects[..i]), objects[i], Payload(objects[i + 1..]));
  }

  /** The header says how long the frame is, and every object how long its body is. */
  ghost predicate LengthsExact(bytes: seq<Byte>, objects: seq<Object>) {
    && |bytes| >= HEADER_LEN && ParseHeader(bytes[..HEADER_LEN]).length == |bytes|
    && forall i :: 0 <= i < |objects| ==> Announces(bytes, HEADER_LEN + |Payload(objects[..i])|, objects[i])
  }

  lemma {:induction false} FrameLength(header: Header, payload: seq<Byte>)
    requires header.InRange() && header.length == HEADER_LEN + |payload|
    ensures ParseHeader((HeaderBytes(header) + payload)[..HEADER_LEN]).length == |HeaderBytes(header) + payload|
  {
    FrameRoundTrip(header, payload);
  }

  lemma {:induction false} FieldsInFrame(header: seq<Byte>, objects: seq<Object>)
    requires (forall o :: o in objects ==> Honest(o)) && |Payload(objects)| <= MAX_U16
    ensures forall i :: 0 <= i < |objects| ==>
              Announces(header + Payload(objects), |header| + |Payload(objects[..i])|, objects[i])
  {
    forall i | 0 <= i < |objects|
      ensures Announces(header + Payload(objects), |header| + |Payload(objects[..i])|, objects[i])
    {
      EveryFieldInFrame(header, objects, i);
    }
  }

  lemma {:induction false} FrameLengths(header: Header, objects: seq<Object>)
    requires header.InRange() && header.length == HEADER_LEN + |Payload(objects)|
    requires forall o :: o in objects ==> Honest(o)
    ensures LengthsExact(HeaderBytes(header) + Payload(objects), objects)
  {
    FrameLength(header, Payload(objects));
    FieldsInFrame(HeaderBytes(header), objects);
  }

  /** Whenever a message is serialized, canonical or not and whatever lists are written, the length in the
      header is the number of bytes written and every object's length field the number of body bytes
      behind it. That header fields are machine words is all that is asked of the message. */
  lemma {:induction false} LengthsAreExact(m: Message, links: seq<Link>, updates: seq<Update>, objects: seq<Object>)
    requires m.header.(length := 0).InRange()
    requires Serialize(m, links, updates).Ok? && Objects(m, links, updates) == Ok(objects)
    ensures LengthsExact(Serialize(m, links, updates).value, objects)
  {
    SerializedFrame(m, links, updates, objects);
    forall o | o in objects ensures Honest(o) {
      MessageHonest(m, links, updates, o);
    }
    FrameLengths(m.header.(length := HEADER_LEN + |Payload(objects)|), objects);
  }

  lemma {:induction false} ObjectFits(before: seq<Object>, o: Object, after: seq<Object>)
    ensures |o.body| < |Payload(before + [o] + after)|
  {
    PayloadFrom(before, o, after);
  }

  lemma {:induction false} EveryObjectFits(objects: seq<Object>, o: Object)
    requires o in objects
    ensures |o.body| < |Payload(objects)|
  {
    var i :| 0 <= i < |objects| && objects[i] == o;
    assert objects == objects[..i] + [o] + objects[i + 1..];
    ObjectFits(objects[..i], o, objects[i + 1..]);
  }

  /** An object too long for its length field makes the whole message be refused. */
  lemma {:induction false} OversizedObjectIsRefused(m: Message, links: seq<Link>, updates: seq<Update>, o: Object)
    requires Objects(m, links, updates).Ok? && o in Objects(m, links, updates).value && |o.body| > MAX_U16
    ensures Serialize(m, links, updates) == Err
  {
    EveryObjectFits(Objects(m, links, updates).value, o);
  }
}
