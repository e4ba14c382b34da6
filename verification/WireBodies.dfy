/** The bodies of the payload objects: how each is written and what parsing makes of it. */
module WireBodies {
  import opened NodeIds
  import opened SourceRoutes
  import opened WireBytes
  import opened WireObjects

  const MAX_U32: nat := 0xffff_ffff
  const MAX_INDEX: nat := 1023

  const TAG_ROUTE: Byte := 0x01
  const TAG_NOT_VIA: Byte := 0x02
  const TAG_CONTACTS: Byte := 0x03
  const TAG_REQUEST: Byte := 0x04
  const TAG_TABLE: Byte := 0x05
  const TAG_UPDATE: Byte := 0x06
  const TAG_ERROR: Byte := 0x07
  const TAG_STORE_REQ: Byte := 0x80
  const TAG_STORE_RSP: Byte := 0x81
  const TAG_FETCH_REQ: Byte := 0x82
  const TAG_FETCH_RSP: Byte := 0x83

  // ---------- lists of entries ----------

  /** A reader takes one entry off the front and says how many bytes it took. */
  type Reader<!T> = seq<Byte> -> Result<(T, nat)>

  function WriteAll<U>(write: U -> seq<Byte>, xs: seq<U>): seq<Byte> {
    if xs == [] then [] else write(xs[0]) + WriteAll(write, xs[1..])
  }

  function ReadAll<T>(read: Reader<T>, bytes: seq<Byte>): Result<seq<T>> {
    if bytes == [] then Ok([])
    else
      match read(bytes)
      case Err => Err
      case Ok((x, k)) =>
        if k == 0 || k > |bytes| then Err
        else
          match ReadAll(read, bytes[k..])
          case Err => Err
          case Ok(rest) => Ok([x] + rest)
  }

  function Mapped<U, T>(norm: U -> T, xs: seq<U>): (ys: seq<T>)
    ensures |ys| == |xs| && forall i :: 0 <= i < |xs| ==> ys[i] == norm(xs[i])
  {
    if xs == [] then [] else [norm(xs[0])] + Mapped(norm, xs[1..])
  }

  /** Whatever follows an entry, reading takes exactly the entry, up to its normal form. */
  ghost predicate ReadsBack<T(!new), U>(read: Reader<T>, write: U -> seq<Byte>, norm: U -> T, x: U) {
    write(x) != [] && forall rest :: read(write(x) + rest) == Ok((norm(x), |write(x)|))
  }

  lemma {:induction false} ListReadsBack<T(!new), U>(read: Reader<T>, write: U -> seq<Byte>, norm: U -> T, xs: seq<U>)
    requires forall x :: x in xs ==> ReadsBack(read, write, norm, x)
    ensures ReadAll(read, WriteAll(write, xs)) == Ok(Mapped(norm, xs))
  {
    if xs != [] {
      var x, rest := xs[0], WriteAll(write, xs[1..]);
      ListReadsBack(read, write, norm, xs[1..]);
      assert ReadsBack(read, write, norm, x);
      assert read(write(x) + rest) == Ok((norm(x), |write(x)|));
      assert (write(x) + rest)[|write(x)|..] == rest;
    }
  }

  lemma {:induction false} WriteAllLength<U>(write: U -> seq<Byte>, xs: seq<U>, size: nat)
    requires forall x :: x in xs ==> |write(x)| == size
    ensures |WriteAll(write, xs)| == |xs| * size
  {
    if xs != [] {
      WriteAllLength(write, xs[1..], size);
      assert |xs| * size == size + (|xs| - 1) * size;
    }
  }

  lemma Divides32(n: nat, total: nat)
    requires total == n * 32
    ensures total % 32 == 0
  {
  }

  /** What a cursor sees behind and before it. */
  lemma Cut(a: seq<Byte>, b: seq<Byte>)
    ensures (a + b)[..|a|] == a && (a + b)[|a|..] == b
  {
  }

  // ---------- source route ----------

  function RouteObject(route: SourceRoute): Object {
    Object(TAG_ROUTE, 2 + |route.ids| * ID_SIZE, BigEndian(route.progress, 2) + IdsBytes(route.ids))
  }

  /** The index tells how often a new route is advanced. */
  function ParseRoute(body: seq<Byte>): Result<SourceRoute> {
    if |body| < 2 || (|body| - 2) % ID_SIZE != 0 || (|body| - 2) / ID_SIZE < 2 then Err
    else
      var ids := IdsOf(body[2..], (|body| - 2) / ID_SIZE);
      Ok(AdvancedTimes(SourceRoute(ids, 1), Value(body[..2])))
  }

  function AdvancedTimes(route: SourceRoute, index: nat): (r: SourceRoute)
    requires route.Valid() && route.progress == 1
    ensures r.Valid() && r.ids == route.ids
    ensures 1 <= index < |route.ids| ==> r.progress == index
  {
    if index <= 1 then route else AdvancedTimes(route, index - 1).Advanced()
  }

  lemma {:induction false} RoutePartsParse(index: seq<Byte>, ids: seq<Byte>, hops: nat)
    requires |index| == 2 && |ids| == hops * ID_SIZE && hops >= 2
    ensures ParseRoute(index + ids) == Ok(AdvancedTimes(SourceRoute(IdsOf(ids, hops), 1), Value(index)))
  {
    Cut(index, ids);
    assert (|index + ids| - 2) / ID_SIZE == hops;
  }

  lemma RouteRoundTrip(route: SourceRoute)
    requires route.Valid() && route.progress <= MAX_INDEX
    ensures Honest(RouteObject(route)) && ParseRoute(RouteObject(route).body) == Ok(route)
  {
    RoutePartsParse(BigEndian(route.progress, 2), IdsBytes(route.ids), |route.ids|);
    ValueOfBigEndian(route.progress, 2);
    IdsRoundTrip(route.ids);
  }

  // ---------- links to avoid ----------

  /** A link between two nodes, in normal form. */
  datatype Link = Link(first: NodeId, second: NodeId) {
    predicate Normal() {
      first <= second
    }
  }

  function NewLink(a: NodeId, b: NodeId): (l: Link)
    ensures l.Normal()
  {
    if a < b then Link(a, b) else Link(b, a)
  }

  function LinkEntry(l: Link): (bytes: seq<Byte>)
    ensures |bytes| == 32
  {
    IdBytes(l.first) + (IdBytes(l.second) + BigEndian(0, 4))
  }

  function ReadLinkEntry(bytes: seq<Byte>): Result<((Link, nat), nat)> {
    if |bytes| < 32 then Err
    else
      var afterFirst := bytes[14..];
      var afterSecond := afterFirst[14..];
      Ok(((NewLink(IdOf(bytes[..14]), IdOf(afterFirst[..14])), Value(afterSecond[..4])), 32))
  }

  function Aged(l: Link): (Link, nat) {
    (l, 0)
  }

  function NotViaObject(links: seq<Link>): Object {
    Object(TAG_NOT_VIA, |links| * (ID_SIZE * 2 + 4), WriteAll(LinkEntry, links))
  }

  function ParseNotVia(body: seq<Byte>): Result<seq<(Link, nat)>> {
    if |body| % 32 != 0 then Err else ReadAll(ReadLinkEntry, body)
  }

  lemma {:induction false} LinkPartsRead(first: seq<Byte>, second: seq<Byte>, age: seq<Byte>, rest: seq<Byte>)
    requires |first| == 14 && |second| == 14 && |age| == 4
    ensures ReadLinkEntry((first + (second + age)) + rest) == Ok(((NewLink(IdOf(first), IdOf(second)), Value(age)), 32))
  {
    assert (first + (second + age)) + rest == first + (second + (age + rest));
    Cut(first, second + (age + rest));
    Cut(second, age + rest);
    Cut(age, rest);
  }

  lemma LinkEntryReads(l: Link, rest: seq<Byte>)
    requires l.Normal()
    ensures ReadLinkEntry(LinkEntry(l) + rest) == Ok((Aged(l), 32))
  {
    LinkPartsRead(IdBytes(l.first), IdBytes(l.second), BigEndian(0, 4), rest);
    IdRoundTrip(l.first);
    IdRoundTrip(l.second);
    ValueOfBigEndian(0, 4);
  }

  lemma {:induction false} LinksReadBack(links: seq<Link>)
    requires forall l :: l in links ==> l.Normal()
    ensures ReadAll(ReadLinkEntry, WriteAll(LinkEntry, links)) == Ok(Mapped(Aged, links))
  {
    forall l | l in links ensures ReadsBack(ReadLinkEntry, LinkEntry, Aged, l) {
      forall rest ensures ReadLinkEntry(LinkEntry(l) + rest) == Ok((Aged(l), |LinkEntry(l)|)) {
        LinkEntryReads(l, rest);
      }
    }
    ListReadsBack(ReadLinkEntry, LinkEntry, Aged, links);
  }

  lemma NotViaLength(links: seq<Link>)
    ensures Honest(NotViaObject(links)) && |NotViaObject(links).body| % 32 == 0
  {
    WriteAllLength(LinkEntry, links, 32);
    Divides32(|links|, |NotViaObject(links).body|);
  }

  lemma {:induction false} NotViaRoundTrip(links: seq<Link>)
    requires forall l :: l in links ==> l.Normal()
    ensures Honest(NotViaObject(links)) && ParseNotVia(NotViaObject(links).body) == Ok(Mapped(Aged, links))
  {
    NotViaLength(links);
    LinksReadBack(links);
  }

  // ---------- contacts ----------

  /** A contact as messages carry it; the path ends at its id. */
  datatype Contact = Contact(id: NodeId, path: seq<NodeId>, ssn: nat) {
    predicate Canonical() {
      path != [] && path[|path| - 1] == id && SafeSsn(ssn)
    }
  }

  /** State sequence numbers that name a state: neither the invalid nor the reset value. */
  predicate SafeSsn(ssn: nat) {
    0 < ssn < MAX_U32
  }

  function ContactEntry(c: Contact): (bytes: seq<Byte>)
    ensures |bytes| == 24
  {
    IdBytes(c.id) + (BigEndian(c.ssn, 4) + (BigEndian(MAX_U32, 4) + BigEndian(MAX_U16, 2)))
  }

  function ReadContactEntry(bytes: seq<Byte>): Result<(Contact, nat)> {
    if |bytes| < 24 then Err
    else
      var id, ssn := IdOf(bytes[..14]), Value(bytes[14..][..4]);
      if SafeSsn(ssn) then Ok((Contact(id, [id], ssn), 24)) else Err
  }

  /** A contact list keeps id and sequence number. */
  function Direct(c: Contact): Contact {
    c.(path := [c.id])
  }

  function ContactListObject(contacts: seq<Contact>): Object {
    Object(TAG_CONTACTS, |contacts| * (ID_SIZE + 4 + 4 + 2), WriteAll(ContactEntry, contacts))
  }

  function ParseContactList(body: seq<Byte>): Result<seq<Contact>> {
    if |body| % 24 != 0 then Err else ReadAll(ReadContactEntry, body)
  }

  lemma ContactEntryReads(c: Contact, rest: seq<Byte>)
    requires SafeSsn(c.ssn)
    ensures ReadContactEntry(ContactEntry(c) + rest) == Ok((Direct(c), 24))
  {
    var id, ssn, fill := IdBytes(c.id), BigEndian(c.ssn, 4), BigEndian(MAX_U32, 4) + BigEndian(MAX_U16, 2);
    assert ContactEntry(c) + rest == id + (ssn + (fill + rest));
    Cut(id, ssn + (fill + rest));
    Cut(ssn, fill + rest);
    IdRoundTrip(c.id);
    ValueOfBigEndian(c.ssn, 4);
  }

  lemma {:induction false} ContactsReadBack(contacts: seq<Contact>)
    requires forall c :: c in contacts ==> SafeSsn(c.ssn)
    ensures ReadAll(ReadContactEntry, WriteAll(ContactEntry, contacts)) == Ok(Mapped(Direct, contacts))
  {
    forall c | c in contacts ensures ReadsBack(ReadContactEntry, ContactEntry, Direct, c) {
      forall rest ensures ReadContactEntry(ContactEntry(c) + rest) == Ok((Direct(c), |ContactEntry(c)|)) {
        ContactEntryReads(c, rest);
      }
    }
    ListReadsBack(ReadContactEntry, ContactEntry, Direct, contacts);
  }

  lemma ContactListLength(contacts: seq<Contact>)
    ensures Honest(ContactListObject(contacts)) && |ContactListObject(contacts).body| % 24 == 0
  {
    WriteAllLength(ContactEntry, contacts, 24);
  }

  lemma {:induction false} ContactListRoundTrip(contacts: seq<Contact>)
    requires forall c :: c in contacts ==> SafeSsn(c.ssn)
    ensures Honest(ContactListObject(contacts))
    ensures ParseContactList(ContactListObject(contacts).body) == Ok(Mapped(Direct, contacts))
  {
    ContactListLength(contacts);
    ContactsReadBack(contacts);
  }

  // ---------- routing table entries ----------

  function EntryLength(c: Contact): nat {
    ID_SIZE + |c.path| * ID_SIZE + 2 + 4 + 4 + 2
  }

  function TableEntry(c: Contact): (bytes: seq<Byte>)
    ensures |bytes| == EntryLength(c)
  {
    IdBytes(c.id) + (BigEndian(|c.path|, 2) + (IdsBytes(c.path)
                     + (BigEndian(c.ssn, 4) + (BigEndian(MAX_U32, 4) + BigEndian(MAX_U16, 2)))))
  }

  /** The path must not be empty and must end at the contact. */
  function ReadTableEntry(bytes: seq<Byte>): Result<(Contact, nat)> {
    if |bytes| < 40 then Err
    else
      var id, afterId := IdOf(bytes[..14]), bytes[14..];
      var hops, afterCount := Value(afterId[..2]), afterId[2..];
      if |afterCount| < hops * ID_SIZE + 10 || hops == 0 then Err
      else
        var path, afterPath := IdsOf(afterCount[..hops * ID_SIZE], hops), afterCount[hops * ID_SIZE..];
        var c := Contact(id, path, Value(afterPath[..4]));
        if c.Canonical() then Ok((c, EntryLength(c))) else Err
  }

  lemma TableEntryReads(c: Contact, rest: seq<Byte>)
    requires c.Canonical() && |c.path| <= MAX_U16
    ensures ReadTableEntry(TableEntry(c) + rest) == Ok((c, EntryLength(c)))
  {
    var id, count, path, ssn := IdBytes(c.id), BigEndian(|c.path|, 2), IdsBytes(c.path), BigEndian(c.ssn, 4);
    var fill := BigEndian(MAX_U32, 4) + BigEndian(MAX_U16, 2);
    assert TableEntry(c) + rest == id + (count + (path + (ssn + (fill + rest))));
    Cut(id, count + (path + (ssn + (fill + rest))));
    Cut(count, path + (ssn + (fill + rest)));
    Cut(path, ssn + (fill + rest));
    Cut(ssn, fill + rest);
    IdRoundTrip(c.id);
    ValueOfBigEndian(|c.path|, 2);
    IdsRoundTrip(c.path);
    ValueOfBigEndian(c.ssn, 4);
  }

  function Whole(c: Contact): Contact {
    c
  }

  function EntriesLength(contacts: seq<Contact>): nat {
    if contacts == [] then 0 else EntryLength(contacts[0]) + EntriesLength(contacts[1..])
  }

  function TableObject(contacts: seq<Contact>): Object {
    Object(TAG_TABLE, EntriesLength(contacts), WriteAll(TableEntry, contacts))
  }

  function ParseTable(body: seq<Byte>): Result<seq<Contact>> {
    ReadAll(ReadTableEntry, body)
  }

  lemma {:induction false} EntriesLengthIsWritten(contacts: seq<Contact>)
    ensures |WriteAll(TableEntry, contacts)| == EntriesLength(contacts)
  {
    if contacts != [] { EntriesLengthIsWritten(contacts[1..]); }
  }

  lemma {:induction false} TableReadsBack(contacts: seq<Contact>)
    requires forall c :: c in contacts ==> c.Canonical() && |c.path| <= MAX_U16
    ensures ReadAll(ReadTableEntry, WriteAll(TableEntry, contacts)) == Ok(contacts)
  {
    forall c | c in contacts ensures ReadsBack(ReadTableEntry, TableEntry, Whole, c) {
      forall rest ensures ReadTableEntry(TableEntry(c) + rest) == Ok((Whole(c), |TableEntry(c)|)) {
        TableEntryReads(c, rest);
      }
    }
    ListReadsBack(ReadTableEntry, TableEntry, Whole, contacts);
    assert Mapped(Whole, contacts) == contacts;
  }

  lemma TableRoundTrip(contacts: seq<Contact>)
    requires forall c :: c in contacts ==> c.Canonical() && |c.path| <= MAX_U16
    ensures Honest(TableObject(contacts)) && ParseTable(TableObject(contacts).body) == Ok(contacts)
  {
    EntriesLengthIsWritten(contacts);
    TableReadsBack(contacts);
  }

  // ---------- route updates ----------

  /** A contact and what is to be done about it. */
  datatype Update = Update(contact: Contact, action: Byte)

  function UpdateEntry(u: Update): seq<Byte> {
    TableEntry(u.contact) + [u.action]
  }

  function ReadUpdateEntry(bytes: seq<Byte>): Result<(Update, nat)> {
    match ReadTableEntry(bytes)
    case Err => Err
    case Ok((c, k)) => if |bytes| < k + 1 then Err else Ok((Update(c, bytes[k]), k + 1))
  }

  lemma ActionBehind(entry: seq<Byte>, c: Contact, action: Byte, rest: seq<Byte>)
    requires ReadTableEntry(entry + ([action] + rest)) == Ok((c, |entry|))
    ensures ReadUpdateEntry((entry + [action]) + rest) == Ok((Update(c, action), |entry| + 1))
  {
    assert (entry + [action]) + rest == entry + ([action] + rest);
  }

  lemma UpdateEntryReads(u: Update, rest: seq<Byte>)
    requires u.contact.Canonical() && |u.contact.path| <= MAX_U16
    ensures ReadUpdateEntry(UpdateEntry(u) + rest) == Ok((u, |UpdateEntry(u)|))
  {
    TableEntryReads(u.contact, [u.action] + rest);
    ActionBehind(TableEntry(u.contact), u.contact, u.action, rest);
  }

  function Entire(u: Update): Update {
    u
  }

  function UpdatesLength(updates: seq<Update>): nat {
    if updates == [] then 0 else EntryLength(updates[0].contact) + 1 + UpdatesLength(updates[1..])
  }

  function UpdateObject(updates: seq<Update>): Object {
    Object(TAG_UPDATE, UpdatesLength(updates), WriteAll(UpdateEntry, updates))
  }

  function ParseUpdates(body: seq<Byte>): Result<seq<Update>> {
    ReadAll(ReadUpdateEntry, body)
  }

  lemma {:induction false} UpdatesLengthIsWritten(updates: seq<Update>)
    ensures |WriteAll(UpdateEntry, updates)| == UpdatesLength(updates)
  {
    if updates != [] { UpdatesLengthIsWritten(updates[1..]); }
  }

  lemma {:induction false} UpdatesReadBack(updates: seq<Update>)
    requires forall u :: u in updates ==> u.contact.Canonical() && |u.contact.path| <= MAX_U16
    ensures ReadAll(ReadUpdateEntry, WriteAll(UpdateEntry, updates)) == Ok(updates)
  {
    forall u | u in updates ensures ReadsBack(ReadUpdateEntry, UpdateEntry, Entire, u) {
      forall rest ensures ReadUpdateEntry(UpdateEntry(u) + rest) == Ok((Entire(u), |UpdateEntry(u)|)) {
        UpdateEntryReads(u, rest);
      }
    }
    ListReadsBack(ReadUpdateEntry, UpdateEntry, Entire, updates);
    assert Mapped(Entire, updates) == updates;
  }

  lemma UpdateRoundTrip(updates: seq<Update>)
    requires forall u :: u in updates ==> u.contact.Canonical() && |u.contact.path| <= MAX_U16
    ensures Honest(UpdateObject(updates)) && ParseUpdates(UpdateObject(updates).body) == Ok(updates)
  {
    UpdatesLengthIsWritten(updates);
    UpdatesReadBack(updates);
  }

  // ---------- requests for parts of the routing table ----------

  const REQUEST_OVERLAY: Byte := 0x02
  const REQUEST_VICINITY: Byte := 0x04

  function RequestObject(kind: Byte, radius: Byte): Object {
    Object(TAG_REQUEST, 2, [kind, radius])
  }

  function ParseRequest(body: seq<Byte>): Result<(Byte, Byte)> {
    if |body| != 2 then Err else Ok((body[0], body[1]))
  }

  // ---------- errors ----------

  const ERROR_DEAD_END: Byte := 0x0a
  const ERROR_SEGMENT: Byte := 0x05
  const ERROR_WRONG_HOP: Byte := 0x0b

  datatype ErrorData = DeadEnd | SegmentFailure(link: Link, source: NodeId) | WrongHop(link: Link, source: NodeId)

  function LinkError(kind: Byte, link: Link, source: NodeId): seq<Byte> {
    [kind] + FailedLink(link, source)
  }

  function FailedLink(link: Link, source: NodeId): (bytes: seq<Byte>)
    ensures |bytes| == ID_SIZE * 3
  {
    IdBytes(source) + (IdBytes(link.first) + IdBytes(link.second))
  }

  function ErrorObject(e: ErrorData): Object {
    match e
    case DeadEnd => Object(TAG_ERROR, 1, [ERROR_DEAD_END])
    case SegmentFailure(link, source) => Object(TAG_ERROR, 1 + ID_SIZE * 3, LinkError(ERROR_SEGMENT, link, source))
    case WrongHop(link, source) => Object(TAG_ERROR, 1 + ID_SIZE * 3, LinkError(ERROR_WRONG_HOP, link, source))
  }

  function ParseLinkError(rest: seq<Byte>): (Link, NodeId)
    requires |rest| == ID_SIZE * 3
  {
    var afterSource := rest[14..];
    (NewLink(IdOf(afterSource[..14]), IdOf(afterSource[14..])), IdOf(rest[..14]))
  }

  function ParseError(body: seq<Byte>): Result<ErrorData> {
    if body == [] then Err
    else if body[0] == ERROR_DEAD_END then (if |body| == 1 then Ok(DeadEnd) else Err)
    else if |body| != 1 + ID_SIZE * 3 then Err
    else
      var (link, source) := ParseLinkError(body[1..]);
      if body[0] == ERROR_SEGMENT then Ok(SegmentFailure(link, source))
      else if body[0] == ERROR_WRONG_HOP then Ok(WrongHop(link, source))
      else Err
  }

  lemma LinkErrorPartsParse(s: seq<Byte>, a: seq<Byte>, b: seq<Byte>, link: Link, source: NodeId)
    requires |s| == 14 && |a| == 14 && |b| == 14 && link.Normal()
    requires IdOf(s) == source && IdOf(a) == link.first && IdOf(b) == link.second
    ensures ParseLinkError(s + (a + b)) == (link, source)
  {
    Cut(s, a + b);
    Cut(a, b);
  }

  lemma FailedLinkRoundTrip(link: Link, source: NodeId)
    requires link.Normal()
    ensures ParseLinkError(FailedLink(link, source)) == (link, source)
  {
    IdRoundTrip(source);
    IdRoundTrip(link.first);
    IdRoundTrip(link.second);
    LinkErrorPartsParse(IdBytes(source), IdBytes(link.first), IdBytes(link.second), link, source);
  }

  lemma LinkErrorRoundTrip(kind: Byte, link: Link, source: NodeId)
    requires link.Normal()
    ensures var body := LinkError(kind, link, source);
            |body| == 1 + ID_SIZE * 3 && body[0] == kind && ParseLinkError(body[1..]) == (link, source)
  {
    Cut([kind], FailedLink(link, source));
    FailedLinkRoundTrip(link, source);
  }

  lemma ErrorRoundTrip(e: ErrorData)
    requires e.DeadEnd? || e.link.Normal()
    ensures Honest(ErrorObject(e)) && ParseError(ErrorObject(e).body) == Ok(e)
  {
    if !e.DeadEnd? {
      LinkErrorRoundTrip(ErrorObject(e).body[0], e.link, e.source);
    }
  }

  // ---------- distributed hash table ----------

  const MAX_U64: nat := 0xffff_ffff_ffff_ffff

  datatype StoreReq = StoreReq(handle: NodeId, data: seq<Byte>, age: Option<nat>)

  function StoreReqObject(r: StoreReq): Object {
    Object(TAG_STORE_REQ, ID_SIZE + 2 + |r.data| + (if r.age.Some? then 8 else 0),
           IdBytes(r.handle) + (BigEndian(|r.data|, 2)
                                + (r.data + (if r.age.Some? then BigEndian(r.age.value, 8) else []))))
  }

  function ParseStoreReq(body: seq<Byte>): Result<StoreReq> {
    if |body| < ID_SIZE + 2 then Err
    else
      var handle, afterHandle := IdOf(body[..14]), body[14..];
      var size, afterSize := Value(afterHandle[..2]), afterHandle[2..];
      if |afterSize| == size then Ok(StoreReq(handle, afterSize, None))
      else if |afterSize| == size + 8 then Ok(StoreReq(handle, afterSize[..size], Some(Value(afterSize[size..]))))
      else Err
  }

  lemma StoreReqRoundTrip(r: StoreReq)
    requires |r.data| <= MAX_U16 && (r.age.Some? ==> r.age.value <= MAX_U64)
    ensures Honest(StoreReqObject(r)) && ParseStoreReq(StoreReqObject(r).body) == Ok(r)
  {
    var age := if r.age.Some? then BigEndian(r.age.value, 8) else [];
    var handle, size := IdBytes(r.handle), BigEndian(|r.data|, 2);
    Cut(handle, size + (r.data + age));
    Cut(size, r.data + age);
    Cut(r.data, age);
    IdRoundTrip(r.handle);
    ValueOfBigEndian(|r.data|, 2);
    if r.age.Some? {
      ValueOfBigEndian(r.age.value, 8);
    } else {
      assert r.data + [] == r.data;
    }
  }

  datatype StoreStatus = Created | Inserted | Updated | StoreFailed

  function StatusByte(status: StoreStatus): Byte
    requires !status.StoreFailed?
  {
    match status
    case Created => 0x00
    case Inserted => 0x01
    case Updated => 0x02
  }

  function StoreRspObject(status: StoreStatus): Object
    requires !status.StoreFailed?
  {
    Object(TAG_STORE_RSP, 1, [StatusByte(status)])
  }

  function ParseStoreRsp(body: seq<Byte>): Result<StoreStatus> {
    if |body| != 1 then Err
    else if body[0] == 0x00 then Ok(Created)
    else if body[0] == 0x01 then Ok(Inserted)
    else if body[0] == 0x02 then Ok(Updated)
    else Err
  }

  function FetchReqObject(handle: NodeId): Object {
    Object(TAG_FETCH_REQ, ID_SIZE, IdBytes(handle))
  }

  function ParseFetchReq(body: seq<Byte>): Result<NodeId> {
    if |body| != ID_SIZE then Err else Ok(IdOf(body))
  }

  const FETCH_FOUND: Byte := 0x00
  const FETCH_NOT_FOUND: Byte := 0x01

  function ValueEntry(v: seq<Byte>): seq<Byte> {
    BigEndian(|v|, 2) + v
  }

  function ReadValueEntry(bytes: seq<Byte>): Result<(seq<Byte>, nat)> {
    if |bytes| < 2 then Err
    else
      var size := Value(bytes[..2]);
      if 2 + size > |bytes| then Err else Ok((bytes[2..][..size], 2 + size))
  }

  function ValuesLength(values: seq<seq<Byte>>): nat {
    if values == [] then 0 else 2 + |values[0]| + ValuesLength(values[1..])
  }

  function FetchRspObject(values: Option<seq<seq<Byte>>>): Object {
    match values
    case None => Object(TAG_FETCH_RSP, 1, [FETCH_NOT_FOUND])
    case Some(vs) =>
      Object(TAG_FETCH_RSP, 1 + 2 + ValuesLength(vs), [FETCH_FOUND] + (BigEndian(|vs|, 2) + WriteAll(ValueEntry, vs)))
  }

  /** The counted values must use up the object. */
  function ParseFetchRsp(body: seq<Byte>): Result<Option<seq<seq<Byte>>>> {
    if body == [] then Err
    else if body[0] == FETCH_NOT_FOUND then (if |body| == 1 then Ok(None) else Err)
    else if body[0] != FETCH_FOUND || |body| < 3 then Err
    else
      var count := Value(body[1..][..2]);
      match ReadAll(ReadValueEntry, body[1..][2..])
      case Err => Err
      case Ok(values) => if |values| == count then Ok(Some(values)) else Err
  }

  function Kept(v: seq<Byte>): seq<Byte> {
    v
  }

  lemma ValueEntryReads(v: seq<Byte>, rest: seq<Byte>)
    requires |v| <= MAX_U16
    ensures ReadValueEntry(ValueEntry(v) + rest) == Ok((v, |ValueEntry(v)|))
  {
    assert ValueEntry(v) + rest == BigEndian(|v|, 2) + (v + rest);
    Cut(BigEndian(|v|, 2), v + rest);
    Cut(v, rest);
    ValueOfBigEndian(|v|, 2);
  }

  lemma {:induction false} ValuesReadBack(values: seq<seq<Byte>>)
    requires forall v :: v in values ==> |v| <= MAX_U16
    ensures ReadAll(ReadValueEntry, WriteAll(ValueEntry, values)) == Ok(values)
  {
    forall v | v in values ensures ReadsBack(ReadValueEntry, ValueEntry, Kept, v) {
      forall rest ensures ReadValueEntry(ValueEntry(v) + rest) == Ok((Kept(v), |ValueEntry(v)|)) {
        ValueEntryReads(v, rest);
      }
    }
    ListReadsBack(ReadValueEntry, ValueEntry, Kept, values);
    assert Mapped(Kept, values) == values;
  }

  lemma {:induction false} ValuesLengthIsWritten(values: seq<seq<Byte>>)
    ensures |WriteAll(ValueEntry, values)| == ValuesLength(values)
  {
    if values != [] { ValuesLengthIsWritten(values[1..]); }
  }

  lemma FetchRspRoundTrip(values: Option<seq<seq<Byte>>>)
    requires values.Some? ==> |values.value| <= MAX_U16 && forall v :: v in values.value ==> |v| <= MAX_U16
    ensures Honest(FetchRspObject(values)) && ParseFetchRsp(FetchRspObject(values).body) == Ok(values)
  {
    if values.Some? {
      var vs := values.value;
      Cut([FETCH_FOUND], BigEndian(|vs|, 2) + WriteAll(ValueEntry, vs));
      Cut(BigEndian(|vs|, 2), WriteAll(ValueEntry, vs));
      ValueOfBigEndian(|vs|, 2);
      ValuesLengthIsWritten(vs);
      ValuesReadBack(vs);
    }
  }
}
