/**
 * The statistics server of `stat.c`: it keeps a cache per client and sends each client
 * only what changed. The client replays the messages into a table of its own.
 */
module Stat {
  import opened Seqs
  import opened Decimal
  import opened Packing
  import opened Flexval
  import opened FlexTrip
  import Assarr

  // -- Differences -------------------------------------------------------------------

  /** `flexval_cmp` is not zero. */
  predicate Differs(a: Flex, b: Flex) {
    || a.tag != b.tag
    || (a.tag != UNDEFINED && if a.tag != ARRAY then a.text != b.text else Serialize(a) != Serialize(b))
  }

  /** `flexval_copy`: nothing is copied from an undefined value or an array. */
  function Copy(src: Flex, dst: Flex): Flex {
    match src.tag
    case UNDEFINED => dst
    case INTEGER => SetInt(dst, src.integer)
    case FLOAT => Flex(FLOAT, src.integer, src.text, [])
    case STRING => SetString(dst, src.text)
    case ARRAY => dst
  }

  predicate Changed(vars: map<string, Flex>, cache: map<string, Flex>, k: string)
    requires k in vars
  {
    k !in cache || Differs(vars[k], cache[k])
  }

  /** `build_stat_changes` */
  function Diff(vars: map<string, Flex>, cache: map<string, Flex>): map<string, Flex> {
    map k | k in vars && Changed(vars, cache, k) :: vars[k]
  }

  /** `update_client_stat_cache` */
  function Cached(cache: map<string, Flex>, diff: map<string, Flex>): map<string, Flex> {
    map k | k in cache.Keys + diff.Keys ::
      if k in diff then Copy(diff[k], if k in cache then cache[k] else FRESH) else cache[k]
  }

  // -- Messages ----------------------------------------------------------------------

  /** `es` is a traversal of the table `m`. */
  predicate Lists<V(==)>(m: map<string, V>, es: seq<Entry<V>>) {
    && DistinctEntries(es)
    && (forall i :: 0 <= i < |es| ==> es[i].key in m && m[es[i].key] == es[i].value)
    && (forall k :: k in m ==> exists i :: 0 <= i < |es| && es[i].key == k)
  }

  function Wire(es: seq<Entry<Flex>>): seq<Entry<string>> {
    seq(|es|, i requires 0 <= i < |es| => Entry(es[i].key, Serialize(es[i].value)))
  }

  function Texts(m: map<string, Flex>): map<string, string> {
    map k | k in m :: Serialize(m[k])
  }

  /** `dump_arr_to_buf` for some order of traversal. */
  ghost predicate IsDump(text: string, m: map<string, Flex>) {
    exists es :: Lists(m, es) && text == PackAll(Wire(es))
  }

  /** The body of the answer: `vars;length;text;`. */
  function Message(text: string): string {
    Packed(Entry("vars", text))
  }

  /** What the client makes of one message (`unpack_stat` of the front end). */
  function Replay(table: map<string, string>, message: string, garbage: string): map<string, string> {
    match Unpack(Start(message, garbage, map[]))
    case Hangs => table
    case Done(m) =>
      if "vars" !in m then table
      else
        match Unpack(Start(m["vars"], garbage, table))
        case Hangs => table
        case Done(t) => t
  }

  function View(sent: seq<string>, garbage: string): map<string, string> {
    if sent == [] then map[] else Replay(View(Init(sent), garbage), Last(sent), garbage)
  }

  predicate GoodKey(k: string) { k != "" && ';' !in k }

  /** An integer, or a string that is a number: the values that are copied faithfully. */
  predicate Numeric(f: Flex) {
    f == IntValue(f.integer) || (f == StrValue(f.text) && IsNumber(f.text))
  }

  /** The values a variable can have: a text that is no number was written over any tag. */
  predicate Stored(f: Flex) {
    && f.elems == []
    && (f.tag == UNDEFINED || f.tag == INTEGER || f.tag == STRING)
    && (IsNumber(f.text) ==> Numeric(f))
    && (f.tag == UNDEFINED ==> f == StrValue(f.text))
  }

  predicate GoodTable(m: map<string, Flex>) {
    forall k :: k in m ==> GoodKey(k) && Stored(m[k])
  }

  predicate NumericTable(m: map<string, Flex>) {
    forall k :: k in m ==> Numeric(m[k])
  }

  lemma DecIsNumber(n: int)
    ensures IsNumber(Dec(n)) && Dec(n) != "" && Dec(n)[0] != ';'
  {
    DecHasNoBrackets(n);
  }

  lemma NumericFacts(f: Flex, g: Flex)
    requires Numeric(f)
    ensures Copy(f, g) == f && Stored(f)
    ensures Numeric(g) && !Differs(f, g) ==> f == g
  {
    if f == IntValue(f.integer) {
      DecIsNumber(f.integer);
      AtolDec(f.integer);
      AtolDec(g.integer);
    }
  }

  lemma StoredFacts(f: Flex)
    requires Stored(f)
    ensures Serialize(f) != "" && Serialize(f)[0] != ';'
    ensures f.tag == INTEGER && IsNumber(f.text) ==> f == IntValue(f.integer)
    ensures f.tag == STRING && IsNumber(f.text) ==> f == StrValue(f.text)
    ensures f.tag != INTEGER ==> Serialize(f) == "\"" + f.text + "\""
    ensures Numeric(f) <==> IsNumber(f.text)
  {
    DecIsNumber(f.integer);
  }

  /** A value is copied as it is, whatever the cache held, exactly when it is numeric. */
  lemma CopyIsFaithful(f: Flex)
    requires f.tag != FLOAT
    ensures (forall g :: Copy(f, g) == f) <==> Numeric(f)
  {
    if Numeric(f) {
      forall g ensures Copy(f, g) == f {
        NumericFacts(f, g);
      }
    } else {
      var other := Flex(if f.tag == INTEGER then STRING else INTEGER, 0, "", []);
      assert Copy(f, other) != f || Copy(f, FRESH) != f;
    }
  }

  lemma NumericIsReadable(f: Flex)
    requires Numeric(f)
    ensures Readable(f)
  {
    if f == StrValue(f.text) && IsNumber(f.text) {
      forall i | 0 <= i < |f.text| ensures f.text[i] != '"' && f.text[i] != '\\' && f.text[i] != '\n' {
        assert IsDigit(f.text[i]) || f.text[i] == '-' || f.text[i] == '.' || f.text[i] == ',';
      }
    }
  }

  lemma EmptyDump(text: string, m: map<string, Flex>)
    requires IsDump(text, m)
    ensures text == "" <==> m == map[]
  {
    var es: seq<Entry<Flex>> :| Lists(m, es) && text == PackAll(Wire(es));
    if es == [] {
      assert forall k :: k !in m;
    } else {
      assert |text| >= |Packed(Wire(es)[0])| > 0;
      assert es[0].key in m;
    }
  }

  /** Reading a dump adds exactly the dumped variables to the client's table. */
  lemma DumpRead(text: string, m: map<string, Flex>, table: map<string, string>, garbage: string)
    requires IsDump(text, m) && GoodTable(m)
    ensures Unpack(Start(text, garbage, table)) == Done(table + Texts(m))
    ensures text == "" || text[0] != ';'
  {
    var es: seq<Entry<Flex>> :| Lists(m, es) && text == PackAll(Wire(es));
    var ws := Wire(es);
    forall i | 0 <= i < |ws| ensures Packable(ws[i]) && ws[i].key != "" {
      StoredFacts(es[i].value);
    }
    AllScanned(Start(text, garbage, table), ws);
    SetAllIsUnion(table, m, es);
    if es != [] {
      assert text[0] == ws[0].key[0];
    }
  }

  lemma SetAllIsUnion(table: map<string, string>, m: map<string, Flex>, es: seq<Entry<Flex>>)
    requires Lists(m, es)
    ensures SetAll(table, Wire(es)) == table + Texts(m)
  {
    var ws := Wire(es);
    var r := SetAll(table, ws);
    var u := table + Texts(m);
    forall k ensures Assarr.Entered(r, k) == Assarr.Entered(u, k) {
      SetAllAt(table, m, es, k);
    }
    SameMap(r, u);
  }

  lemma SetAllAt(table: map<string, string>, m: map<string, Flex>, es: seq<Entry<Flex>>, k: string)
    requires Lists(m, es)
    ensures Assarr.Entered(SetAll(table, Wire(es)), k) == Assarr.Entered(table + Texts(m), k)
  {
    var ws := Wire(es);
    Assarr.SetAllFrom(table, ws, k);
    if k in m {
      WireHolds(m, es, k);
    } else {
      Assarr.LookupFound(ws, k);
      assert forall i :: 0 <= i < |ws| ==> ws[i].key == es[i].key != k;
    }
  }

  lemma WireHolds(m: map<string, Flex>, es: seq<Entry<Flex>>, k: string)
    requires Lists(m, es) && k in m
    ensures Assarr.Lookup(Wire(es), k) == Some(Serialize(m[k]))
  {
    var i :| 0 <= i < |es| && es[i].key == k;
    var ws := Wire(es);
    assert ws[i] == Entry(k, Serialize(m[k]));
    Assarr.LookupOf(ws, ws[i]);
  }

  lemma SameMap(r: map<string, string>, u: map<string, string>)
    requires forall k :: Assarr.Entered(r, k) == Assarr.Entered(u, k)
    ensures r == u
  {
    forall k ensures k in r <==> k in u {
      assert Assarr.Entered(r, k) == Assarr.Entered(u, k);
    }
    forall k | k in r ensures r[k] == u[k] {
      assert Assarr.Entered(r, k) == Assarr.Entered(u, k);
    }
  }

  /** A message is a packed array inside a packed array; both are read back. */
  lemma MessageRead(text: string, m: map<string, Flex>, table: map<string, string>, garbage: string)
    requires IsDump(text, m) && GoodTable(m)
    ensures Replay(table, Message(text), garbage) == table + Texts(m)
  {
    DumpRead(text, m, table, garbage);
    MessageUnpacked(text, garbage);
  }

  lemma MessageUnpacked(text: string, garbage: string)
    requires text == "" || text[0] != ';'
    ensures Unpack(Start(Message(text), garbage, map[])) == Done(map["vars" := text])
  {
    var e := Entry("vars", text);
    assert "vars" == ['v', 'a', 'r', 's'];
    assert [e][1..] == [] && PackAll([e]) == Packed(e) + "" == Packed(e);
    AllScanned(Start(Message(text), garbage, map[]), [e]);
    assert SetAll(map[], [e]) == map["vars" := text];
  }

  // -- Clients -----------------------------------------------------------------------

  /**
   * A slot: the IPC layer's side (`live`, `ipcUid`, `access`), the statistics side (`uid`,
   * `registered`, `cache`), and as history the messages sent on the present connection and
   * whether one was withheld from it.
   */
  datatype Client = Client(
    live: bool, ipcUid: string, access: int,
    uid: string, registered: bool, cache: map<string, Flex>,
    sent: seq<string>, withheld: bool)

  const VACANT := Client(false, "", 0, "", false, map[], [], false)

  /** `review_clients`; the copy goes from the stored id to the IPC layer's. */
  function Review(c: Client): Client {
    if c.ipcUid != c.uid then c.(cache := map[], registered := false, ipcUid := c.uid) else c
  }

  /** What `stat_changed_callback` may make of a client, for some order of traversal. */
  ghost predicate Refreshed(c: Client, vars: map<string, Flex>, c': Client) {
    var r := Review(c);
    if !r.registered then c' == r
    else
      var d := Diff(vars, r.cache);
      && c' == r.(cache := Cached(r.cache, d), sent := c'.sent, withheld := r.withheld || (d != map[] && r.access < 7))
      && if d == map[] || r.access < 7 then c'.sent == r.sent
         else exists text :: IsDump(text, d) && c'.sent == r.sent + [Message(text)]
  }

  datatype State = State(vars: map<string, Flex>, clients: seq<Client>)

  datatype Event =
    | SetVarInt(name: string, number: int)
    | SetVarString(name: string, text: string)
    | Connect(slot: nat, uid: string)
    | Disconnect(slot: nat)
    | Login(slot: nat, access: int)
    | Register(slot: nat)
    | Unregister(slot: nat)

  function GetVar(vars: map<string, Flex>, name: string): Flex {
    if name in vars then vars[name] else FRESH
  }

  function Written(vars: map<string, Flex>, e: Event): map<string, Flex>
    requires e.SetVarInt? || e.SetVarString?
  {
    vars[e.name := if e.SetVarInt? then SetInt(GetVar(vars, e.name), e.number)
                   else SetString(GetVar(vars, e.name), e.text)]
  }

  /** A new connection in the slot. */
  function Connected(c: Client, uid: string): Client {
    c.(live := true, ipcUid := uid, access := 0, sent := [], withheld := false)
  }

  function ReviewAll(cs: seq<Client>): seq<Client> {
    seq(|cs|, i requires 0 <= i < |cs| => Review(cs[i]))
  }

  ghost predicate Step(s: State, e: Event, s': State) {
    && |s'.clients| == |s.clients|
    && match e
       case SetVarInt(_, _) => s'.vars == Written(s.vars, e) && AllRefreshed(s.clients, s'.vars, s'.clients)
       case SetVarString(_, _) => s'.vars == Written(s.vars, e) && AllRefreshed(s.clients, s'.vars, s'.clients)
       case Connect(i, uid) =>
         i < |s.clients| && uid != ""
         && s' == s.(clients := s.clients[i := Connected(s.clients[i], uid)])
       case Disconnect(i) =>
         i < |s.clients|
         && s' == s.(clients := s.clients[i := s.clients[i].(live := false, ipcUid := "", access := 0)])
       case Login(i, access) =>
         i < |s.clients| && s' == s.(clients := s.clients[i := s.clients[i].(access := access)])
       case Register(i) =>
         i < |s.clients|
         && var cs := ReviewAll(s.clients);
            s' == s.(clients := if cs[i].access >= 7 then cs[i := cs[i].(registered := true)] else cs)
       case Unregister(i) =>
         i < |s.clients|
         && var cs := ReviewAll(s.clients);
            s' == s.(clients := if cs[i].access >= 7 then cs[i := cs[i].(registered := false)] else cs)
  }

  ghost predicate AllRefreshed(cs: seq<Client>, vars: map<string, Flex>, cs': seq<Client>) {
    |cs'| == |cs| && forall i :: 0 <= i < |cs| ==> Refreshed(cs[i], vars, cs'[i])
  }

  predicate IsWrite(e: Event) { e.SetVarInt? || e.SetVarString? }

  /** Every variable has a name that is packed and unpacked as it is. */
  predicate GoodName(e: Event) {
    IsWrite(e) ==> GoodKey(e.name)
  }

  /** Variables are written as integers or as numeric strings, under sensible names. */
  predicate Faithful(e: Event) {
    GoodName(e) && (e.SetVarString? ==> IsNumber(e.text))
  }

  /** The slot has been reviewed since its client connected. */
  predicate Settled(c: Client) { c.live && c.ipcUid == c.uid }

  // -- What was sent last ------------------------------------------------------------

  /** The values last sent to a client, after an event that concerns it. */
  function ShownNext(shown: map<string, Flex>, e: Event, c: Client, vars: map<string, Flex>): map<string, Flex> {
    var kept := if c.ipcUid != c.uid then map[] else shown;
    match e
    case SetVarInt(_, _) => if Review(c).registered then kept + Diff(vars, Review(c).cache) else kept
    case SetVarString(_, _) => if Review(c).registered then kept + Diff(vars, Review(c).cache) else kept
    case Register(_) => kept
    case Unregister(_) => kept
    case Connect(_, _) => map[]
    case _ => shown
  }

  /** The event changes the slot. */
  predicate Concerns(e: Event, i: nat) {
    IsWrite(e) || e.Register? || e.Unregister? || e.slot == i
  }

  /** The values last sent to the client of the slot, after the event. */
  function ShownAfter(shown: map<string, Flex>, s: State, e: Event, s': State, i: nat): map<string, Flex>
    requires i < |s.clients|
  {
    if Concerns(e, i) then ShownNext(shown, e, s.clients[i], s'.vars) else shown
  }

  /** Under each name the value that differed from the cache last, and so was sent last. */
  function Shown(events: seq<Event>, states: seq<State>, i: nat, n: nat): map<string, Flex>
    requires n <= |events| < |states| && forall j :: 0 <= j < |states| ==> i < |states[j].clients|
    decreases n
  {
    if n == 0 then map[]
    else
      ShownAfter(Shown(events, states, i, n - 1), states[n - 1], events[n - 1], states[n], i)
  }

  /**
   * How a cached value came about: `shown` was sent last under that name, and the variable
   * is `v` by now.
   */
  predicate Linked(shown: Flex, cached: Flex, v: Flex) {
    && Stored(shown) && Stored(v)
    && (cached.tag == UNDEFINED || cached.tag == INTEGER || cached.tag == STRING)
    && (cached.tag == STRING ==> shown.tag == STRING && shown.text == cached.text)
    && (cached.tag == INTEGER ==>
          if IsNumber(cached.text) then shown.tag == INTEGER && Dec(shown.integer) == cached.text
          else shown.tag == STRING && shown.text == cached.text)
    && (shown.tag == UNDEFINED ==> cached == FRESH)
    && (v.tag == UNDEFINED ==> shown.tag == UNDEFINED)
  }

  /**
   * What the value sent last still says of the variable. Where a text was written over an
   * integer that is the number as long as the copy differs, and the text once it does not.
   */
  predicate Current(shown: Flex, cached: Flex, v: Flex) {
    && Stored(shown) && Stored(v)
    && (v.tag == UNDEFINED ==> shown.tag == UNDEFINED)
    && (v.tag == STRING ==> shown.tag == STRING && shown.text == v.text)
    && (v.tag == INTEGER ==>
          if IsNumber(v.text) || Differs(v, cached) then shown.tag == INTEGER && Dec(shown.integer) == Dec(v.integer)
          else shown.tag == STRING && shown.text == v.text)
  }

  /** The values sent last say so of every variable. */
  predicate AllCurrent(shown: map<string, Flex>, cache: map<string, Flex>, vars: map<string, Flex>) {
    && shown.Keys == cache.Keys == vars.Keys
    && forall k :: k in vars ==> Current(shown[k], cache[k], vars[k])
  }

  predicate CacheOk(cache: map<string, Flex>, vars: map<string, Flex>, shown: map<string, Flex>) {
    && cache.Keys <= vars.Keys && shown.Keys == cache.Keys
    && forall k :: k in cache ==> Linked(shown[k], cache[k], vars[k])
  }

  lemma LinkCopied(v: Flex, dst: Flex)
    requires Stored(v) && (dst.tag == UNDEFINED || dst.tag == INTEGER || dst.tag == STRING)
    requires v.tag == UNDEFINED ==> dst == FRESH
    ensures Linked(v, Copy(v, dst), v) && Current(v, Copy(v, dst), v)
  {
    StoredFacts(v);
    DecIsNumber(v.integer);
  }

  lemma LinkKept(shown: Flex, cached: Flex, v: Flex)
    requires Linked(shown, cached, v) && !Differs(v, cached)
    ensures Current(shown, cached, v)
  {
    StoredFacts(v);
    DecIsNumber(v.integer);
  }

  lemma OneRefreshed(vars: map<string, Flex>, cache: map<string, Flex>, shown: map<string, Flex>, k: string)
    requires GoodTable(vars) && CacheOk(cache, vars, shown) && k in vars
    ensures var d := Diff(vars, cache);
            var r, u := Cached(cache, d), shown + d;
            k in r && k in u && Linked(u[k], r[k], vars[k]) && Current(u[k], r[k], vars[k])
  {
    if k in cache {
      assert Linked(shown[k], cache[k], vars[k]);
      if Differs(vars[k], cache[k]) {
        LinkCopied(vars[k], cache[k]);
      } else {
        LinkKept(shown[k], cache[k], vars[k]);
      }
    } else {
      LinkCopied(vars[k], FRESH);
    }
  }

  lemma CacheRefreshed(vars: map<string, Flex>, cache: map<string, Flex>, shown: map<string, Flex>)
    requires GoodTable(vars) && CacheOk(cache, vars, shown)
    ensures var d := Diff(vars, cache);
            var r, u := Cached(cache, d), shown + d;
            CacheOk(r, vars, u) && AllCurrent(u, r, vars)
  {
    var d := Diff(vars, cache);
    var r, u := Cached(cache, d), shown + d;
    forall k | k in vars ensures k in r && k in u && Linked(u[k], r[k], vars[k]) && Current(u[k], r[k], vars[k]) {
      OneRefreshed(vars, cache, shown, k);
    }
    assert r.Keys == vars.Keys && u.Keys == vars.Keys;
  }

  lemma WrittenOk(vars: map<string, Flex>, e: Event)
    requires GoodTable(vars) && IsWrite(e) && GoodName(e)
    ensures GoodTable(Written(vars, e)) && vars.Keys <= Written(vars, e).Keys
    ensures forall k :: k in vars && Written(vars, e)[k].tag == UNDEFINED ==> vars[k].tag == UNDEFINED
  {
    var w := Written(vars, e);
    if e.SetVarInt? {
      NumericFacts(w[e.name], w[e.name]);
    }
  }

  lemma CacheWritten(cache: map<string, Flex>, vars: map<string, Flex>, shown: map<string, Flex>, e: Event)
    requires GoodTable(vars) && IsWrite(e) && GoodName(e) && CacheOk(cache, vars, shown)
    ensures CacheOk(cache, Written(vars, e), shown)
  {
    WrittenOk(vars, e);
    var w := Written(vars, e);
    forall k | k in cache ensures Linked(shown[k], cache[k], w[k]) {
      assert Linked(shown[k], cache[k], vars[k]);
    }
  }

  /** With faithful values an update makes the cache equal to the server's table. */
  lemma CacheCatchesUp(vars: map<string, Flex>, cache: map<string, Flex>)
    requires NumericTable(vars) && NumericTable(cache) && cache.Keys <= vars.Keys
    ensures Cached(cache, Diff(vars, cache)) == vars
  {
    var r := Cached(cache, Diff(vars, cache));
    forall k | k in vars ensures k in r && r[k] == vars[k] {
      OneCaught(vars, cache, k);
    }
    assert r.Keys == vars.Keys;
  }

  lemma OneCaught(vars: map<string, Flex>, cache: map<string, Flex>, k: string)
    requires k in vars && Numeric(vars[k]) && (k in cache ==> Numeric(cache[k]))
    ensures var r := Cached(cache, Diff(vars, cache)); k in r && r[k] == vars[k]
  {
    NumericFacts(vars[k], GetVar(cache, k));
  }

  // -- What every event keeps --------------------------------------------------------

  predicate ClientOk(c: Client, vars: map<string, Flex>, shown: map<string, Flex>, garbage: string) {
    && c.uid == ""
    && (Settled(c) ==>
          CacheOk(c.cache, vars, shown) && (!c.withheld ==> View(c.sent, garbage) == Texts(shown)))
    && (c.live && !Settled(c) ==> c.sent == [] && !c.withheld)
  }

  lemma TextsUnion(a: map<string, Flex>, b: map<string, Flex>)
    ensures Texts(a) + Texts(b) == Texts(a + b)
  {
    assert (Texts(a) + Texts(b)).Keys == Texts(a + b).Keys;
  }

  lemma ViewOneMore(sent: seq<string>, message: string, garbage: string)
    ensures View(sent + [message], garbage) == Replay(View(sent, garbage), message, garbage)
  {
    assert Init(sent + [message]) == sent;
  }

  lemma DiffGood(vars: map<string, Flex>, cache: map<string, Flex>)
    requires GoodTable(vars)
    ensures GoodTable(Diff(vars, cache))
  {
  }

  /** What the messages of a registered client amount to after a refresh. */
  lemma SentCatchesUp(sent: seq<string>, shown: map<string, Flex>, d: map<string, Flex>, sent': seq<string>,
                      garbage: string)
    requires GoodTable(d) && View(sent, garbage) == Texts(shown)
    requires if d == map[] then sent' == sent
             else exists text :: IsDump(text, d) && sent' == sent + [Message(text)]
    ensures View(sent', garbage) == Texts(shown + d)
  {
    if d == map[] {
      assert shown + d == shown;
    } else {
      var text :| IsDump(text, d) && sent' == sent + [Message(text)];
      ViewOneMore(sent, Message(text), garbage);
      MessageRead(text, d, View(sent, garbage), garbage);
      TextsUnion(shown, d);
    }
  }

  lemma ReviewOk(c: Client, vars: map<string, Flex>, shown: map<string, Flex>, garbage: string)
    requires ClientOk(c, vars, shown, garbage)
    ensures ClientOk(Review(c), vars, if c.ipcUid != c.uid then map[] else shown, garbage)
    ensures c.live ==> Settled(Review(c))
  {
    if c.ipcUid != c.uid {
      assert Texts(map[]) == map[];
    }
  }

  lemma RefreshedOk(c: Client, vars: map<string, Flex>, shown: map<string, Flex>, e: Event, c': Client, garbage: string)
    requires GoodTable(vars) && ClientOk(c, vars, shown, garbage) && IsWrite(e) && Refreshed(c, vars, c')
    ensures ClientOk(c', vars, ShownNext(shown, e, c, vars), garbage)
    ensures c'.live && c'.registered ==>
              Settled(c') && AllCurrent(ShownNext(shown, e, c, vars), c'.cache, vars)
  {
    var kept := if c.ipcUid != c.uid then map[] else shown;
    ReviewOk(c, vars, shown, garbage);
    var r := Review(c);
    if r.live && r.registered {
      ReviewedRefreshed(r, vars, kept, c', garbage);
    }
  }

  lemma ReviewedRefreshed(r: Client, vars: map<string, Flex>, kept: map<string, Flex>, c': Client, garbage: string)
    requires GoodTable(vars) && ClientOk(r, vars, kept, garbage)
    requires Settled(r) && r.registered && Refreshed(r, vars, c')
    ensures var u := kept + Diff(vars, r.cache);
            ClientOk(c', vars, u, garbage) && Settled(c') && AllCurrent(u, c'.cache, vars)
  {
    CacheRefreshed(vars, r.cache, kept);
    if !c'.withheld {
      var d := Diff(vars, r.cache);
      DiffGood(vars, r.cache);
      SentCatchesUp(r.sent, kept, d, c'.sent, garbage);
    }
  }

  /** How a slot moves on; the clients are told apart by slot only. */
  lemma SlotStep(s: State, e: Event, s': State, i: nat)
    requires Step(s, e, s') && i < |s.clients|
    ensures i < |s'.clients|
    ensures IsWrite(e) ==> s'.vars == Written(s.vars, e) && Refreshed(s.clients[i], s'.vars, s'.clients[i])
    ensures !IsWrite(e) ==> s'.vars == s.vars
    ensures e.Register? || e.Unregister? ==>
              s'.clients[i] == Review(s.clients[i]).(registered := s'.clients[i].registered)
    ensures e.Unregister? || (e.Register? && e.slot != i) ==>
              (s'.clients[i].registered ==> Review(s.clients[i]).registered)
    ensures !Concerns(e, i) ==> s'.clients[i] == s.clients[i]
    ensures e.Connect? && e.slot == i ==>
              e.uid != "" && s'.clients[i] == Connected(s.clients[i], e.uid)
    ensures e.Disconnect? && e.slot == i ==> s'.clients[i] == s.clients[i].(live := false, ipcUid := "", access := 0)
    ensures e.Login? && e.slot == i ==> s'.clients[i] == s.clients[i].(access := e.access)
  {
  }

  /** The variables are sound, and so is what the client of the slot was sent. */
  predicate Sound(s: State, i: nat, shown: map<string, Flex>, garbage: string) {
    GoodTable(s.vars) && i < |s.clients| && ClientOk(s.clients[i], s.vars, shown, garbage)
  }

  lemma SlotKeeps(s: State, e: Event, s': State, i: nat, shown: map<string, Flex>, garbage: string)
    requires Sound(s, i, shown, garbage) && GoodName(e) && Step(s, e, s')
    ensures Sound(s', i, ShownAfter(shown, s, e, s', i), garbage)
  {
    SlotStep(s, e, s', i);
    var c := s.clients[i];
    if IsWrite(e) {
      WrittenOk(s.vars, e);
      if Settled(c) {
        CacheWritten(c.cache, s.vars, shown, e);
      }
      RefreshedOk(c, s'.vars, shown, e, s'.clients[i], garbage);
    } else if e.Register? || e.Unregister? {
      ReviewOk(c, s.vars, shown, garbage);
    }
  }

  ghost predicate StepAt(events: seq<Event>, states: seq<State>, j: nat)
    requires j < |events| < |states|
  {
    Step(states[j], events[j], states[j + 1])
  }

  /** A run: the states between the events. */
  ghost predicate Run(slots: nat, events: seq<Event>, states: seq<State>) {
    && |states| == |events| + 1
    && states[0] == State(map[], seq(slots, _ => VACANT))
    && forall j :: 0 <= j < |events| ==> StepAt(events, states, j)
  }

  predicate GoodNames(events: seq<Event>) {
    forall j :: 0 <= j < |events| ==> GoodName(events[j])
  }

  /** Every state has that many slots. */
  predicate HasSlots(states: seq<State>, slots: nat) {
    forall j :: 0 <= j < |states| ==> |states[j].clients| == slots
  }

  lemma {:induction false} RunSlots(slots: nat, events: seq<Event>, states: seq<State>, n: nat)
    requires Run(slots, events, states) && n <= |events|
    ensures |states[n].clients| == slots
    decreases n
  {
    if n > 0 {
      RunSlots(slots, events, states, n - 1);
      assert StepAt(events, states, n - 1);
    }
  }

  lemma AllSlots(slots: nat, events: seq<Event>, states: seq<State>)
    requires Run(slots, events, states)
    ensures HasSlots(states, slots)
  {
    forall j | 0 <= j < |states| ensures |states[j].clients| == slots {
      RunSlots(slots, events, states, j);
    }
  }

  lemma {:induction false} RunKeeps(slots: nat, events: seq<Event>, states: seq<State>, i: nat, n: nat, garbage: string)
    returns (shown: map<string, Flex>)
    requires Run(slots, events, states) && GoodNames(events) && n <= |events| && i < slots
    requires HasSlots(states, slots)
    ensures shown == Shown(events, states, i, n) && Sound(states[n], i, shown, garbage)
    decreases n
  {
    if n == 0 {
      shown := map[];
    } else {
      var before := RunKeeps(slots, events, states, i, n - 1, garbage);
      shown := KeptAt(events, states, i, n - 1, before, garbage);
    }
  }

  lemma KeptAt(events: seq<Event>, states: seq<State>, i: nat, j: nat, before: map<string, Flex>, garbage: string)
    returns (shown: map<string, Flex>)
    requires j < |events| < |states| && StepAt(events, states, j) && GoodName(events[j])
    requires Sound(states[j], i, before, garbage)
    ensures shown == ShownAfter(before, states[j], events[j], states[j + 1], i)
    ensures Sound(states[j + 1], i, shown, garbage)
  {
    shown := ShownAfter(before, states[j], events[j], states[j + 1], i);
    SlotKeeps(states[j], events[j], states[j + 1], i, before, garbage);
  }

  // -- Nothing withheld --------------------------------------------------------------

  /** A registered client may be sent changes. */
  predicate Entitled(c: Client) {
    Settled(c) && c.registered ==> c.access >= 7
  }

  /** The client of the slot connected with event `m`, and since then it has been entitled whenever registered. */
  predicate EntitledSince(events: seq<Event>, states: seq<State>, i: nat, m: nat, n: nat) {
    && m < n <= |events| < |states| && (forall j :: 0 <= j < |states| ==> i < |states[j].clients|)
    && events[m].Connect? && events[m].slot == i
    && forall j :: m < j < n ==> Entitled(states[j].clients[i])
  }

  lemma NotWithheld(s: State, e: Event, s': State, i: nat)
    requires Step(s, e, s') && i < |s.clients| && Entitled(s.clients[i])
    requires s.clients[i].live ==> !s.clients[i].withheld
    ensures i < |s'.clients| && (s'.clients[i].live ==> !s'.clients[i].withheld)
  {
    SlotStep(s, e, s', i);
  }

  /**
   * While a client has access 7 or more whenever it is registered, nothing is withheld from
   * it, in any run.
   */
  lemma {:induction false} NothingWithheld(slots: nat, events: seq<Event>, states: seq<State>, i: nat, m: nat, n: nat)
    requires Run(slots, events, states) && EntitledSince(events, states, i, m, n)
    ensures states[n].clients[i].live ==> !states[n].clients[i].withheld
    decreases n
  {
    assert StepAt(events, states, n - 1);
    if n == m + 1 {
      SlotStep(states[m], events[m], states[n], i);
    } else {
      NothingWithheld(slots, events, states, i, m, n - 1);
      NotWithheld(states[n - 1], events[n - 1], states[n], i);
    }
  }

  // -- What the client sees ----------------------------------------------------------

  /** The client has been reviewed, and the name is in its cache. */
  predicate Knows(s: State, i: nat, k: string) {
    i < |s.clients| && Settled(s.clients[i]) && k in s.clients[i].cache
  }

  predicate Untyped(vars: map<string, Flex>, k: string) {
    k in vars && vars[k].tag == UNDEFINED
  }

  /** The state in which the client of the slot first had the name in its cache. */
  function First(states: seq<State>, i: nat, k: string, n: nat): (f: nat)
    requires n < |states|
    ensures f <= n
    decreases n
  {
    if n > 0 && Knows(states[n - 1], i, k) then First(states, i, k, n - 1) else n
  }

  /** What is shown under the name is what the variable was in that state. */
  predicate ShownSince(shown: map<string, Flex>, s: State, k: string) {
    k in shown && k in s.vars && shown[k] == s.vars[k]
  }

  /** A name that was known is shown as before; one that is new is shown as it is. */
  lemma FirstStep(s: State, e: Event, s': State, i: nat, k: string, before: map<string, Flex>,
                  shown: map<string, Flex>, garbage: string)
    requires Sound(s, i, before, garbage) && GoodName(e) && Step(s, e, s')
    requires shown == ShownAfter(before, s, e, s', i) && Knows(s', i, k) && Untyped(s'.vars, k)
    ensures if Knows(s, i, k) then Untyped(s.vars, k) && k in before && k in shown && shown[k] == before[k]
            else ShownSince(shown, s', k)
  {
    if IsWrite(e) {
      NameWritten(s, e, s', i, k, before, garbage);
    } else {
      SlotStep(s, e, s', i);
    }
  }

  lemma NameWritten(s: State, e: Event, s': State, i: nat, k: string, before: map<string, Flex>, garbage: string)
    requires Sound(s, i, before, garbage) && GoodName(e) && Step(s, e, s') && IsWrite(e)
    requires Knows(s', i, k) && Untyped(s'.vars, k)
    ensures var shown := ShownNext(before, e, s.clients[i], s'.vars);
            if Knows(s, i, k) then Untyped(s.vars, k) && k in before && k in shown && shown[k] == before[k]
            else ShownSince(shown, s', k)
  {
    SlotStep(s, e, s', i);
    WrittenOk(s.vars, e);
    if Knows(s, i, k) {
      assert Linked(before[k], s.clients[i].cache[k], s.vars[k]);
    }
  }

  lemma FirstAt(slots: nat, events: seq<Event>, states: seq<State>, i: nat, k: string, j: nat, garbage: string)
    returns (before: map<string, Flex>, shown: map<string, Flex>)
    requires Run(slots, events, states) && GoodNames(events) && j < |events| && i < slots
    requires HasSlots(states, slots) && Knows(states[j + 1], i, k) && Untyped(states[j + 1].vars, k)
    ensures before == Shown(events, states, i, j) && shown == Shown(events, states, i, j + 1)
    ensures if Knows(states[j], i, k)
            then Untyped(states[j].vars, k) && k in before && k in shown && shown[k] == before[k]
            else ShownSince(shown, states[j + 1], k)
  {
    before := RunKeeps(slots, events, states, i, j, garbage);
    assert StepAt(events, states, j);
    shown := ShownAfter(before, states[j], events[j], states[j + 1], i);
    FirstStep(states[j], events[j], states[j + 1], i, k, before, shown, garbage);
  }

  /**
   * As long as a variable has no type, its client has been shown the text it had when the
   * client first got its name: no later one is sent.
   */
  lemma {:induction false} FirstTextStays(slots: nat, events: seq<Event>, states: seq<State>, i: nat, k: string,
                                          n: nat, garbage: string)
    requires Run(slots, events, states) && GoodNames(events) && n <= |events| && i < slots
    requires HasSlots(states, slots) && Knows(states[n], i, k) && Untyped(states[n].vars, k)
    ensures ShownSince(Shown(events, states, i, n), states[First(states, i, k, n)], k)
    decreases n
  {
    assert n > 0;
    var before, shown := FirstAt(slots, events, states, i, k, n - 1, garbage);
    if Knows(states[n - 1], i, k) {
      FirstTextStays(slots, events, states, i, k, n - 1, garbage);
    }
  }

  /** A text is read as the variable's value if and only if the value is a number, or has no type and is that text. */
  lemma SeenExactly(shown: Flex, cached: Flex, v: Flex)
    requires Current(shown, cached, v)
    ensures Read(Serialize(shown)) == Some(v) <==>
            Numeric(v) || (v.tag == UNDEFINED && Resolved(shown.text) == Some(v.text))
  {
    if shown.tag == INTEGER {
      IntegerSeen(shown, cached, v);
    } else {
      StringSeen(shown, cached, v);
    }
  }

  lemma IntegerSeen(shown: Flex, cached: Flex, v: Flex)
    requires Current(shown, cached, v) && shown.tag == INTEGER
    ensures v.tag == INTEGER && (Read(Serialize(shown)) == Some(v) <==> Numeric(v))
  {
    var n := shown.integer;
    StoredFacts(v);
    DecIsNumber(n);
    ReadableIsRead(IntValue(n));
    assert Serialize(shown) == Serialize(IntValue(n));
    AtolDec(n);
    AtolDec(v.integer);
  }

  lemma StringSeen(shown: Flex, cached: Flex, v: Flex)
    requires Current(shown, cached, v) && shown.tag != INTEGER
    ensures Read(Serialize(shown)) == Some(v) <==>
            Numeric(v) || (v.tag == UNDEFINED && Resolved(shown.text) == Some(v.text))
  {
    StoredFacts(shown);
    StoredFacts(v);
    DecIsNumber(v.integer);
    QuotedTrip(shown.text, v);
    if Numeric(v) {
      NumericIsReadable(v);
      ResolvedExactly(v.text);
    }
  }

  /** What the text of a value says in each case. */
  lemma TextSeen(shown: Flex, cached: Flex, v: Flex)
    requires Current(shown, cached, v)
    ensures v.tag == UNDEFINED ==> Serialize(shown) == "\"" + shown.text + "\""
    ensures Numeric(v) || v.tag == STRING ==> Serialize(shown) == Serialize(v)
    ensures v.tag == INTEGER && !IsNumber(v.text) ==>
              Serialize(shown) == if Differs(v, cached) then Dec(v.integer) else "\"" + v.text + "\""
  {
    StoredFacts(v);
    DecIsNumber(v.integer);
  }

  /**
   * What a client makes of the variable `k` of value `v`, from the text it has; `cached` is
   * the server's copy, and `first` the table when the client got the name.
   */
  predicate SeenAs(v: Flex, cached: Flex, first: map<string, Flex>, k: string, text: string) {
    && (Read(text) == Some(v) <==>
          Numeric(v) || (v.tag == UNDEFINED && k in first && Resolved(first[k].text) == Some(v.text)))
    && (v.tag == UNDEFINED ==> k in first && text == "\"" + first[k].text + "\"")
    && (Numeric(v) || v.tag == STRING ==> text == Serialize(v))
    && (v.tag == INTEGER && !IsNumber(v.text) ==>
          text == if Differs(v, cached) then Dec(v.integer) else "\"" + v.text + "\"")
  }

  /** What was sent to a registered client adds up to a value for every variable. */
  lemma WriteShown(s: State, e: Event, s': State, i: nat, shown: map<string, Flex>, garbage: string)
    requires Sound(s, i, shown, garbage) && GoodName(e) && IsWrite(e) && Step(s, e, s')
    requires i < |s'.clients| && s'.clients[i].live && s'.clients[i].registered && !s'.clients[i].withheld
    ensures var u, c := ShownAfter(shown, s, e, s', i), s'.clients[i];
            Settled(c) && AllCurrent(u, c.cache, s'.vars) && View(c.sent, garbage) == Texts(u)
  {
    SlotStep(s, e, s', i);
    WrittenOk(s.vars, e);
    var c := s.clients[i];
    if Settled(c) {
      CacheWritten(c.cache, s.vars, shown, e);
    }
    RefreshedOk(c, s'.vars, shown, e, s'.clients[i], garbage);
  }

  /** Event `n` is a write, after which the client is connected and registered, and it was entitled throughout. */
  ghost predicate EntitledWrite(slots: nat, events: seq<Event>, states: seq<State>, m: nat, n: nat, i: nat) {
    && Run(slots, events, states) && GoodNames(events) && i < slots
    && n < |events| && IsWrite(events[n]) && EntitledSince(events, states, i, m, n + 1)
    && states[n + 1].clients[i].live && states[n + 1].clients[i].registered
  }

  lemma RunShown(slots: nat, events: seq<Event>, states: seq<State>, m: nat, n: nat, i: nat, garbage: string)
    returns (u: map<string, Flex>)
    requires EntitledWrite(slots, events, states, m, n, i)
    ensures var s := states[n + 1];
            var c := s.clients[i];
            && u == Shown(events, states, i, n + 1)
            && Settled(c) && AllCurrent(u, c.cache, s.vars) && View(c.sent, garbage) == Texts(u)
  {
    AllSlots(slots, events, states);
    var shown := RunKeeps(slots, events, states, i, n, garbage);
    NothingWithheld(slots, events, states, i, m, n + 1);
    assert StepAt(events, states, n) && GoodName(events[n]);
    WriteShown(states[n], events[n], states[n + 1], i, shown, garbage);
    u := Shown(events, states, i, n + 1);
  }

  lemma SeenAt(slots: nat, events: seq<Event>, states: seq<State>, n: nat, i: nat, k: string, shown: Flex,
               garbage: string)
    requires Run(slots, events, states) && GoodNames(events) && n <= |events| && i < slots
    requires HasSlots(states, slots) && Knows(states[n], i, k) && k in states[n].vars
    requires k in Shown(events, states, i, n) && shown == Shown(events, states, i, n)[k]
    requires Current(shown, states[n].clients[i].cache[k], states[n].vars[k])
    ensures SeenAs(states[n].vars[k], states[n].clients[i].cache[k], states[First(states, i, k, n)].vars, k,
                   Serialize(shown))
  {
    var cached, v := states[n].clients[i].cache[k], states[n].vars[k];
    SeenExactly(shown, cached, v);
    TextSeen(shown, cached, v);
    if v.tag == UNDEFINED {
      FirstTextStays(slots, events, states, i, k, n, garbage);
    }
  }

  /**
   * End to end: after any write in any run, a connected client that is registered and was
   * entitled throughout has, by replaying the messages it was sent, all the server's names.
   * Parsing a text it has gives the server's value if and only if that is a number, or a text
   * without a type that is the same as when the client first got the name. A text without a
   * type is seen as it was then; one written over a numeric string is seen as it is; one
   * written over an integer is seen as 0 or 1 as long as the server's copy differs from it.
   */
  lemma ViewExactly(slots: nat, events: seq<Event>, states: seq<State>, m: nat, n: nat, i: nat, garbage: string)
    requires EntitledWrite(slots, events, states, m, n, i)
    ensures var s := states[n + 1];
            var c := s.clients[i];
            var view := View(c.sent, garbage);
            && view.Keys == c.cache.Keys == s.vars.Keys
            && forall k :: k in s.vars ==>
                 SeenAs(s.vars[k], c.cache[k], states[First(states, i, k, n + 1)].vars, k, view[k])
  {
    AllSlots(slots, events, states);
    var u := RunShown(slots, events, states, m, n, i, garbage);
    var s := states[n + 1];
    var c := s.clients[i];
    forall k | k in s.vars
      ensures SeenAs(s.vars[k], c.cache[k], states[First(states, i, k, n + 1)].vars, k, Serialize(u[k]))
    {
      SeenAt(slots, events, states, n + 1, i, k, u[k], garbage);
    }
  }

  lemma FaithfulStep(s: State, e: Event, s': State)
    requires Step(s, e, s') && Faithful(e) && NumericTable(s.vars)
    ensures NumericTable(s'.vars)
  {
    if IsWrite(e) {
      assert s'.vars == Written(s.vars, e);
    } else {
      assert s'.vars == s.vars;
    }
  }

  lemma {:induction false} FaithfulRun(slots: nat, events: seq<Event>, states: seq<State>, n: nat)
    requires Run(slots, events, states) && n <= |events|
    requires forall j :: 0 <= j < |events| ==> Faithful(events[j])
    ensures NumericTable(states[n].vars)
    decreases n
  {
    if n > 0 {
      FaithfulRun(slots, events, states, n - 1);
      assert StepAt(events, states, n - 1);
      FaithfulStep(states[n - 1], events[n - 1], states[n]);
    }
  }

  lemma SameTexts(view: map<string, string>, vars: map<string, Flex>)
    requires view.Keys == vars.Keys && forall k :: k in vars ==> view[k] == Serialize(vars[k])
    ensures view == Texts(vars)
  {
  }

  /** In particular, where only numbers are written, the client has the server's table. */
  lemma ClientSeesServer(slots: nat, events: seq<Event>, states: seq<State>, m: nat, n: nat, i: nat, garbage: string)
    requires EntitledWrite(slots, events, states, m, n, i)
    requires forall j :: 0 <= j < |events| ==> Faithful(events[j])
    ensures var s := states[n + 1];
            var view := View(s.clients[i].sent, garbage);
            view == Texts(s.vars) && forall k :: k in view ==> Read(view[k]) == Some(s.vars[k])
  {
    ViewExactly(slots, events, states, m, n, i, garbage);
    FaithfulRun(slots, events, states, n + 1);
    var s := states[n + 1];
    var c := s.clients[i];
    var view := View(c.sent, garbage);
    forall k | k in s.vars ensures view[k] == Serialize(s.vars[k]) && Read(view[k]) == Some(s.vars[k]) {
      assert SeenAs(s.vars[k], c.cache[k], states[First(states, i, k, n + 1)].vars, k, view[k]);
    }
    SameTexts(view, s.vars);
  }

  // -- Reconnecting ------------------------------------------------------------------

  /** Connected, not yet registered: nothing was sent, and nothing is cached once it is reviewed. */
  predicate Afresh(c: Client) {
    c.live && c.uid == "" && c.sent == [] && (Settled(c) ==> !c.registered && c.cache == map[])
  }

  /** The event makes the server review its clients. */
  predicate Reviews(e: Event) { IsWrite(e) || e.Register? || e.Unregister? }

  lemma AfreshStep(s: State, e: Event, s': State, i: nat)
    requires Step(s, e, s') && i < |s.clients| && Afresh(s.clients[i])
    requires e.Register? || e.Disconnect? ==> e.slot != i
    ensures i < |s'.clients| && Afresh(s'.clients[i])
    ensures Reviews(e) ==> Settled(s'.clients[i])
    ensures Settled(s.clients[i]) && !(e.Connect? && e.slot == i) ==> Settled(s'.clients[i])
  {
    SlotStep(s, e, s', i);
  }

  /** The clients were reviewed after the last connection to the slot in this part of the run. */
  predicate ReviewedSince(events: seq<Event>, i: nat, m: nat, n: nat)
    requires m < n <= |events|
    decreases n
  {
    n > m + 1 && (Reviews(events[n - 1])
                  || (ReviewedSince(events, i, m, n - 1) && !(events[n - 1].Connect? && events[n - 1].slot == i)))
  }

  /**
   * From its connection to its own registration, whatever happens in between, a client in a
   * used slot is sent nothing; and the first review of the clients, by a write or a
   * registration of anyone, leaves it unregistered with an empty cache.
   */
  lemma {:induction false} ReconnectStartsAfresh(slots: nat, events: seq<Event>, states: seq<State>, i: nat, m: nat,
                                                 n: nat)
    requires Run(slots, events, states) && i < slots && m < n <= |events|
    requires HasSlots(states, slots)
    requires events[m].Connect? && events[m].slot == i
    requires forall j :: m < j < n && (events[j].Register? || events[j].Disconnect?) ==> events[j].slot != i
    ensures Afresh(states[n].clients[i])
    ensures ReviewedSince(events, i, m, n) ==> Settled(states[n].clients[i])
    decreases n
  {
    assert StepAt(events, states, n - 1);
    if n == m + 1 {
      UidStays(slots, events, states, i, m);
      SlotStep(states[m], events[m], states[n], i);
    } else {
      ReconnectStartsAfresh(slots, events, states, i, m, n - 1);
      AfreshStep(states[n - 1], events[n - 1], states[n], i);
    }
  }

  lemma {:induction false} UidStays(slots: nat, events: seq<Event>, states: seq<State>, i: nat, n: nat)
    requires Run(slots, events, states) && i < slots && n <= |events|
    requires HasSlots(states, slots)
    ensures states[n].clients[i].uid == ""
    decreases n
  {
    if n > 0 {
      UidStays(slots, events, states, i, n - 1);
      assert StepAt(events, states, n - 1);
      SlotStep(states[n - 1], events[n - 1], states[n], i);
    }
  }

  // -- Where faithfulness ends -------------------------------------------------------

  /** One client, connected, logged in and registered. */
  const REGISTERED := Client(true, "", 7, "", true, map[], [], false)

  lemma RegisteredRun() returns (events: seq<Event>, states: seq<State>)
    ensures Run(1, events, states) && |events| == 3
    ensures events[0] == Connect(0, "u") && !IsWrite(events[1]) && !IsWrite(events[2])
    ensures states[3] == State(map[], [REGISTERED])
    ensures forall j :: 0 < j <= 3 ==> |states[j].clients| == 1 && Entitled(states[j].clients[0])
  {
    var c0 := VACANT;
    var c1 := c0.(live := true, ipcUid := "u");
    var c2 := c1.(access := 7);
    events := [Connect(0, "u"), Login(0, 7), Register(0)];
    states := [State(map[], [c0]), State(map[], [c1]), State(map[], [c2]), State(map[], [REGISTERED])];
    assert [c0] == seq(1, _ => VACANT);
    assert [c0][0 := c1] == [c1] && [c1][0 := c2] == [c2];
    var cs := ReviewAll([c2]);
    assert cs[0 := cs[0].(registered := true)] == [REGISTERED];
    assert StepAt(events, states, 0);
    assert StepAt(events, states, 1);
    assert StepAt(events, states, 2);
  }

  lemma RunExtended(slots: nat, events: seq<Event>, states: seq<State>, e: Event, s': State)
    requires Run(slots, events, states) && Step(Last(states), e, s')
    ensures Run(slots, events + [e], states + [s'])
  {
    var es, ss := events + [e], states + [s'];
    forall j | 0 <= j < |es| ensures StepAt(es, ss, j) {
      if j < |events| {
        assert StepAt(events, states, j);
      }
    }
  }

  /** The message that sends one variable. */
  function OneSent(k: string, v: Flex): string { Message(PackAll(Wire([Entry(k, v)]))) }

  lemma OneDump(k: string, v: Flex)
    ensures IsDump(PackAll(Wire([Entry(k, v)])), map[k := v])
  {
    var es := [Entry(k, v)];
    assert es[0].key == k;
    assert Lists(map[k := v], es);
  }

  /** The client after it was sent one variable. */
  function Sent(c: Client, k: string, v: Flex): Client {
    c.(cache := Cached(c.cache, map[k := v]), sent := c.sent + [OneSent(k, v)])
  }

  lemma OneRefreshment(c: Client, k: string, v: Flex)
    requires Settled(c) && c.registered && c.access >= 7
    requires c.cache.Keys <= {k} && Changed(map[k := v], c.cache, k)
    ensures Refreshed(c, map[k := v], Sent(c, k, v))
  {
    assert Diff(map[k := v], c.cache) == map[k := v];
    OneDump(k, v);
  }

  /** A write of the only variable, to a registered client that has to be sent it. */
  lemma OneWritten(vars: map<string, Flex>, c: Client, e: Event, k: string, v: Flex)
    requires Settled(c) && c.registered && c.access >= 7
    requires IsWrite(e) && e.name == k && Written(vars, e) == map[k := v]
    requires c.cache.Keys <= {k} && Changed(map[k := v], c.cache, k)
    ensures Step(State(vars, [c]), e, State(map[k := v], [Sent(c, k, v)]))
  {
    OneRefreshment(c, k, v);
  }

  lemma OnlyKey(shown: map<string, Flex>, k: string, v: Flex)
    requires shown.Keys <= {k}
    ensures shown + map[k := v] == map[k := v]
  {
  }

  lemma OneSeen(sent: seq<string>, shown: map<string, Flex>, k: string, v: Flex, garbage: string)
    requires GoodKey(k) && Stored(v) && shown.Keys <= {k} && View(sent, garbage) == Texts(shown)
    ensures View(sent + [OneSent(k, v)], garbage) == Texts(map[k := v])
  {
    OneDump(k, v);
    SentCatchesUp(sent, shown, map[k := v], sent + [OneSent(k, v)], garbage);
    OnlyKey(shown, k, v);
  }

  /** The client after the first variable was written. */
  function Served(k: string, v: Flex): Client {
    REGISTERED.(cache := map[k := Copy(v, FRESH)], sent := [OneSent(k, v)])
  }

  lemma FirstSent(k: string, v: Flex)
    ensures Sent(REGISTERED, k, v) == Served(k, v)
  {
    assert Cached(map[], map[k := v]) == map[k := Copy(v, FRESH)];
  }

  lemma FirstSeen(k: string, v: Flex, garbage: string)
    requires GoodKey(k) && Stored(v)
    ensures View([OneSent(k, v)], garbage) == Texts(map[k := v])
  {
    assert Texts(map[]) == map[] && [] + [OneSent(k, v)] == [OneSent(k, v)];
    OneSeen([], map[], k, v, garbage);
  }

  lemma FirstWrite(e: Event, k: string, v: Flex, garbage: string) returns (events: seq<Event>, states: seq<State>)
    requires IsWrite(e) && e.name == k && GoodKey(k) && Stored(v) && Written(map[], e) == map[k := v]
    ensures Run(1, events, states) && |events| == 4 && events[3] == e
    ensures states[4] == State(map[k := v], [Served(k, v)])
    ensures View([OneSent(k, v)], garbage) == Texts(map[k := v])
  {
    events, states := RegisteredRun();
    OneWritten(map[], REGISTERED, e, k, v);
    FirstSent(k, v);
    var s := State(map[k := v], [Served(k, v)]);
    RunExtended(1, events, states, e, s);
    events, states := events + [e], states + [s];
    FirstSeen(k, v, garbage);
  }

  lemma NothingToSend(vars: map<string, Flex>, c: Client, e: Event)
    requires IsWrite(e) && Settled(c) && Diff(Written(vars, e), c.cache) == map[]
    ensures Step(State(vars, [c]), e, State(Written(vars, e), [c]))
  {
    assert Cached(c.cache, map[]) == c.cache;
    assert Refreshed(c, Written(vars, e), c);
  }

  /**
   * A run in which a second text is lost: the client keeps the first, which is right only if
   * it is read as the second.
   */
  lemma SecondTextIsLost(name: string, a: string, b: string, garbage: string)
    returns (events: seq<Event>, states: seq<State>)
    requires GoodKey(name) && !IsNumber(a) && !IsNumber(b)
    ensures Run(1, events, states) && |events| == 5
    ensures events[3] == SetVarString(name, a) && events[4] == SetVarString(name, b)
    ensures states[5] == State(map[name := StrValue(b)], [Served(name, StrValue(a))])
    ensures var view := View(Served(name, StrValue(a)).sent, garbage);
            && view == map[name := "\"" + a + "\""]
            && (Read(view[name]) == Some(StrValue(b)) <==> Resolved(a) == Some(b))
  {
    var e4, e5 := SetVarString(name, a), SetVarString(name, b);
    events, states := FirstWrite(e4, name, StrValue(a), garbage);
    var c := Served(name, StrValue(a));
    assert Written(states[4].vars, e5) == map[name := StrValue(b)];
    NothingToSend(states[4].vars, c, e5);
    var s5 := State(map[name := StrValue(b)], [c]);
    RunExtended(1, events, states, e5, s5);
    events, states := events + [e5], states + [s5];
    FirstTextSeen(name, a, b, garbage);
  }

  lemma FirstTextSeen(name: string, a: string, b: string, garbage: string)
    requires GoodKey(name) && !IsNumber(a)
    ensures var view := View(Served(name, StrValue(a)).sent, garbage);
            view == map[name := "\"" + a + "\""] && (Read(view[name]) == Some(StrValue(b)) <==> Resolved(a) == Some(b))
  {
    FirstSeen(name, StrValue(a), garbage);
    assert Texts(map[name := StrValue(a)]) == map[name := "\"" + a + "\""];
    QuotedTrip(a, StrValue(b));
  }

  lemma TextOverInteger(name: string, x: int, s: string, v: Flex, v': Flex, cache: map<string, Flex>)
    requires v == IntValue(x) && v' == Flex(INTEGER, if IsTruth(s) then 1 else 0, s, []) && !IsNumber(s)
    requires cache == map[name := Copy(v, FRESH)]
    ensures Written(map[name := v], SetVarString(name, s)) == map[name := v']
    ensures Changed(map[name := v'], cache, name) && Stored(v')
    ensures Texts(map[name := v']) == map[name := if IsTruth(s) then "1" else "0"]
  {
    DecIsNumber(x);
    assert Dec(0) == "0" && Dec(1) == "1";
  }

  /**
   * A run in which a text written over an integer is never sent at all: the client is sent 0
   * or 1 instead.
   */
  lemma TextOverIntegerIsLost(name: string, x: int, s: string, garbage: string)
    returns (events: seq<Event>, states: seq<State>)
    requires GoodKey(name) && !IsNumber(s)
    ensures Run(1, events, states) && |events| == 5
    ensures events[3] == SetVarInt(name, x) && events[4] == SetVarString(name, s)
    ensures |states[5].clients| == 1 && states[5].vars.Keys == {name} && states[5].vars[name].text == s
    ensures var c := states[5].clients[0];
            && Settled(c) && c.registered && c.access >= 7 && !c.withheld
            && View(c.sent, garbage) == map[name := if IsTruth(s) then "1" else "0"]
  {
    var e4, e5 := SetVarInt(name, x), SetVarString(name, s);
    var v4, v5 := IntValue(x), Flex(INTEGER, if IsTruth(s) then 1 else 0, s, []);
    NumericFacts(v4, FRESH);
    events, states := FirstWrite(e4, name, v4, garbage);
    var c := Served(name, v4);
    TextOverInteger(name, x, s, v4, v5, c.cache);
    OneWritten(states[4].vars, c, e5, name, v5);
    var s5 := State(map[name := v5], [Sent(c, name, v5)]);
    RunExtended(1, events, states, e5, s5);
    events, states := events + [e5], states + [s5];
    OneSeen(c.sent, map[name := v4], name, v5, garbage);
  }

  /**
   * And it never is, unless the name is written again: until then the server's copy differs
   * from it after every event of any run, whatever the client does.
   */
  lemma {:induction false} TextOverIntegerNeverSettles(slots: nat, events: seq<Event>, states: seq<State>, i: nat,
                                                       k: string, m: nat, n: nat)
    requires Run(slots, events, states) && HasSlots(states, slots) && i < slots && m <= n <= |events|
    requires k in states[m].vars && states[m].vars[k].tag == INTEGER && !IsNumber(states[m].vars[k].text)
    requires Changed(states[m].vars, states[m].clients[i].cache, k)
    requires forall j :: m <= j < n && IsWrite(events[j]) ==> events[j].name != k
    ensures k in states[n].vars && states[n].vars[k] == states[m].vars[k]
    ensures Changed(states[n].vars, states[n].clients[i].cache, k)
    decreases n
  {
    if n > m {
      TextOverIntegerNeverSettles(slots, events, states, i, k, m, n - 1);
      assert StepAt(events, states, n - 1);
      StillDiffers(states[n - 1], events[n - 1], states[n], i, k);
    }
  }

  lemma StillDiffers(s: State, e: Event, s': State, i: nat, k: string)
    requires Step(s, e, s') && i < |s.clients| && (IsWrite(e) ==> e.name != k)
    requires k in s.vars && s.vars[k].tag == INTEGER && !IsNumber(s.vars[k].text)
    requires Changed(s.vars, s.clients[i].cache, k)
    ensures i < |s'.clients| && k in s'.vars && s'.vars[k] == s.vars[k] && Changed(s'.vars, s'.clients[i].cache, k)
  {
    SlotStep(s, e, s', i);
    DecIsNumber(s.vars[k].integer);
  }

  /**
   * The copy equals it only where the same text was copied from a numeric string over an
   * integer's copy before: then the text itself was sent.
   */
  lemma TextOverNumberSettles(s: string, cached: Flex)
    requires !IsNumber(s) && cached.tag == INTEGER
    ensures var v, v' := Flex(STRING, 0, s, []), Flex(INTEGER, if IsTruth(s) then 1 else 0, s, []);
            !Differs(v', Copy(v, cached)) && Serialize(v) == "\"" + s + "\""
  {
  }
}
