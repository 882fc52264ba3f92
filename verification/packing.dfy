/**
 * The text form of an associative array, `key;length;value;` entry by entry: what
 * `assarr_pack` writes and how `assarr_unpack` scans it.
 */
module Packing {
  import opened Decimal

  datatype Entry<+V> = Entry(key: string, value: V)

  function Packed(e: Entry<string>): string {
    e.key + (";" + (Digits(|e.value|) + (";" + (e.value + ";"))))
  }

  function PackAll(es: seq<Entry<string>>): string {
    if es == [] then "" else Packed(es[0]) + PackAll(es[1..])
  }

  /** Setting the entries of a list one after the other. */
  function SetAll<V>(m: map<string, V>, es: seq<Entry<V>>): map<string, V>
    decreases |es|
  {
    if es == [] then m else SetAll(m[es[0].key := es[0].value], es[1..])
  }

  // -- The scanner -------------------------------------------------------------------

  datatype Phase = InKey | InLength | InValue

  /** `rest` is the text from the current index on. */
  datatype Scan = Scan(rest: string, phase: Phase, token: string, key: string, length: int, table: map<string, string>)

  /** The text in front of the first semicolon. */
  function UpTo(s: string): (r: string)
    ensures |r| <= |s| && s[..|r|] == r && ';' !in r
    ensures |r| < |s| ==> s[|r|] == ';'
  {
    if s == "" || s[0] == ';' then "" else [s[0]] + UpTo(s[1..])
  }

  /** How many characters a value of that announced length takes; a negative one takes all. */
  function Span(length: int, available: nat): (n: nat)
    ensures n <= available
  {
    if 0 <= length <= available then length else available
  }

  /** One turn of the loop of `assarr_unpack`. */
  function Step(s: Scan): (r: Scan)
    requires s.rest != ""
    ensures |r.rest| <= |s.rest|
  {
    if s.rest[0] == ';' then
      match s.phase
      case InKey => s.(rest := s.rest[1..], phase := InLength, key := s.token, token := "")
      case InLength => s.(rest := s.rest[1..], phase := InValue, length := Atol(s.token), token := "")
      case InValue => s.(rest := s.rest[1..], phase := InKey, table := s.table[s.key := s.token], token := "")
    else if s.phase != InValue then
      s.(token := UpTo(s.rest), rest := s.rest[|UpTo(s.rest)|..])
    else
      var n := Span(s.length, |s.rest|);
      s.(token := s.rest[..n], rest := s.rest[n..])
  }

  datatype Outcome = Done(table: map<string, string>) | Hangs

  /** The whole loop. A turn that does not advance repeats itself for ever. */
  function Unpack(s: Scan): Outcome
    decreases |s.rest|
  {
    if s.rest == "" then Done(s.table)
    else if |Step(s).rest| == |s.rest| then Hangs
    else Unpack(Step(s))
  }

  function Start(text: string, garbage: string, table: map<string, string>): Scan {
    Scan(text, InKey, garbage, "", 0, table)
  }

  /** The loop stands on a value that was announced as empty and is not. */
  predicate Still(s: Scan) {
    s.rest != "" && s.phase == InValue && s.length == 0 && s.rest[0] != ';'
  }

  /** The scan after `n` turns of the loop. */
  function After(s: Scan, n: nat): Scan
    decreases n
  {
    if n == 0 || s.rest == "" then s else After(Step(s), n - 1)
  }

  /** A turn makes no progress exactly there, and then no later one does. */
  lemma StandsStill(s: Scan)
    requires s.rest != ""
    ensures |Step(s).rest| == |s.rest| <==> Still(s)
    ensures Still(s) ==> Still(Step(s))
  {
    assert s.rest[0] != ';' ==> UpTo(s.rest) != "";
  }

  lemma {:induction false} StillForEver(s: Scan, n: nat)
    requires Still(s)
    ensures Still(After(s, n))
    decreases n
  {
    if n > 0 {
      StandsStill(s);
      StillForEver(Step(s), n - 1);
    }
  }

  /** How many turns there are before the loop ends or stands still. */
  function Turns(s: Scan): (n: nat)
    decreases |s.rest|
  {
    TurnsShorten(s);
    if s.rest == "" || Still(s) then 0 else 1 + Turns(Step(s))
  }

  lemma TurnsShorten(s: Scan)
    ensures s.rest != "" && !Still(s) ==> |Step(s).rest| < |s.rest|
  {
    if s.rest != "" {
      StandsStill(s);
    }
  }

  lemma {:induction false} TurnsDecide(s: Scan)
    ensures Unpack(s) == Hangs <==> Still(After(s, Turns(s)))
    ensures Unpack(s) != Hangs <==> After(s, Turns(s)).rest == ""
    decreases |s.rest|
  {
    if s.rest != "" {
      StandsStill(s);
      if !Still(s) {
        TurnsDecide(Step(s));
      }
    }
  }

  lemma {:induction false} OnlyOneEnd(s: Scan, n: nat)
    requires Still(After(s, n))
    ensures Unpack(s) == Hangs
    decreases n
  {
    if n > 0 {
      if s.rest != "" {
        StandsStill(s);
        OnlyOneEnd(Step(s), n - 1);
      }
    } else {
      StandsStill(s);
    }
  }

  ghost predicate StillFrom(s: Scan, n: nat) {
    forall m: nat :: m >= n ==> Still(After(s, m))
  }

  /**
   * For every text: unpacking it never ends if and only if after some number of turns the
   * loop stands on a value announced as empty that is not, and it stays there.
   */
  lemma HangsExactly(text: string, garbage: string, table: map<string, string>)
    ensures Unpack(Start(text, garbage, table)) == Hangs <==>
            exists n: nat :: Still(After(Start(text, garbage, table), n))
    ensures Unpack(Start(text, garbage, table)) == Hangs ==>
              StillFrom(Start(text, garbage, table), Turns(Start(text, garbage, table)))
  {
    var s := Start(text, garbage, table);
    TurnsDecide(s);
    if n: nat :| Still(After(s, n)) {
      OnlyOneEnd(s, n);
    }
    if Unpack(s) == Hangs {
      forall m: nat | m >= Turns(s) ensures Still(After(s, m)) {
        StillLater(s, Turns(s), m - Turns(s));
      }
    }
  }

  lemma {:induction false} StillLater(s: Scan, n: nat, m: nat)
    requires Still(After(s, n))
    ensures Still(After(s, n + m))
    decreases n
  {
    if n == 0 {
      StillForEver(s, m);
    } else {
      StillLater(Step(s), n - 1, m);
    }
  }

  // -- What packs and unpacks again --------------------------------------------------

  predicate Packable(e: Entry<string>) {
    ';' !in e.key && (e.value == "" || e.value[0] != ';')
  }

  lemma {:induction false} UpToOf(t: string, rest: string)
    requires ';' !in t && (rest == "" || rest[0] == ';')
    ensures UpTo(t + rest) == t
  {
    if t == "" {
      assert t + rest == rest;
    } else {
      assert (t + rest)[1..] == t[1..] + rest;
      UpToOf(t[1..], rest);
    }
  }

  /** A key or length, up to and with its semicolon. */
  lemma TokenScanned(s: Scan, t: string, more: string)
    requires s.phase != InValue && ';' !in t && (t == "" ==> s.token == "")
    requires s.rest == t + (";" + more)
    ensures Unpack(s) == Unpack(Step(s.(rest := ";" + more, token := t)))
  {
    if t == "" {
      assert s.rest == ";" + more;
      assert s == s.(rest := ";" + more, token := t);
    } else {
      UpToOf(t, ";" + more);
      assert s.rest[0] == t[0];
      assert s.rest[|t|..] == ";" + more;
    }
  }

  lemma ValueScanned(s: Scan, v: string, more: string)
    requires s.phase == InValue && s.length == |v| && s.token == ""
    requires v == "" || v[0] != ';'
    requires s.rest == v + (";" + more)
    ensures Unpack(s) == Unpack(s.(rest := more, phase := InKey, table := s.table[s.key := v], token := ""))
  {
    var u := s.(rest := ";" + more, token := v);
    if v == "" {
      assert s.rest == ";" + more;
    } else {
      assert s.rest[0] == v[0];
      assert s.rest[..|v|] == v && s.rest[|v|..] == ";" + more;
      assert Step(s) == u;
    }
    assert u.rest[1..] == more;
  }

  lemma NoSemicolonInDigits(n: nat)
    ensures ';' !in Digits(n) && Atol(Digits(n)) == n
  {
    AtolDec(n);
  }

  lemma EntryScanned(s: Scan, e: Entry<string>, more: string)
    requires Packable(e) && s.phase == InKey && (e.key == "" ==> s.token == "")
    requires s.rest == Packed(e) + more
    ensures Unpack(s) == Unpack(Scan(more, InKey, "", e.key, |e.value|, s.table[e.key := e.value]))
  {
    var r3 := e.value + (";" + more);
    var r2 := Digits(|e.value|) + (";" + r3);
    assert s.rest == e.key + (";" + r2);
    TokenScanned(s, e.key, r2);
    var s1 := Step(s.(rest := ";" + r2, token := e.key));
    assert s1 == s.(rest := r2, phase := InLength, key := e.key, token := "") by {
      assert (";" + r2)[1..] == r2;
    }
    NoSemicolonInDigits(|e.value|);
    TokenScanned(s1, Digits(|e.value|), r3);
    var s2 := Step(s1.(rest := ";" + r3, token := Digits(|e.value|)));
    assert s2 == s1.(rest := r3, phase := InValue, length := |e.value|, token := "") by {
      assert (";" + r3)[1..] == r3;
    }
    ValueScanned(s2, e.value, more);
  }

  lemma {:induction false} AllScanned(s: Scan, es: seq<Entry<string>>)
    requires forall i :: 0 <= i < |es| ==> Packable(es[i])
    requires s.phase == InKey && s.rest == PackAll(es)
    requires es != [] && es[0].key == "" ==> s.token == ""
    ensures Unpack(s) == Done(SetAll(s.table, es))
    decreases |es|
  {
    if es != [] {
      EntryScanned(s, es[0], PackAll(es[1..]));
      var e := es[0];
      AllScanned(Scan(PackAll(es[1..]), InKey, "", e.key, |e.value|, s.table[e.key := e.value]), es[1..]);
    }
  }

  /** What the scanner can ever put into a table. */
  predicate CleanTable(m: map<string, string>) {
    forall k :: k in m ==> ';' !in k && (m[k] == "" || m[k][0] != ';')
  }

  predicate Clean(s: Scan) {
    && CleanTable(s.table)
    && (s.phase != InValue ==> ';' !in s.token)
    && (s.phase != InKey ==> ';' !in s.key)
    && (s.phase == InValue ==> s.token == "" || s.token[0] != ';')
  }

  lemma {:induction false} StaysClean(s: Scan)
    requires Clean(s) && Unpack(s).Done?
    ensures CleanTable(Unpack(s).table)
    decreases |s.rest|
  {
    if s.rest != "" {
      assert Clean(Step(s));
      StaysClean(Step(s));
    }
  }

  lemma {:induction false} SetAllHas(m: map<string, string>, es: seq<Entry<string>>, i: nat)
    requires i < |es| && (forall j :: i < j < |es| ==> es[j].key != es[i].key)
    ensures es[i].key in SetAll(m, es) && SetAll(m, es)[es[i].key] == es[i].value
    decreases |es|
  {
    var m' := m[es[0].key := es[0].value];
    if i == 0 {
      SetAllKeeps(m', es[1..], es[0].key);
    } else {
      assert forall j :: 0 <= j < |es[1..]| ==> es[1..][j] == es[j + 1];
      SetAllHas(m', es[1..], i - 1);
    }
  }

  lemma {:induction false} SetAllKeeps(m: map<string, string>, es: seq<Entry<string>>, k: string)
    requires k in m && (forall j :: 0 <= j < |es| ==> es[j].key != k)
    ensures k in SetAll(m, es) && SetAll(m, es)[k] == m[k]
    decreases |es|
  {
    if es != [] {
      SetAllKeeps(m[es[0].key := es[0].value], es[1..], k);
    }
  }

  /** Whatever text is unpacked into an empty table, no key in it has a semicolon and no value begins with one. */
  lemma UnpackedIsClean(text: string, garbage: string)
    requires text != "" && text[0] != ';' && Unpack(Start(text, garbage, map[])).Done?
    ensures CleanTable(Unpack(Start(text, garbage, map[])).table)
  {
    var s := Start(text, garbage, map[]);
    StandsStill(s);
    assert Clean(Step(s));
    StaysClean(Step(s));
  }

  predicate DistinctEntries<V>(es: seq<Entry<V>>) {
    forall i, j :: 0 <= i < j < |es| ==> es[i].key != es[j].key
  }

  lemma OnlyPackable(es: seq<Entry<string>>)
    requires DistinctEntries(es) && CleanTable(SetAll(map[], es))
    ensures forall i :: 0 <= i < |es| ==> Packable(es[i])
  {
    forall i | 0 <= i < |es| ensures Packable(es[i]) {
      SetAllHas(map[], es, i);
    }
  }

  /**
   * The round trip, for every array whose packed text does not begin with a semicolon (with
   * one the scanner would use its token before it ever filled it): unpacking what was packed
   * into an empty table gives the same map if and only if no key holds a semicolon and no
   * value begins with one. Semicolons inside values do no harm.
   */
  lemma RoundTrip(es: seq<Entry<string>>, garbage: string)
    requires DistinctEntries(es)
    requires es != [] ==> es[0].key != "" && es[0].key[0] != ';'
    ensures Unpack(Start(PackAll(es), garbage, map[])) == Done(SetAll(map[], es))
            <==> forall i :: 0 <= i < |es| ==> Packable(es[i])
  {
    var s := Start(PackAll(es), garbage, map[]);
    if forall i :: 0 <= i < |es| ==> Packable(es[i]) {
      AllScanned(s, es);
    } else if Unpack(s) == Done(SetAll(map[], es)) {
      assert s.rest[0] == es[0].key[0];
      UnpackedIsClean(PackAll(es), garbage);
      OnlyPackable(es);
    }
  }

  /**
   * What the packer writes of keys without a semicolon, and values that begin with none, never
   * makes the scanner hang, whatever table it fills: where it hangs, some entry is not so.
   */
  lemma OnlySemicolonsHang(es: seq<Entry<string>>, garbage: string, table: map<string, string>)
    requires es != [] ==> es[0].key != ""
    requires Unpack(Start(PackAll(es), garbage, table)) == Hangs
    ensures exists i :: 0 <= i < |es| && !Packable(es[i])
  {
    if forall i :: 0 <= i < |es| ==> Packable(es[i]) {
      AllScanned(Start(PackAll(es), garbage, table), es);
    }
  }

  /** Packed text is itself a value that packs, so arrays can be nested in arrays. */
  lemma PackedTextIsAValue(es: seq<Entry<string>>, key: string)
    requires ';' !in key
    requires es != [] ==> es[0].key != "" && es[0].key[0] != ';'
    ensures Packable(Entry(key, PackAll(es)))
  {
    if es != [] {
      assert PackAll(es)[0] == es[0].key[0];
    }
  }

  /** A concrete value that does not survive: its first character is a semicolon. */
  lemma LeadingSemicolonIsLost(garbage: string)
    ensures Unpack(Start(PackAll([Entry("a", ";")]), garbage, map[])) != Done(map["a" := ";"])
  {
    var es := [Entry("a", ";")];
    RoundTrip(es, garbage);
    assert !Packable(es[0]);
    assert es[1..] == [];
    assert SetAll(map[], es) == map["a" := ";"];
  }

  /** A key followed by a value that is announced as empty and is not. */
  lemma ZeroHangs(s: Scan, k: string, more: string)
    requires s.phase == InKey && ';' !in k && (k == "" ==> s.token == "")
    requires more != "" && more[0] != ';' && s.rest == k + (";" + ("0" + (";" + more)))
    ensures Unpack(s) == Hangs
  {
    var rest := "0" + (";" + more);
    TokenScanned(s, k, rest);
    var s1 := Step(s.(rest := ";" + rest, token := k));
    assert s1.rest == rest && s1.phase == InLength && s1.token == "";
    TokenScanned(s1, "0", more);
    var s2 := Step(s1.(rest := ";" + more, token := "0"));
    AtolDec(0);
    assert Dec(0) == "0";
    assert s2.rest == more && s2.phase == InValue && s2.length == 0;
    StandsStill(s2);
  }

  /** A text on which the loop never ends: a value announced as empty that is not. */
  lemma HangingText(garbage: string)
    ensures Unpack(Start("a;0;x", garbage, map[])) == Hangs
  {
    assert "a;0;x" == "a" + (";" + ("0" + (";" + "x")));
    ZeroHangs(Start("a;0;x", garbage, map[]), "a", "x");
  }

  lemma HeaderScanned(s: Scan, key: string, digits: string, rest: string) returns (u: Scan)
    requires s.phase == InKey && key != "" && ';' !in key && digits != "" && ';' !in digits
    requires s.rest == key + (";" + (digits + (";" + rest)))
    ensures Unpack(s) == Unpack(u) && u.phase == InValue && u.token == "" && u.rest == rest
  {
    var rest1 := digits + (";" + rest);
    TokenScanned(s, key, rest1);
    var s1 := Step(s.(rest := ";" + rest1, token := key));
    assert s1.rest == rest1 && s1.phase == InLength && s1.token == "";
    TokenScanned(s1, digits, rest);
    u := Step(s1.(rest := ";" + rest, token := digits));
    assert u.rest == rest;
  }

  /** Before a value that is not empty but begins with a semicolon: what follows that is read as a key. */
  lemma SemicolonTakenForEnd(s: Scan, rest: string) returns (u: Scan)
    requires s.phase == InValue && s.token == "" && s.rest == ";" + rest
    ensures Unpack(s) == Unpack(u) && u.phase == InKey && u.token == "" && u.rest == rest
  {
    u := Step(s);
    assert u.rest == rest;
  }

  lemma OnePacked(e: Entry<string>)
    ensures PackAll([e]) == Packed(e)
  {
    assert [e][1..] == [];
    assert Packed(e) + "" == Packed(e);
  }

  lemma TailsOfHang(k: string, more: string)
    ensures var w := k + (";" + ("0" + (";" + more)));
            && (";" + w) + ";" == ";" + (w + ";")
            && w + ";" == k + (";" + ("0" + (";" + (more + ";"))))
  {
  }

  /**
   * The packer writes such texts itself: of every value that begins with a semicolon and goes
   * on like an entry whose value is announced as empty.
   */
  lemma PackedTextCanHang(key: string, k: string, more: string, garbage: string)
    requires key != "" && ';' !in key && ';' !in k && more != "" && more[0] != ';'
    ensures var v := ";" + (k + (";" + ("0" + (";" + more))));
            Unpack(Start(PackAll([Entry(key, v)]), garbage, map[])) == Hangs
  {
    var w := k + (";" + ("0" + (";" + more)));
    var v := ";" + w;
    var e: Entry<string> := Entry(key, v);
    var s := Start(PackAll([e]), garbage, map[]);
    OnePacked(e);
    NoSemicolonInDigits(|v|);
    var s1 := HeaderScanned(s, key, Digits(|v|), v + ";");
    TailsOfHang(k, more);
    var u := SemicolonTakenForEnd(s1, w + ";");
    ZeroHangs(u, k, more + ";");
  }

  /** A value that makes the unpacker hang. */
  lemma SemicolonValueHangs(garbage: string)
    ensures Unpack(Start(PackAll([Entry("a", ";k;0;x")]), garbage, map[])) == Hangs
  {
    assert ";k;0;x" == ";" + ("k" + (";" + ("0" + (";" + "x"))));
    PackedTextCanHang("a", "k", "x", garbage);
  }
}
