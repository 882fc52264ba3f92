/**
 * Flexible values: the record of `flexval.h` with its setters, the text it is serialized
 * to, and the scanner and parser that read that text.
 */
module Flexval {
  import opened Seqs
  import opened Decimal

  datatype Tag = UNDEFINED | INTEGER | STRING | FLOAT | ARRAY

  /** The floating-point member is left out; a float is known by its text only. */
  datatype Flex = Flex(tag: Tag, integer: int, text: string, elems: seq<Flex>)

  // -- Setting -----------------------------------------------------------------------

  /** `is_number`: digits, a sign in front, at most one decimal point or comma. */
  predicate IsNumber(s: string) {
    && (forall i :: 0 <= i < |s| ==> IsDigit(s[i]) || (s[i] == '-' && i == 0) || s[i] == '.' || s[i] == ',')
    && (forall i, j :: 0 <= i < j < |s| ==> !((s[i] == '.' || s[i] == ',') && (s[j] == '.' || s[j] == ',')))
  }

  /** `is_truth` of a string that is no number. */
  predicate IsTruth(s: string) {
    Upper(s) == "TRUE" || Upper(s) == "T"
  }

  function Upper(s: string): string {
    if s == "" then ""
    else [if 'a' <= s[0] <= 'z' then (s[0] as int - 'a' as int + 'A' as int) as char else s[0]] + Upper(s[1..])
  }

  predicate IsHex(c: char) { IsDigit(c) || 'a' <= c <= 'f' || 'A' <= c <= 'F' }

  function HexDigit(c: char): nat
    requires IsHex(c)
  {
    if IsDigit(c) then c as int - '0' as int
    else if 'a' <= c <= 'f' then c as int - 'a' as int + 10
    else c as int - 'A' as int + 10
  }

  function HexFrom(s: string, val: nat): nat {
    if s == "" || !IsHex(s[0]) then val else HexFrom(s[1..], val * 16 + HexDigit(s[0]))
  }

  function Magnitude(s: string): nat {
    if |s| >= 2 && s[0] == '0' && (s[1] == 'x' || s[1] == 'X') then HexFrom(s[2..], 0)
    else if s != "" && s[0] == '\'' then (if |s| >= 2 then s[1] as int else 0)
    else Number(Leading(s))
  }

  /** `flexval_atol` */
  function FlexAtol(s: string): int {
    if s != "" && s[0] == '-' then -(Magnitude(s[1..]) as int) else Magnitude(s)
  }

  /** `flexval_create` */
  const FRESH := Flex(UNDEFINED, 0, "", [])

  /** `flexval_set_int` */
  function SetInt(f: Flex, n: int): Flex {
    Flex(INTEGER, n, Dec(n), [])
  }

  /** `flexval_set_string`: a string that is no number leaves the type tag as it was. */
  function SetString(f: Flex, s: string): Flex {
    if IsNumber(s) then Flex(STRING, FlexAtol(s), s, [])
    else Flex(f.tag, if IsTruth(s) then 1 else 0, s, [])
  }

  function IntValue(n: int): Flex { SetInt(FRESH, n) }

  function StrValue(s: string): Flex { SetString(FRESH, s) }

  /** What `flexval_array_append` has made of a fresh value after appending `es`. */
  function ArrValue(es: seq<Flex>): Flex { Flex(ARRAY, 0, "Array", es) }

  /** `flexval_dup` */
  function Dup(f: Flex): Flex
    decreases f, 1
  {
    Flex(f.tag, f.integer, f.text, if f.tag == ARRAY then DupAll(f.elems) else [])
  }

  function DupAll(es: seq<Flex>): seq<Flex>
    decreases es, 0
  {
    if es == [] then [] else [Dup(es[0])] + DupAll(es[1..])
  }

  /** `flexval_array_append` */
  function Append(f: Flex, e: Flex): Flex {
    Flex(ARRAY, 0, "Array", f.elems + [Dup(e)])
  }

  // -- Serializing -------------------------------------------------------------------

  /** `flexval_serialize_entry` */
  function Serialize(f: Flex): string
    decreases f, 1
  {
    match f.tag
    case UNDEFINED => "\"" + f.text + "\""
    case STRING => "\"" + f.text + "\""
    case INTEGER => Dec(f.integer)
    case FLOAT => f.text
    case ARRAY => "[" + (Join(f.elems) + "]")
  }

  function Join(es: seq<Flex>): string
    decreases es, 0
  {
    if es == [] then ""
    else if |es| == 1 then Serialize(es[0])
    else Serialize(es[0]) + (" " + Join(es[1..]))
  }

  // -- Scanning ----------------------------------------------------------------------

  datatype Token =
    | End
    | Bad
    | Bare(text: string, rest: string)
    | Quoted(text: string, rest: string)
    | Bracketed(text: string, rest: string)

  predicate Skipped(c: char) { c <= ' ' || c as int >= 127 }

  /** Where the bracket is that closes `depth` open ones. */
  function Close(data: string, depth: nat): (k: Option<nat>)
    requires depth > 0
    ensures k.Some? ==> k.value < |data| && data[k.value] == ']'
  {
    if data == "" then None
    else
      var d := if data[0] == '[' then depth + 1 else if data[0] == ']' then depth - 1 else depth;
      if d == 0 then Some(0)
      else
        var k := Close(data[1..], d);
        if k.None? then None else Some(k.value + 1)
  }

  function Escaped(c: char): char {
    if c == 't' then '\t' else if c == 'r' then '\r' else if c == 'n' then '\n' else c
  }

  datatype Quote = Open | Quote(text: string, rest: string)

  /** The text behind an opening quote, with its escapes resolved. */
  function Unquote(data: string, text: string): (q: Quote)
    ensures q.Quote? ==> |q.rest| < |data|
    decreases |data|
  {
    if data == "" || data[0] == '\n' then Open
    else if data[0] == '"' then Quote(text, data[1..])
    else if data[0] == '\\' then
      if |data| < 2 || data[1] == '\n' then Open else Unquote(data[2..], text + [Escaped(data[1])])
    else Unquote(data[1..], text + [data[0]])
  }

  function Word(data: string): (w: string)
    ensures |w| <= |data| && data[..|w|] == w
  {
    if data == "" || Skipped(data[0]) then "" else [data[0]] + Word(data[1..])
  }

  /** `unserialize_iterator` */
  function Next(data: string): (t: Token)
    ensures t.Bare? || t.Quoted? || t.Bracketed? ==> |t.rest| < |data|
    ensures t.Bracketed? ==> |t.text| + |t.rest| + 2 <= |data|
  {
    if data == "" then End
    else if Skipped(data[0]) then Next(data[1..])
    else if data[0] == '[' then
      var k := Close(data[1..], 1);
      if k.None? then Bad else Bracketed(data[1..][..k.value], data[1..][k.value + 1..])
    else if data[0] == '"' then
      var q := Unquote(data[1..], "");
      if q.Open? then Bad else Quoted(q.text, q.rest)
    else Bare(Word(data), data[|Word(data)|..])
  }

  // -- Parsing -----------------------------------------------------------------------

  datatype Parsed = Parsed(value: Option<Flex>, error: bool)

  datatype Elements = Elements(elems: seq<Flex>, error: bool)

  function FromWord(w: string): Flex {
    if IsInteger(w) then IntValue(FlexAtol(w))
    else if IsNumber(w) then Flex(FLOAT, 0, w, [])
    else StrValue(w)
  }

  /** `trim` leaves nothing. */
  predicate Blank(s: string) {
    forall i :: 0 <= i < |s| ==> s[i] <= ' ' || s[i] as int >= 128
  }

  /** `flexval_unserialize_entry` from an index on; `value` is what it has read so far. */
  function ParseFrom(data: string, value: Option<Flex>): Parsed
    decreases |data|, 0
  {
    match Next(data)
    case End => Parsed(value, false)
    case Bad => Parsed(value, true)
    case Bracketed(text, rest) =>
      var r := ParseElements(text, []);
      if r.error then Parsed(Some(ArrValue(r.elems)), true) else ParseFrom(rest, Some(ArrValue(r.elems)))
    case Quoted(text, rest) =>
      if Blank(rest) then ParseFrom(rest, Some(StrValue(text))) else Parsed(value, true)
    case Bare(text, rest) =>
      if Blank(rest) then ParseFrom(rest, Some(FromWord(text))) else Parsed(value, true)
  }

  /** Its inner loop over the text between two brackets. */
  function ParseElements(data: string, elems: seq<Flex>): Elements
    decreases |data|, 1
  {
    match Next(data)
    case End => Elements(elems, false)
    case Bad => Elements(elems, true)
    case Bracketed(text, rest) =>
      var p := ParseFrom("[" + text + "]", None);
      if p.error then Elements(elems, true)
      else ParseElements(rest, if p.value.None? then elems else elems + [Dup(p.value.value)])
    case Quoted(text, rest) => ParseElements(rest, elems + [Dup(StrValue(text))])
    case Bare(text, rest) => ParseElements(rest, elems + [Dup(FromWord(text))])
  }

  /** The text from its beginning, with the error that goes to a caller who asks for it. */
  function Unserialize(data: string): Parsed {
    ParseFrom(data, None)
  }

  /** What `flexval_unserialize` returns: it hands in no place for an error text. */
  function Read(data: string): Option<Flex> {
    Unserialize(data).value
  }

  // -- The round trip ----------------------------------------------------------------

  /** The texts that a quoted string can hold. */
  predicate CleanText(s: string) {
    forall i :: 0 <= i < |s| ==> s[i] != '"' && s[i] != '\\' && s[i] != '\n'
  }

  /** The bracket scan over the text of an array stops at its own bracket. */
  predicate Balanced(es: seq<Flex>) {
    Close(Join(es) + "]", 1) == Some(|Join(es)|)
  }

  /** Built from integers, strings and arrays, to any depth. */
  predicate Built(f: Flex)
    decreases f
  {
    || f == IntValue(f.integer)
    || f == StrValue(f.text)
    || (f == ArrValue(f.elems) && forall i :: 0 <= i < |f.elems| ==> Built(f.elems[i]))
  }

  predicate AllBuilt(es: seq<Flex>) {
    forall i :: 0 <= i < |es| ==> Built(es[i])
  }

  /** Every string in it is clean, and the brackets of every array match as they should. */
  predicate Readable(f: Flex)
    decreases f
  {
    || f == IntValue(f.integer)
    || (f == StrValue(f.text) && CleanText(f.text))
    || (f == ArrValue(f.elems) && Balanced(f.elems) && forall i :: 0 <= i < |f.elems| ==> Readable(f.elems[i]))
  }

  predicate AllReadable(es: seq<Flex>) {
    forall i :: 0 <= i < |es| ==> Readable(es[i])
  }

  lemma BuiltCases(f: Flex)
    requires Built(f)
    ensures f.tag == INTEGER <==> f == IntValue(f.integer)
    ensures f.tag == ARRAY <==> f == ArrValue(f.elems)
    ensures f.tag == ARRAY ==> AllBuilt(f.elems)
    ensures f.tag == UNDEFINED || f.tag == STRING ==> f == StrValue(f.text)
    ensures f.tag != FLOAT
    ensures f.tag == ARRAY || f.elems == []
  {
  }

  lemma {:induction false} ReadableIsBuilt(f: Flex)
    requires Readable(f)
    ensures Built(f)
    decreases f
  {
    if f == ArrValue(f.elems) && !(f == IntValue(f.integer)) && !(f == StrValue(f.text)) {
      forall i | 0 <= i < |f.elems| ensures Built(f.elems[i]) {
        ReadableIsBuilt(f.elems[i]);
      }
    }
  }

  lemma ReadableCases(f: Flex)
    requires Built(f)
    ensures f.tag == INTEGER ==> Readable(f)
    ensures f.tag == ARRAY ==> (Readable(f) <==> Balanced(f.elems) && AllReadable(f.elems))
    ensures f.tag == UNDEFINED || f.tag == STRING ==> (Readable(f) <==> CleanText(f.text))
  {
    BuiltCases(f);
  }

  /** Strings without any bracket never unbalance an array. */
  predicate Plain(f: Flex)
    decreases f
  {
    || f == IntValue(f.integer)
    || (f == StrValue(f.text) && CleanText(f.text) && '[' !in f.text && ']' !in f.text)
    || (f == ArrValue(f.elems) && forall i :: 0 <= i < |f.elems| ==> Plain(f.elems[i]))
  }

  predicate AllPlain(es: seq<Flex>) {
    forall i :: 0 <= i < |es| ==> Plain(es[i])
  }

  lemma PlainCases(f: Flex)
    requires Plain(f)
    ensures f.tag == INTEGER <==> f == IntValue(f.integer)
    ensures f.tag == ARRAY <==> f == ArrValue(f.elems)
    ensures f.tag == ARRAY ==> AllPlain(f.elems)
    ensures f.tag == UNDEFINED || f.tag == STRING ==>
              f == StrValue(f.text) && CleanText(f.text) && '[' !in f.text && ']' !in f.text
    ensures f.tag != FLOAT
  {
  }

  // -- Duplicates --------------------------------------------------------------------

  /** No elements are left over in a value that is no array. */
  predicate Pruned(f: Flex)
    decreases f
  {
    if f.tag == ARRAY then forall i :: 0 <= i < |f.elems| ==> Pruned(f.elems[i]) else f.elems == []
  }

  /** `flexval_dup` gives the value itself exactly if nothing is left over in it. */
  lemma {:induction false} DupExactly(f: Flex)
    ensures Dup(f) == f <==> Pruned(f)
    ensures Dup(Dup(f)) == Dup(f)
    decreases f, 1
  {
    if f.tag == ARRAY {
      DupAllExactly(f.elems);
    }
  }

  lemma {:induction false} DupAllExactly(es: seq<Flex>)
    ensures DupAll(es) == es <==> forall i :: 0 <= i < |es| ==> Pruned(es[i])
    ensures DupAll(DupAll(es)) == DupAll(es)
    decreases es, 0
  {
    if es != [] {
      DupExactly(es[0]);
      DupAllExactly(es[1..]);
      var ds := [Dup(es[0])] + DupAll(es[1..]);
      assert ds[0] == Dup(es[0]) && ds[1..] == DupAll(es[1..]);
      assert es == [es[0]] + es[1..];
      assert forall i :: 0 <= i < |es[1..]| ==> es[1..][i] == es[i + 1];
    }
  }

  lemma {:induction false} BuiltIsPruned(f: Flex)
    requires Built(f)
    ensures Pruned(f)
    decreases f
  {
    BuiltCases(f);
    if f.tag == ARRAY {
      forall i | 0 <= i < |f.elems| ensures Pruned(f.elems[i]) {
        BuiltIsPruned(f.elems[i]);
      }
    }
  }

  lemma DupBuilt(f: Flex)
    requires Built(f)
    ensures Dup(f) == f
  {
    BuiltIsPruned(f);
    DupExactly(f);
  }

  /** An array to which a value is appended holds its old elements and that value. */
  lemma AppendBuilt(f: Flex, e: Flex)
    requires Built(f) && f.tag == ARRAY && Built(e)
    ensures Append(f, e) == ArrValue(f.elems + [e]) && Built(Append(f, e))
  {
    BuiltCases(f);
    DupBuilt(e);
    var es := f.elems + [e];
    forall i | 0 <= i < |es| ensures Built(es[i]) {
      assert i < |f.elems| ==> es[i] == f.elems[i];
    }
  }

  // -- The bracket scan --------------------------------------------------------------

  function Shift(k: Option<nat>, n: nat): Option<nat> {
    if k.None? then None else Some(k.value + n)
  }

  lemma {:induction false} CloseSkipsText(s: string, t: string, depth: nat)
    requires depth > 0 && (forall i :: 0 <= i < |s| ==> s[i] != '[' && s[i] != ']')
    ensures Close(s + t, depth) == Shift(Close(t, depth), |s|)
  {
    if s == "" {
      assert s + t == t;
    } else {
      assert (s + t)[1..] == s[1..] + t;
      CloseSkipsText(s[1..], t, depth);
    }
  }

  lemma DecHasNoBrackets(n: int)
    ensures forall i :: 0 <= i < |Dec(n)| ==> IsDigit(Dec(n)[i]) || (Dec(n)[i] == '-' && i == 0)
    ensures Dec(n) != ""
  {
    if n < 0 {
      forall i | 0 < i < |Dec(n)| ensures IsDigit(Dec(n)[i]) {
        assert Dec(n)[i] == Digits(-n)[i - 1];
      }
    }
  }

  lemma CloseOpens(x: string, depth: nat)
    requires depth > 0
    ensures Close("[" + x, depth) == Shift(Close(x, depth + 1), 1)
    ensures Close("]" + x, depth + 1) == Shift(Close(x, depth), 1)
  {
    assert ("[" + x)[1..] == x && ("]" + x)[1..] == x;
  }

  lemma ShiftTwice(k: Option<nat>, m: nat, n: nat)
    ensures Shift(Shift(k, m), n) == Shift(k, m + n)
  {
  }

  lemma CloseSkipsArray(j: string, t: string, depth: nat)
    requires depth > 0
    requires Close(j + ("]" + t), depth + 1) == Shift(Close("]" + t, depth + 1), |j|)
    ensures Close(("[" + (j + "]")) + t, depth) == Shift(Close(t, depth), |j| + 2)
  {
    Glue("[", j + "]", t);
    Glue(j, "]", t);
    CloseOpens(j + ("]" + t), depth);
    CloseOpens(t, depth);
    ShiftTwice(Close(t, depth), 1, |j|);
    ShiftTwice(Close(t, depth), |j| + 1, 1);
  }

  lemma CloseSkipsBlank(s: string, depth: nat)
    requires depth > 0
    ensures Close(" " + s, depth) == Shift(Close(s, depth), 1)
  {
    assert (" " + s)[1..] == s;
  }

  lemma CloseSkipsQuoted(text: string, t: string, depth: nat)
    requires '[' !in text && ']' !in text && depth > 0
    ensures Close(("\"" + text + "\"") + t, depth) == Shift(Close(t, depth), |"\"" + text + "\""|)
  {
    var s := "\"" + text + "\"";
    forall i | 0 <= i < |s| ensures s[i] != '[' && s[i] != ']' {
      assert 0 < i < |s| - 1 ==> s[i] == text[i - 1];
    }
    CloseSkipsText(s, t, depth);
  }

  /** The bracket scan passes over the text `w` in front of `t`. */
  predicate Skips(w: string, t: string, depth: nat)
    requires depth > 0
  {
    Close(w + t, depth) == Shift(Close(t, depth), |w|)
  }

  lemma CloseSkipsNumeral(f: Flex, t: string, depth: nat)
    requires f.tag == INTEGER && depth > 0
    ensures Skips(Serialize(f), t, depth)
  {
    DecHasNoBrackets(f.integer);
    CloseSkipsText(Dec(f.integer), t, depth);
  }

  lemma CloseSkipsString(f: Flex, t: string, depth: nat)
    requires Plain(f) && f.tag != INTEGER && f.tag != ARRAY && depth > 0
    ensures Skips(Serialize(f), t, depth)
  {
    PlainCases(f);
    CloseSkipsQuoted(f.text, t, depth);
  }

  lemma {:induction false} CloseSkipsElements(f: Flex, t: string, depth: nat)
    requires Plain(f) && f.tag == ARRAY && depth > 0
    ensures Skips(Serialize(f), t, depth)
    decreases f, 1
  {
    PlainCases(f);
    CloseSkipsBrackets(f.elems, Join(f.elems), t, depth);
  }

  lemma {:induction false} CloseSkipsBrackets(es: seq<Flex>, j: string, t: string, depth: nat)
    requires AllPlain(es) && j == Join(es) && depth > 0
    ensures Skips("[" + (j + "]"), t, depth)
    decreases es, 1
  {
    CloseSkipsJoin(es, "]" + t, depth + 1);
    CloseSkipsArray(j, t, depth);
  }

  /** The bracket scan passes over the text of a whole value. */
  lemma {:induction false} CloseSkipsValue(f: Flex, t: string, depth: nat)
    requires Plain(f) && depth > 0
    ensures Skips(Serialize(f), t, depth)
    decreases f, 2
  {
    if f.tag == INTEGER {
      CloseSkipsNumeral(f, t, depth);
    } else if f.tag == ARRAY {
      CloseSkipsElements(f, t, depth);
    } else {
      CloseSkipsString(f, t, depth);
    }
  }

  lemma CloseSkipsCons(head: string, rest: string, t: string, depth: nat)
    requires depth > 0
    requires Close(rest + t, depth) == Shift(Close(t, depth), |rest|)
    requires Close(head + (" " + (rest + t)), depth) == Shift(Close(" " + (rest + t), depth), |head|)
    ensures Close((head + (" " + rest)) + t, depth) == Shift(Close(t, depth), |head + (" " + rest)|)
  {
    CloseSkipsBlank(rest + t, depth);
    Glue(" ", rest, t);
    Glue(head, " " + rest, t);
    ShiftTwice(Close(t, depth), |rest|, 1);
    ShiftTwice(Close(t, depth), |rest| + 1, |head|);
  }

  lemma {:induction false} CloseSkipsJoin(es: seq<Flex>, t: string, depth: nat)
    requires AllPlain(es) && depth > 0
    ensures Close(Join(es) + t, depth) == Shift(Close(t, depth), |Join(es)|)
    decreases es, 0
  {
    if es == [] {
      assert Join(es) + t == t;
    } else if |es| == 1 {
      CloseSkipsValue(es[0], t, depth);
    } else {
      CloseSkipsJoin(es[1..], t, depth);
      CloseSkipsValue(es[0], " " + (Join(es[1..]) + t), depth);
      CloseSkipsCons(Serialize(es[0]), Join(es[1..]), t, depth);
    }
  }

  lemma {:induction false} UnquoteClean(s: string, t: string, text: string)
    requires CleanText(s)
    ensures Unquote(s + ("\"" + t), text) == Quote(text + s, t)
    decreases |s|
  {
    if s == "" {
      assert s + ("\"" + t) == "\"" + t && ("\"" + t)[1..] == t && text + s == text;
    } else {
      assert (s + ("\"" + t))[1..] == s[1..] + ("\"" + t);
      UnquoteClean(s[1..], t, text + [s[0]]);
      assert text + [s[0]] + s[1..] == text + s;
    }
  }

  lemma {:induction false} WordOf(w: string, t: string)
    requires (forall i :: 0 <= i < |w| ==> !Skipped(w[i])) && (t == "" || Skipped(t[0]))
    ensures Word(w + t) == w
  {
    if w == "" {
      assert w + t == t;
    } else {
      assert (w + t)[1..] == w[1..] + t;
      WordOf(w[1..], t);
    }
  }

  lemma NextInteger(n: int, t: string)
    requires t == "" || t[0] == ' '
    ensures Next(Dec(n) + t) == Bare(Dec(n), t)
  {
    DecHasNoBrackets(n);
    WordOf(Dec(n), t);
    assert (Dec(n) + t)[0] == Dec(n)[0];
    assert (Dec(n) + t)[|Dec(n)|..] == t;
  }

  lemma SlicedQuote(s: string, t: string)
    ensures (("\"" + s + "\"") + t)[1..] == s + ("\"" + t)
    ensures "" + s == s
  {
  }

  lemma NextString(s: string, t: string)
    requires CleanText(s)
    ensures Next(("\"" + s + "\"") + t) == Quoted(s, t)
  {
    SlicedQuote(s, t);
    UnquoteClean(s, t, "");
  }

  lemma Sliced(j: string, t: string)
    ensures (("[" + (j + "]")) + t)[1..] == j + ("]" + t)
    ensures (j + ("]" + t))[..|j|] == j
    ensures (j + ("]" + t))[|j| + 1..] == t
  {
  }

  lemma NextBracket(j: string, t: string)
    requires Close(j + ("]" + t), 1) == Some(|j|)
    ensures Next(("[" + (j + "]")) + t) == Bracketed(j, t)
  {
    Sliced(j, t);
  }

  lemma {:induction false} CloseExtends(a: string, b: string, depth: nat)
    requires depth > 0 && Close(a, depth).Some?
    ensures Close(a + b, depth) == Close(a, depth)
  {
    var d := if a[0] == '[' then depth + 1 else if a[0] == ']' then depth - 1 else depth;
    assert (a + b)[1..] == a[1..] + b;
    if d != 0 {
      CloseExtends(a[1..], b, d);
    }
  }

  lemma NextArray(es: seq<Flex>, t: string)
    requires Balanced(es)
    ensures Next(("[" + (Join(es) + "]")) + t) == Bracketed(Join(es), t)
  {
    CloseExtends(Join(es) + "]", t, 1);
    Glue(Join(es), "]", t);
    NextBracket(Join(es), t);
  }

  lemma MagnitudeDigits(n: nat)
    ensures Magnitude(Digits(n)) == n
  {
    var d := Digits(n);
    assert IsDigit(d[0]);
    assert |d| >= 2 ==> IsDigit(d[1]);
    LeadingOf(d, "");
    assert d + "" == d;
    NumberDigits(n);
  }

  lemma FlexAtolDec(n: int)
    ensures FlexAtol(Dec(n)) == n && IsInteger(Dec(n))
  {
    DecHasNoBrackets(n);
    if n < 0 {
      assert Dec(n)[1..] == Digits(-n);
      MagnitudeDigits(-n);
    } else {
      assert IsDigit(Dec(n)[0]);
      MagnitudeDigits(n);
    }
  }

  lemma IntegerElement(n: int, t: string, acc: seq<Flex>)
    requires t == "" || t[0] == ' '
    ensures ParseElements(Dec(n) + t, acc) == ParseElements(t, acc + [IntValue(n)])
  {
    NextInteger(n, t);
    FlexAtolDec(n);
    DupBuilt(IntValue(n));
  }

  lemma StringElement(s: string, t: string, acc: seq<Flex>)
    requires CleanText(s)
    ensures ParseElements(("\"" + s + "\"") + t, acc) == ParseElements(t, acc + [StrValue(s)])
  {
    NextString(s, t);
    DupBuilt(StrValue(s));
  }

  lemma ArrayElement(e: Flex, t: string, acc: seq<Flex>)
    requires Readable(e) && e.tag == ARRAY && ParseFrom(Serialize(e), None) == Parsed(Some(e), false)
    ensures ParseElements(Serialize(e) + t, acc) == ParseElements(t, acc + [e])
  {
    ReadableIsBuilt(e);
    BuiltCases(e);
    ReadableCases(e);
    NextArray(e.elems, t);
    DupBuilt(e);
    Glue("[", Join(e.elems), "]");
  }

  lemma BlankBeforeElement(s: string, acc: seq<Flex>)
    ensures ParseElements(" " + s, acc) == ParseElements(s, acc)
  {
    assert (" " + s)[1..] == s;
    assert Next(" " + s) == Next(s);
  }

  lemma {:induction false} OneElement(e: Flex, t: string, acc: seq<Flex>)
    requires Readable(e) && (t == "" || t[0] == ' ')
    ensures ParseElements(Serialize(e) + t, acc) == ParseElements(t, acc + [e])
    decreases e, 2
  {
    ReadableIsBuilt(e);
    BuiltCases(e);
    ReadableCases(e);
    if e.tag == INTEGER {
      IntegerElement(e.integer, t, acc);
    } else if e.tag == ARRAY {
      ParseArray(e);
      ArrayElement(e, t, acc);
    } else {
      StringElement(e.text, t, acc);
    }
  }

  lemma AppendTwice(acc: seq<Flex>, es: seq<Flex>)
    requires es != []
    ensures acc + [es[0]] + es[1..] == acc + es
    ensures |es| == 1 ==> acc + [es[0]] == acc + es
  {
  }

  lemma ElementsOfCons(e: Flex, rest: string, acc: seq<Flex>)
    requires ParseElements(Serialize(e) + (" " + rest), acc) == ParseElements(" " + rest, acc + [e])
    ensures ParseElements(Serialize(e) + (" " + rest), acc) == ParseElements(rest, acc + [e])
  {
    BlankBeforeElement(rest, acc + [e]);
  }

  lemma {:induction false} ElementsOfJoin(es: seq<Flex>, acc: seq<Flex>)
    requires AllReadable(es)
    ensures ParseElements(Join(es), acc) == Elements(acc + es, false)
    decreases es, 0
  {
    if es == [] {
      assert acc + es == acc;
    } else {
      var e := es[0];
      AppendTwice(acc, es);
      if |es| == 1 {
        OneElement(e, "", acc);
        assert Serialize(e) + "" == Serialize(e);
      } else {
        OneElement(e, " " + Join(es[1..]), acc);
        ElementsOfCons(e, Join(es[1..]), acc);
        ElementsOfJoin(es[1..], acc + [e]);
      }
    }
  }

  lemma {:induction false} ParseArray(f: Flex)
    requires Readable(f) && f.tag == ARRAY
    ensures ParseFrom(Serialize(f), None) == Parsed(Some(f), false)
    decreases f, 1
  {
    ReadableIsBuilt(f);
    BuiltCases(f);
    ReadableCases(f);
    NextArray(f.elems, "");
    assert Serialize(f) + "" == Serialize(f);
    ElementsOfJoin(f.elems, []);
    assert [] + f.elems == f.elems;
    LoneArray(Serialize(f), Join(f.elems), f.elems);
  }

  lemma LoneArray(data: string, text: string, es: seq<Flex>)
    requires Next(data) == Bracketed(text, "") && ParseElements(text, []) == Elements(es, false)
    ensures ParseFrom(data, None) == Parsed(Some(ArrValue(es)), false)
  {
    assert ParseFrom("", Some(ArrValue(es))) == Parsed(Some(ArrValue(es)), false);
  }

  /** Every readable value is read back as it was: type tag, number, text and elements. */
  lemma ReadableIsRead(f: Flex)
    requires Readable(f)
    ensures Unserialize(Serialize(f)) == Parsed(Some(f), false)
  {
    ReadableIsBuilt(f);
    BuiltCases(f);
    ReadableCases(f);
    assert Serialize(f) + "" == Serialize(f);
    assert ParseFrom("", Some(f)) == Parsed(Some(f), false);
    if f.tag == ARRAY {
      ParseArray(f);
    } else if f.tag == INTEGER {
      NextInteger(f.integer, "");
      FlexAtolDec(f.integer);
    } else {
      NextString(f.text, "");
    }
  }

  lemma ScanOfLoneBracket()
    ensures Next("[\"]\"]") == Bracketed("\"", "\"]")
    ensures Next("\"") == Bad
  {
    var text := "[\"]\"]";
    assert text[1..] == "\"]\"]" && text[1..][1..] == "]\"]";
    assert Close("]\"]", 1) == Some(0);
    assert Close("\"]\"]", 1) == Some(1);
    assert text[1..][..1] == "\"" && text[1..][2..] == "\"]";
    assert "\""[1..] == "";
  }

  /** A bracket inside a string ends the array around it: the array is not read back. */
  lemma BracketInStringBreaksArrays()
    ensures var a := ArrValue([StrValue("]")]); Read(Serialize(a)) != Some(a)
  {
    assert !IsDigit("]"[0]);
    var a := ArrValue([StrValue("]")]);
    assert Join(a.elems) == Serialize(StrValue("]")) == "\"]\"";
    assert Serialize(a) == "[\"]\"]";
    ScanOfLoneBracket();
    assert ParseElements("\"", []) == Elements([], true);
  }
}
