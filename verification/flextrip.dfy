/**
 * Which values survive being serialized and read back: exactly those whose strings are
 * clean and whose brackets match. Anything else is caught by the parser or read as
 * something else.
 */
module FlexTrip {
  import opened Seqs
  import opened Decimal
  import opened Flexval

  // -- The next token and where it ends ----------------------------------------------

  /** How many characters are skipped in front of a token. */
  function Gap(c: string): (g: nat)
    ensures g <= |c| && (g < |c| ==> !Skipped(c[g]))
    ensures forall i :: 0 <= i < g ==> Skipped(c[i])
  {
    if c == "" || !Skipped(c[0]) then 0 else 1 + Gap(c[1..])
  }

  lemma {:induction false} GapSkipped(c: string)
    ensures Next(c) == Next(c[Gap(c)..])
  {
    if c != "" && Skipped(c[0]) {
      GapSkipped(c[1..]);
      assert c[1..][Gap(c[1..])..] == c[Gap(c)..];
    } else {
      assert c[0..] == c;
    }
  }

  lemma {:induction false} WordStops(c: string)
    ensures |Word(c)| < |c| ==> Skipped(c[|Word(c)|])
    ensures forall i :: 0 <= i < |Word(c)| ==> !Skipped(Word(c)[i])
  {
    if c != "" && !Skipped(c[0]) {
      WordStops(c[1..]);
    }
  }

  /** A quoted text takes its quotes and at least one character for each of its own. */
  lemma {:induction false} UnquoteEnds(d: string, text: string)
    requires Unquote(d, text).Quote?
    ensures var q := Unquote(d, text);
            && text <= q.text
            && |q.text| - |text| + 1 + |q.rest| <= |d|
            && q.rest == d[|d| - |q.rest|..]
            && d[|d| - |q.rest| - 1] == '"'
    decreases |d|
  {
    if d[0] == '"' {
    } else if d[0] == '\\' {
      UnquoteEnds(d[2..], text + [Escaped(d[1])]);
    } else {
      UnquoteEnds(d[1..], text + [d[0]]);
    }
  }

  ghost predicate BareAt(c: string, g: nat, text: string, rest: string) {
    && text != "" && g + |text| + |rest| == |c|
    && c[g..g + |text|] == text && rest == c[g + |text|..]
    && text[0] != '"' && !Skipped(Last(text))
    && (rest != "" ==> Skipped(rest[0]))
  }

  ghost predicate QuotedAt(c: string, g: nat, text: string, rest: string) {
    && g + |text| + 2 + |rest| <= |c|
    && rest == c[|c| - |rest|..] && c[|c| - |rest| - 1] == '"'
  }

  ghost predicate BracketedAt(c: string, g: nat, text: string, rest: string) {
    && g + |text| + 2 + |rest| == |c|
    && c[g + 1..g + 1 + |text|] == text && rest == c[|c| - |rest|..]
    && c[g] == '[' && c[|c| - |rest| - 1] == ']'
    && Close(text + "]", 1) == Some(|text|)
  }

  /** What a token is and where it ends, in terms of positions in the text. */
  ghost predicate Shape(c: string, t: Token) {
    match t
    case End => true
    case Bad => true
    case Bare(text, rest) => BareAt(c, Gap(c), text, rest)
    case Quoted(text, rest) => QuotedAt(c, Gap(c), text, rest)
    case Bracketed(text, rest) => BracketedAt(c, Gap(c), text, rest)
  }

  lemma {:induction false} CloseCut(a: string, depth: nat)
    requires depth > 0 && Close(a, depth).Some?
    ensures var k := Close(a, depth).value; Close(a[..k] + "]", depth) == Some(k)
  {
    var k := Close(a, depth).value;
    var d := if a[0] == '[' then depth + 1 else if a[0] == ']' then depth - 1 else depth;
    if d != 0 {
      CloseCut(a[1..], d);
      assert (a[..k] + "]")[1..] == a[1..][..k - 1] + "]";
    }
  }

  lemma ShapeOfBracketed(x: string)
    requires x != "" && x[0] == '['
    ensures Gap(x) == 0 && Shape(x, Next(x))
  {
    var k := Close(x[1..], 1);
    if k.Some? {
      CloseCut(x[1..], 1);
      assert x[1..][..k.value] == x[1..1 + k.value];
      assert x[1..][k.value + 1..] == x[k.value + 2..];
    }
  }

  lemma ShapeOfQuoted(x: string)
    requires x != "" && x[0] == '"'
    ensures Gap(x) == 0 && Shape(x, Next(x))
  {
    if Unquote(x[1..], "").Quote? {
      UnquoteEnds(x[1..], "");
    }
  }

  lemma ShapeOfBare(x: string)
    requires x != "" && !Skipped(x[0]) && x[0] != '[' && x[0] != '"'
    ensures Gap(x) == 0 && Shape(x, Next(x))
  {
    WordStops(x);
  }

  lemma NextShape(c: string)
    ensures Shape(c, Next(c))
    ensures Next(c) == End <==> Gap(c) == |c|
  {
    var g := Gap(c);
    var x := c[g..];
    GapSkipped(c);
    if x != "" {
      if x[0] == '[' {
        ShapeOfBracketed(x);
      } else if x[0] == '"' {
        ShapeOfQuoted(x);
      } else {
        ShapeOfBare(x);
      }
      ShapeMoved(c, Next(x));
    }
  }

  lemma SliceTwice(c: string, g: nat, i: nat, j: nat)
    requires g + i <= g + j <= |c|
    ensures c[g..][i..j] == c[g + i..g + j] && c[g..][i..] == c[g + i..]
    ensures i < |c| - g ==> c[g..][i] == c[g + i]
  {
  }

  lemma BareMoved(c: string, g: nat, text: string, rest: string)
    requires g <= |c| && BareAt(c[g..], 0, text, rest)
    ensures BareAt(c, g, text, rest)
  {
    SliceTwice(c, g, 0, |text|);
    SliceTwice(c, g, |text|, |text|);
  }

  lemma QuotedMoved(c: string, g: nat, text: string, rest: string)
    requires g <= |c| && QuotedAt(c[g..], 0, text, rest)
    ensures QuotedAt(c, g, text, rest)
  {
    var n := |c| - g - |rest|;
    SliceTwice(c, g, n, n);
    SliceTwice(c, g, n - 1, n);
  }

  lemma BracketedMoved(c: string, g: nat, text: string, rest: string)
    requires g <= |c| && BracketedAt(c[g..], 0, text, rest)
    ensures BracketedAt(c, g, text, rest)
  {
    var n := |c| - g - |rest|;
    SliceTwice(c, g, 1, 1 + |text|);
    SliceTwice(c, g, n, n);
    SliceTwice(c, g, n - 1, n);
  }

  lemma ShapeMoved(c: string, t: Token)
    requires Gap(c[Gap(c)..]) == 0 && Shape(c[Gap(c)..], t)
    ensures Shape(c, t)
  {
    match t
    case End =>
    case Bad =>
    case Bare(text, rest) => BareMoved(c, Gap(c), text, rest);
    case Quoted(text, rest) => QuotedMoved(c, Gap(c), text, rest);
    case Bracketed(text, rest) => BracketedMoved(c, Gap(c), text, rest);
  }

  // -- One element after the other ---------------------------------------------------

  lemma BracketNext(text: string)
    requires Close(text + "]", 1) == Some(|text|)
    ensures Next("[" + text + "]") == Bracketed(text, "")
  {
    GlueNothing("]");
    GlueNothing("[" + (text + "]"));
    Glue("[", text, "]");
    NextBracket(text, "");
  }

  lemma BracketOnly(data: string, text: string)
    requires Next(data) == Bracketed(text, "")
    ensures var r := ParseElements(text, []);
            ParseFrom(data, None) == Parsed(Some(ArrValue(r.elems)), r.error)
  {
  }

  /** A bracketed text is an array of the elements in it. */
  lemma BracketValue(text: string)
    requires Close(text + "]", 1) == Some(|text|)
    ensures var r := ParseElements(text, []);
            ParseFrom("[" + text + "]", None) == Parsed(Some(ArrValue(r.elems)), r.error)
  {
    BracketNext(text);
    BracketOnly("[" + text + "]", text);
  }

  function ValueOf(t: Token): Flex
    requires t.Bare? || t.Quoted? || t.Bracketed?
  {
    match t
    case Bare(text, _) => FromWord(text)
    case Quoted(text, _) => StrValue(text)
    case Bracketed(text, _) => ArrValue(ParseElements(text, []).elems)
  }

  /** The token stands for a value; of a bracketed text the elements are read without an error. */
  predicate Good(t: Token) {
    t.Bare? || t.Quoted? || (t.Bracketed? && !ParseElements(t.text, []).error)
  }

  /** The token is good, and this is the element it becomes. */
  predicate Yields(t: Token, e: Flex) {
    Good(t) && Dup(ValueOf(t)) == e
  }

  /** Reading the text behind the elements `acc` gives the elements `es`, with or without an error. */
  predicate Reads(x: string, acc: seq<Flex>, es: seq<Flex>) {
    ParseElements(x, acc).elems == acc + es
  }

  lemma OneToken(x: string, acc: seq<Flex>, t: Token)
    requires t == Next(x)
    ensures if Good(t) then ParseElements(x, acc) == ParseElements(t.rest, acc + [Dup(ValueOf(t))])
            else ParseElements(x, acc).elems == acc
  {
    NextShape(x);
    if t.Bracketed? {
      BracketValue(t.text);
    }
  }

  lemma {:induction false} OnlyMore(x: string, acc: seq<Flex>)
    ensures acc <= ParseElements(x, acc).elems
    ensures (forall i :: 0 <= i < |acc| ==> Pruned(acc[i])) ==>
              forall i :: 0 <= i < |ParseElements(x, acc).elems| ==> Pruned(ParseElements(x, acc).elems[i])
    decreases |x|
  {
    var t := Next(x);
    OneToken(x, acc, t);
    if Good(t) {
      var v := ValueOf(t);
      DupExactly(v);
      DupExactly(Dup(v));
      OnlyMore(t.rest, acc + [Dup(v)]);
    }
  }

  lemma PrefixElement(acc: seq<Flex>, v: Flex, es: seq<Flex>)
    requires acc + [v] <= acc + es
    ensures es != [] && es[0] == v && (acc + [es[0]]) + es[1..] == acc + es
  {
    assert (acc + [v])[|acc|] == (acc + es)[|acc|];
  }

  /** Reading what should be `es`, the next token is the first of them. */
  lemma FirstRead(x: string, acc: seq<Flex>, es: seq<Flex>) returns (t: Token)
    requires Reads(x, acc, es)
    ensures t == Next(x) && (es == [] <==> !Good(t))
    ensures es != [] ==> Yields(t, es[0]) && Reads(t.rest, acc + [es[0]], es[1..])
  {
    t := Next(x);
    OneToken(x, acc, t);
    if Good(t) {
      OnlyMore(t.rest, acc + [Dup(ValueOf(t))]);
      PrefixElement(acc, Dup(ValueOf(t)), es);
    }
  }

  /** The same, where only the positions of the token matter. */
  lemma FirstShape(x: string, acc: seq<Flex>, es: seq<Flex>) returns (t: Token)
    requires Reads(x, acc, es) && es != []
    ensures Shape(x, t) && Yields(t, es[0]) && Reads(t.rest, acc + [es[0]], es[1..])
  {
    t := FirstRead(x, acc, es);
    NextShape(x);
  }

  /** A string can be read from a quoted text or a bare word, each the string itself. */
  lemma StringRead(f: Flex, t: Token)
    requires Built(f) && f.tag != INTEGER && f.tag != ARRAY && Yields(t, f)
    ensures (t.Bare? || t.Quoted?) && t.text == f.text
  {
    BuiltCases(f);
  }

  lemma IntegerRead(f: Flex, t: Token)
    requires Built(f) && f.tag == INTEGER && Yields(t, f)
    ensures t.Bare? && IsInteger(t.text) && FlexAtol(t.text) == f.integer
  {
    BuiltCases(f);
  }

  lemma ArrayRead(f: Flex, t: Token)
    requires f.tag == ARRAY && Yields(t, f)
    ensures t.Bracketed? && Reads(t.text, [], f.elems)
  {
    if t.Bracketed? {
      DuplicatesRead(t.text);
      assert [] + f.elems == f.elems;
    }
  }

  /** The elements that are read are duplicates already. */
  lemma DuplicatesRead(x: string)
    ensures DupAll(ParseElements(x, []).elems) == ParseElements(x, []).elems
  {
    OnlyMore(x, []);
    DupAllExactly(ParseElements(x, []).elems);
  }

  // -- A quoted text that is read as itself ------------------------------------------

  predicate Backslashes(s: string) {
    forall i :: 0 <= i < |s| ==> s[i] == '\\'
  }

  /** A backslash is only read from two of them. */
  lemma {:induction false} TwiceAsMany(d: string, text: string, u: string, k: nat)
    requires k <= |u| && Backslashes(u[..k])
    requires Unquote(d, text).Quote? && Unquote(d, text).text == text + u
    ensures 2 * k <= |d| && Backslashes(d[..2 * k])
    decreases k
  {
    if k > 0 {
      assert u[..k][0] == '\\';
      FirstEscaped(d, text, u);
      assert u[1..][..k - 1] == u[..k][1..];
      TwiceAsMany(d[2..], text + ['\\'], u[1..], k - 1);
      assert forall i :: 2 <= i < 2 * k ==> d[i] == d[2..][..2 * (k - 1)][i - 2];
    }
  }

  lemma FirstEscaped(d: string, text: string, u: string)
    requires u != "" && u[0] == '\\'
    requires Unquote(d, text).Quote? && Unquote(d, text).text == text + u
    ensures |d| >= 2 && d[0] == '\\' && d[1] == '\\'
    ensures Unquote(d[2..], text + ['\\']).Quote?
    ensures Unquote(d[2..], text + ['\\']).text == (text + ['\\']) + u[1..]
  {
    assert (text + u)[|text|] == u[0];
    UnquoteEnds(d, text);
    if d[0] != '\\' {
      UnquoteEnds(d[1..], text + [d[0]]);
      assert false;
    }
    var e := Escaped(d[1]);
    UnquoteEnds(d[2..], text + [e]);
    assert (text + [e])[|text|] == Unquote(d, text).text[|text|];
    OneShifted(text, u);
  }

  function LeadingBackslashes(u: string): (k: nat)
    ensures k <= |u| && Backslashes(u[..k]) && (k < |u| ==> u[k] != '\\')
  {
    if u == "" || u[0] != '\\' then 0
    else
      var k := LeadingBackslashes(u[1..]);
      assert u[..k + 1] == [u[0]] + u[1..][..k];
      k + 1
  }

  lemma BackslashesEnd(d: string, u: string, y: string)
    requires u != "" && u[0] == '\\' && d <= u + ("\"" + y) && 2 * LeadingBackslashes(u) <= |d|
    ensures !Backslashes(d[..2 * LeadingBackslashes(u)])
  {
    var k := LeadingBackslashes(u);
    assert d[..2 * k][k] == d[k] == (u + ("\"" + y))[k];
  }

  lemma NoEscapes(d: string, text: string, u: string, y: string)
    requires u != "" && u[0] == '\\' && d <= u + ("\"" + y)
    ensures !(Unquote(d, text).Quote? && Unquote(d, text).text == text + u)
  {
    if Unquote(d, text).Quote? && Unquote(d, text).text == text + u {
      TwiceAsMany(d, text, u, LeadingBackslashes(u));
      BackslashesEnd(d, u, y);
    }
  }

  lemma Uncons(d: string, u: string, y: string)
    requires u != "" && d != "" && d <= u + ("\"" + y)
    ensures d[0] == u[0] && d[1..] <= u[1..] + ("\"" + y)
  {
    assert d[0] == (u + ("\"" + y))[0];
  }

  lemma Recons(d: string, u: string, rest: string)
    requires u != "" && d != "" && d[0] == u[0] && d[1..] == u[1..] + ("\"" + rest)
    ensures d == u + ("\"" + rest)
  {
    assert d == [d[0]] + d[1..];
  }

  lemma OneShifted(text: string, u: string)
    requires u != ""
    ensures text + u == (text + [u[0]]) + u[1..]
  {
  }

  /** If the text in front of its closing quote is read as itself, it is clean. */
  lemma {:induction false} ReadAsItself(d: string, text: string, u: string, y: string)
    requires d <= u + ("\"" + y)
    requires Unquote(d, text).Quote? && Unquote(d, text).text == text + u
    ensures CleanText(u) && d == u + ("\"" + Unquote(d, text).rest)
    decreases |u|
  {
    UnquoteEnds(d, text);
    if u == "" {
      assert d[0] == (u + ("\"" + y))[0];
      assert d == "\"" + d[1..];
    } else if u[0] == '\\' {
      NoEscapes(d, text, u, y);
    } else {
      Uncons(d, u, y);
      OneShifted(text, u);
      ReadAsItself(d[1..], text + [u[0]], u[1..], y);
      Recons(d, u, Unquote(d, text).rest);
    }
  }

  // -- A text that begins where a value begins ---------------------------------------

  /** What stands between the first element of an array and its closing bracket. */
  function Tail(es: seq<Flex>): string {
    if |es| <= 1 then "" else " " + Join(es[1..])
  }

  lemma JoinCons(es: seq<Flex>)
    requires es != []
    ensures Join(es) == Serialize(es[0]) + Tail(es)
  {
    assert |es| == 1 ==> Serialize(es[0]) + "" == Serialize(es[0]);
  }

  /** The text of a value. */
  predicate TextOf(w: string, f: Flex) { Built(f) && w == Serialize(f) }

  /** The text between the brackets of an array. */
  predicate TextOfAll(j: string, es: seq<Flex>) { AllBuilt(es) && j == Join(es) }

  lemma JoinParts(es: seq<Flex>, j: string) returns (w: string, j': string, tail: string)
    requires es != [] && TextOfAll(j, es)
    ensures TextOf(w, es[0]) && j == w + tail
    ensures if |es| == 1 then tail == "" else TextOfAll(j', es[1..]) && tail == " " + j'
  {
    w, j', tail := Serialize(es[0]), Join(es[1..]), Tail(es);
    JoinCons(es);
  }

  lemma ReadsBehindBlank(x: string, acc: seq<Flex>, es: seq<Flex>)
    requires Reads(" " + x, acc, es)
    ensures Reads(x, acc, es)
  {
    BlankBeforeElement(x, acc);
  }

  /** `p` is cut off from `full` in front of a closing bracket. */
  predicate CutAtBracket(p: string, full: string) {
    p <= full && |p| < |full| && full[|p|] == ']'
  }

  lemma StringWhole(f: Flex, w: string, p: string, y: string, t: Token)
    requires f.tag != INTEGER && f.tag != ARRAY && TextOf(w, f) && p != "" && p <= w + y
    requires t == Next(p) && Yields(t, f)
    ensures Readable(f) && p == w + t.rest
  {
    BuiltCases(f);
    ReadableCases(f);
    var s := f.text;
    StringRead(f, t);
    QuotedStart(s, p, y);
    GlueNothing(s);
    ReadAsItself(p[1..], "", s, y);
    QuotedWhole(s, p, t.rest);
  }

  lemma QuotedStart(s: string, p: string, y: string)
    requires p != "" && p <= ("\"" + s + "\"") + y
    ensures p[0] == '"' && p[1..] <= s + ("\"" + y)
  {
    SlicedQuote(s, y);
  }

  lemma QuotedWhole(s: string, p: string, rest: string)
    requires p != "" && p[0] == '"' && p[1..] == s + ("\"" + rest)
    ensures p == ("\"" + s + "\"") + rest
  {
    SlicedQuote(s, rest);
    assert p == [p[0]] + p[1..];
  }

  lemma DecStops(n: int, r: string)
    requires r == "" || r[0] == ' '
    ensures Next(Dec(n) + r) == Bare(Dec(n), r)
  {
    NextInteger(n, r);
  }

  lemma {:induction false} WordGoesOn(w: string, r: string)
    requires (forall i :: 0 <= i < |w| ==> !Skipped(w[i])) && r != "" && !Skipped(r[0])
    ensures |Word(w + r)| > |w| && Word(w + r)[|w|] == r[0]
  {
    if w == "" {
      assert w + r == r;
    } else {
      assert (w + r)[1..] == w[1..] + r;
      WordGoesOn(w[1..], r);
    }
  }

  lemma IntegerWhole(f: Flex, w: string, p: string, y: string, t: Token)
    requires TextOf(w, f) && f.tag == INTEGER && y != "" && (y[0] == ' ' || y[0] == ']')
    requires CutAtBracket(p, w + y)
    requires t == Next(p) && Yields(t, f)
    ensures Readable(f) && p == w + t.rest
  {
    BuiltCases(f);
    IntegerRead(f, t);
    NumeralWhole(f.integer, p, y, t);
  }

  /** A numeral that is cut off in front of a closing bracket is cut off behind its last digit. */
  lemma NumeralWhole(n: int, p: string, y: string, t: Token)
    requires y != "" && (y[0] == ' ' || y[0] == ']') && CutAtBracket(p, Dec(n) + y)
    requires t == Next(p) && t.Bare? && IsInteger(t.text)
    ensures p == Dec(n) + t.rest
  {
    var w := Dec(n);
    DecHasNoBrackets(n);
    assert |p| >= |w|;
    var r := p[|w|..];
    assert p == w + r && p[0] == w[0];
    if r == "" || r[0] == ' ' {
      DecStops(n, r);
    } else {
      WordGoesOn(w, r);
      assert false;
    }
  }

  lemma {:induction false} ArrayWhole(f: Flex, w: string, p: string, y: string, t: Token)
    requires f.tag == ARRAY && TextOf(w, f) && p != "" && p <= w + y
    requires t == Next(p) && Yields(t, f)
    ensures Readable(f) && p == w + t.rest
    decreases f, 0
  {
    BuiltCases(f);
    ReadableCases(f);
    ArrayRead(f, t);
    NextShape(p);
    var j := Join(f.elems);
    Sliced(j, y);
    assert w == "[" + (j + "]") && p[0] == '[';
    InnerCut(p, w + y, j + ("]" + y), t.text, t.rest);
    ReadPrefix(f.elems, j, t.text, y, []);
  }

  lemma InnerCut(p: string, all: string, full: string, text: string, rest: string)
    requires p != "" && p <= all && all[1..] == full && Gap(p) == 0 && BracketedAt(p, 0, text, rest)
    ensures CutAtBracket(text, full)
    ensures p == "[" + (text + "]") + rest
  {
    assert p[1..1 + |text|] == all[1..][..|text|];
    assert p[1 + |text|] == full[|text|];
  }

  lemma {:induction false} ElementWhole(f: Flex, w: string, p: string, y: string, t: Token)
    requires TextOf(w, f) && p != "" && y != "" && (y[0] == ' ' || y[0] == ']')
    requires CutAtBracket(p, w + y)
    requires t == Next(p) && Yields(t, f)
    ensures Readable(f) && p == w + t.rest
    decreases f, 1
  {
    if f.tag == INTEGER {
      IntegerWhole(f, w, p, y, t);
    } else if f.tag == ARRAY {
      ArrayWhole(f, w, p, y, t);
    } else {
      StringWhole(f, w, p, y, t);
    }
  }

  lemma CutBehind(p: string, s: string, y: string, rest: string)
    requires CutAtBracket(p, s + y) && p == s + rest
    ensures CutAtBracket(rest, y)
  {
    assert (s + y)[|p|] == y[|rest|];
    assert rest == p[|s|..] == (s + y)[|s|..][..|rest|];
  }

  /**
   * If what is read from the beginning of an array's text, up to some closing bracket, are
   * its elements, then all of its text was read and every element is readable.
   */
  lemma {:induction false} ReadPrefix(es: seq<Flex>, j: string, p: string, t: string, acc: seq<Flex>)
    requires TextOfAll(j, es) && CutAtBracket(p, j + ("]" + t)) && Reads(p, acc, es)
    ensures p == j && AllReadable(es)
    decreases es, 0
  {
    var k := FirstRead(p, acc, es);
    NextShape(p);
    if es != [] {
      var w, j', tail := JoinParts(es, j);
      var y := tail + ("]" + t);
      Glue(w, tail, "]" + t);
      ElementWhole(es[0], w, p, y, k);
      CutBehind(p, w, y, k.rest);
      if |es| == 1 {
        ReadPrefix(es[1..], "", k.rest, t, acc + [es[0]]);
      } else {
        Glue(" ", j', "]" + t);
        var inner := BehindBlank(k.rest, j' + ("]" + t), acc + [es[0]], es[1..]);
        ReadPrefix(es[1..], j', inner, t, acc + [es[0]]);
      }
      AllReadableCons(es);
    }
  }

  lemma BehindBlank(rest: string, full: string, acc: seq<Flex>, es: seq<Flex>) returns (inner: string)
    requires es != [] && Reads(rest, acc, es) && CutAtBracket(rest, " " + full)
    ensures rest == " " + inner && CutAtBracket(inner, full) && Reads(inner, acc, es)
  {
    var more := FirstRead(rest, acc, es);
    NextShape(rest);
    inner := rest[1..];
    assert rest[0] == ' ' && rest == " " + inner;
    CutBehind(rest, " ", full, inner);
    ReadsBehindBlank(inner, acc, es);
  }

  lemma AllReadableCons(es: seq<Flex>)
    requires es != [] && Readable(es[0]) && AllReadable(es[1..])
    ensures AllReadable(es)
  {
    assert forall i :: 0 < i < |es| ==> es[i] == es[1..][i - 1];
  }

  // -- A text that begins later ------------------------------------------------------

  /** `c` stands at position `d` of `full`, not at its beginning, up to its end or to a closing bracket. */
  predicate At(c: string, d: nat, full: string) {
    && 1 <= d && d + |c| <= |full| && (forall i :: 0 <= i < |c| ==> c[i] == full[d + i])
    && (d + |c| < |full| ==> full[d + |c|] == ']')
  }

  /** A text that does not begin with a quote changes when it is moved towards its closing quote. */
  lemma {:induction false} MovedChanges(s: string) returns (i: nat)
    requires s != "" && s[0] != '"'
    ensures i < |s| && s[i] != (s + "\"")[i + 1]
  {
    if |s| == 1 || s[1] == '"' {
      i := 0;
    } else {
      i := MovedChanges(s[1..]);
      i := i + 1;
    }
  }

  lemma StringLate(f: Flex, w: string, c: string, d: nat, y: string, t: Token)
    requires f.tag != INTEGER && f.tag != ARRAY && TextOf(w, f) && At(c, d, w + y) && Shape(c, t) && Yields(t, f)
    ensures |t.rest| <= |c| && d + |c| - |t.rest| > |w|
  {
    BuiltCases(f);
    StringRead(f, t);
    if t.Bare? {
      BareLate(f.text, c, d, y, Gap(c), t.rest);
    }
  }

  lemma BareLate(s: string, c: string, d: nat, y: string, g: nat, rest: string)
    requires At(c, d, ("\"" + s + "\"") + y) && BareAt(c, g, s, rest)
    ensures d + g + |s| > |s| + 2
  {
    var full := ("\"" + s + "\"") + y;
    assert full[|s| + 1] == '"';
    if d + g == 1 {
      assert false;
    } else if d + g == 2 {
      var i := MovedChanges(s);
      assert false;
    }
  }

  lemma {:induction false} DigitsAreShortest(w: string)
    requires AllDigits(w)
    ensures |Digits(Number(w))| <= if w == "" then 1 else |w|
  {
    if w != "" {
      DigitsAreShortest(Init(w));
      if |w| == 1 {
        assert Init(w) == "";
      }
    }
  }

  lemma LeadingOfDigits(w: string)
    requires AllDigits(w)
    ensures Leading(w) == w && Magnitude(w) == Number(w)
  {
    LeadingOf(w, "");
    assert w + "" == w;
    assert |w| > 0 ==> IsDigit(w[0]);
    assert |w| > 1 ==> IsDigit(w[1]);
  }

  /** No numeral is shorter than the one printed. */
  lemma DecIsShortest(w: string)
    requires w != "" && IsInteger(w)
    ensures |Dec(FlexAtol(w))| <= |w|
  {
    if w[0] == '-' {
      LeadingOfDigits(w[1..]);
      DigitsAreShortest(w[1..]);
    } else {
      LeadingOfDigits(w);
      DigitsAreShortest(w);
    }
  }

  lemma IntegerLate(f: Flex, w: string, c: string, d: nat, y: string, t: Token)
    requires f.tag == INTEGER && TextOf(w, f) && At(c, d, w + y) && Shape(c, t) && Yields(t, f)
    ensures |t.rest| <= |c| && d + |c| - |t.rest| > |w|
  {
    BuiltCases(f);
    IntegerRead(f, t);
    DecIsShortest(t.text);
  }

  lemma InnerAt(c: string, d: nat, all: string, full: string, g: nat, text: string, rest: string)
    returns (a: nat)
    requires all != "" && all[1..] == full && At(c, d, all) && BracketedAt(c, g, text, rest)
    ensures a == d + g && At(text, a, full)
  {
    a := d + g;
    forall i | 0 <= i < |text| ensures text[i] == full[a + i] {
      assert c[g + 1..g + 1 + |text|][i] == c[g + 1 + i];
    }
  }

  lemma {:induction false} ArrayLate(f: Flex, w: string, c: string, d: nat, y: string, t: Token)
    requires f.tag == ARRAY && TextOf(w, f) && At(c, d, w + y) && Shape(c, t) && Yields(t, f)
    ensures |t.rest| <= |c| && d + |c| - |t.rest| > |w|
    decreases f, 0
  {
    BuiltCases(f);
    ArrayRead(f, t);
    ArrayLateIn(f.elems, Join(f.elems), w, c, d, y, Gap(c), t.text, t.rest);
  }

  lemma {:induction false} ArrayLateIn(es: seq<Flex>, j: string, w: string, c: string, d: nat, y: string,
                                       g: nat, text: string, rest: string)
    requires TextOfAll(j, es) && w == "[" + (j + "]")
    requires At(c, d, w + y) && BracketedAt(c, g, text, rest) && Reads(text, [], es)
    ensures d + |c| - |rest| > |w|
    decreases es, 5
  {
    Sliced(j, y);
    var y' := "]" + y;
    var a := InnerAt(c, d, w + y, j + y', g, text, rest);
    ReadLate(es, j, text, a, y', []);
  }

  lemma {:induction false} ElementLate(f: Flex, w: string, c: string, d: nat, y: string, t: Token)
    requires TextOf(w, f) && At(c, d, w + y) && Shape(c, t) && Yields(t, f)
    ensures |t.rest| <= |c| && d + |c| - |t.rest| > |w|
    decreases f, 1
  {
    if f.tag == INTEGER {
      IntegerLate(f, w, c, d, y, t);
    } else if f.tag == ARRAY {
      ArrayLate(f, w, c, d, y, t);
    } else {
      StringLate(f, w, c, d, y, t);
    }
  }

  /** A token does not end with a blank, and what follows it is the rest of the text. */
  lemma TokenEnds(c: string, t: Token)
    requires Shape(c, t) && (t.Bare? || t.Quoted? || t.Bracketed?)
    ensures |t.rest| < |c| && t.rest == c[|c| - |t.rest|..] && c[|c| - |t.rest| - 1] != ' '
  {
    if t.Bare? {
      var g := Gap(c);
      assert c[g..g + |t.text|][|t.text| - 1] == c[g + |t.text| - 1];
    }
  }

  /** `rest` is what follows a token of `c`, and it begins behind the text `w`. */
  predicate Behind(w: string, c: string, d: nat, rest: string) {
    && |rest| < |c| && rest == c[|c| - |rest|..] && c[|c| - |rest| - 1] != ' '
    && d + |c| - |rest| > |w|
  }

  lemma RestAt(c: string, d: nat, s: string, full: string, rest: string)
    requires At(c, d, s + (" " + full)) && Behind(s, c, d, rest)
    ensures d + |c| - |rest| >= |s| + 2
    ensures At(rest, d + |c| - |rest| - |s| - 1, full)
  {
    var all := s + (" " + full);
    var e := d + |c| - |rest| - |s| - 1;
  }

  /** Behind a late token the rest stands late for the elements that remain. */
  lemma LateStep(w: string, j: string, tail: string, all: string, c: string, d: nat, y: string, rest: string)
    returns (d': nat)
    requires all == w + tail && tail == " " + j && At(c, d, all + y) && Behind(w, c, d, rest)
    ensures d' == d + |c| - |rest| - |w| - 1 && |all| == |w| + 1 + |j|
    ensures At(rest, d', j + y)
  {
    Glue(w, " " + j, y);
    Glue(" ", j, y);
    RestAt(c, d, w, j + y, rest);
    d' := d + |c| - |rest| - |w| - 1;
  }

  lemma {:induction false} LateEnd(f: Flex, w: string, c: string, d: nat, y: string, t: Token)
    requires TextOf(w, f) && At(c, d, w + y) && Shape(c, t) && Yields(t, f)
    ensures Good(t) && Behind(w, c, d, t.rest)
    decreases f, 2
  {
    ElementLate(f, w, c, d, y, t);
    TokenEnds(c, t);
  }

  /** The next token of a late text ends behind the text of its element. */
  lemma {:induction false} LateToken(es: seq<Flex>, w: string, y: string, c: string, d: nat, acc: seq<Flex>)
    returns (rest: string)
    requires es != [] && TextOf(w, es[0]) && At(c, d, w + y) && Reads(c, acc, es)
    ensures Reads(rest, acc + [es[0]], es[1..]) && Behind(w, c, d, rest)
    decreases es, 1
  {
    var t := FirstShape(c, acc, es);
    LateEnd(es[0], w, c, d, y, t);
    rest := t.rest;
  }

  /** Behind it the text is late for the elements that remain. */
  lemma {:induction false} LateStart(es: seq<Flex>, j: string, c: string, d: nat, y: string, acc: seq<Flex>)
    returns (j': string, rest: string, d': nat)
    requires es != [] && TextOfAll(j, es) && At(c, d, j + y) && Reads(c, acc, es)
    ensures |es| == 1 ==> d + |c| > |j|
    ensures |es| > 1 ==>
              && TextOfAll(j', es[1..]) && At(rest, d', j' + y) && Reads(rest, acc + [es[0]], es[1..])
              && d + |c| - |j| == d' + |rest| - |j'|
    decreases es, 3
  {
    var w, tail;
    w, j', tail := JoinParts(es, j);
    Glue(w, tail, y);
    rest := LateToken(es, w, tail + y, c, d, acc);
    d' := 0;
    if |es| > 1 {
      d' := LateStep(w, j', tail, j, c, d, y, rest);
    }
  }

  /** Elements that are read from a later position are read to behind their own text. */
  lemma {:induction false} ReadLate(es: seq<Flex>, j: string, c: string, d: nat, y: string, acc: seq<Flex>)
    requires TextOfAll(j, es) && At(c, d, j + y) && Reads(c, acc, es)
    ensures d + |c| > |j|
    decreases es, 4
  {
    if es != [] {
      var j', rest, d' := LateStart(es, j, c, d, y, acc);
      if |es| > 1 {
        ReadLate(es[1..], j', rest, d', y, acc + [es[0]]);
      }
    }
  }

  // -- The theorem -------------------------------------------------------------------

  /** Parsing the text, with `v` read already, returns `f`. */
  predicate Gives(x: string, v: Option<Flex>, f: Flex) {
    ParseFrom(x, v).value == Some(f)
  }

  /** What is returned was read already, or is read from the next token or behind it. */
  lemma GivesNext(x: string, v: Option<Flex>, f: Flex) returns (t: Token)
    requires Gives(x, v, f) && v != Some(f)
    ensures t == Next(x) && Shape(x, t) && (t.Bare? || t.Quoted? || t.Bracketed?)
    ensures ValueOf(t) == f || Gives(t.rest, Some(ValueOf(t)), f)
  {
    t := Next(x);
    NextShape(x);
  }

  /** What is read from the next token of a later text is not that array. */
  lemma GivesOther(f: Flex, j: string, all: string, x: string, v: Option<Flex>) returns (rest: string, v': Option<Flex>)
    requires f.tag == ARRAY && TextOfAll(j, f.elems) && all == "[" + (j + "]")
    requires |x| < |all| && x == all[|all| - |x|..] && Gives(x, v, f) && v != Some(f)
    ensures |rest| < |x| && rest == all[|all| - |rest|..] && Gives(rest, v', f) && v' != Some(f)
  {
    var t := GivesNext(x, v, f);
    TokenEnds(x, t);
    NotFromLater(f, j, all, x, t);
    rest, v' := t.rest, Some(ValueOf(t));
  }

  /** No later text of an array's text is read as that array. */
  lemma {:induction false} NothingFollows(f: Flex, j: string, all: string, x: string, v: Option<Flex>)
    requires f.tag == ARRAY && TextOfAll(j, f.elems) && all == "[" + (j + "]")
    requires |x| < |all| && x == all[|all| - |x|..] && Gives(x, v, f)
    ensures v == Some(f)
    decreases |x|
  {
    if v != Some(f) {
      var rest, v' := GivesOther(f, j, all, x, v);
      NothingFollows(f, j, all, rest, v');
    }
  }

  lemma NotFromLater(f: Flex, j: string, all: string, x: string, t: Token)
    requires f.tag == ARRAY && TextOfAll(j, f.elems) && all == "[" + (j + "]")
    requires |x| < |all| && x == all[|all| - |x|..] && Shape(x, t) && (t.Bare? || t.Quoted? || t.Bracketed?)
    ensures ValueOf(t) != f
  {
    if ValueOf(t) == f {
      ReadsValue(f, t);
      NotInside(f.elems, j, all, x, |all| - |x|, Gap(x), t.text, t.rest);
    }
  }

  /** A token that stands for an array holds the elements of it. */
  lemma ReadsValue(f: Flex, t: Token)
    requires f.tag == ARRAY && (t.Bare? || t.Quoted? || t.Bracketed?) && ValueOf(t) == f
    ensures t.Bracketed? && Reads(t.text, [], f.elems)
  {
    assert [] + f.elems == f.elems;
  }

  lemma NotInside(es: seq<Flex>, j: string, all: string, x: string, d: nat, g: nat, text: string, rest: string)
    requires TextOfAll(j, es) && all == "[" + (j + "]")
    requires 1 <= d && d + |x| == |all| && x == all[d..] && BracketedAt(x, g, text, rest)
    ensures !Reads(text, [], es)
  {
    if Reads(text, [], es) {
      SuffixAt(all, x, d);
      ArrayLateIn(es, j, all, x, d, "", g, text, rest);
    }
  }

  lemma SuffixAt(all: string, x: string, d: nat)
    requires 1 <= d && d + |x| == |all| && x == all[d..]
    ensures At(x, d, all + "")
  {
    assert all + "" == all;
  }

  lemma ArrayTrip(f: Flex)
    requires Built(f) && f.tag == ARRAY && Gives(Serialize(f), None, f)
    ensures Readable(f)
  {
    BuiltCases(f);
    ReadableCases(f);
    ArrayTripAll(f, Join(f.elems), Serialize(f));
  }

  lemma ArrayTripAll(f: Flex, j: string, all: string)
    requires f.tag == ARRAY && TextOfAll(j, f.elems) && all == "[" + (j + "]") && Gives(all, None, f)
    ensures AllReadable(f.elems) && Balanced(f.elems)
  {
    var t := GivesNext(all, None, f);
    if ValueOf(t) != f {
      TokenEnds(all, t);
      NothingFollows(f, j, all, t.rest, Some(ValueOf(t)));
    }
    ReadsValue(f, t);
    ArrayTripIn(f.elems, j, all, t.text, t.rest);
  }

  lemma ArrayTripIn(es: seq<Flex>, j: string, all: string, text: string, rest: string)
    requires TextOfAll(j, es) && all == "[" + (j + "]")
    requires BracketedAt(all, 0, text, rest) && Reads(text, [], es)
    ensures AllReadable(es) && Balanced(es)
  {
    InnerCut(all, all, j + ("]" + ""), text, rest);
    ReadPrefix(es, j, text, "", []);
  }

  /** What a reader makes of a quoted text. */
  function Resolved(s: string): Option<string> {
    var q := Unquote(s + "\"", "");
    if q.Quote? && q.rest == "" then Some(q.text) else None
  }

  /** A text is read as itself exactly if it is clean. */
  lemma ResolvedExactly(s: string)
    ensures Resolved(s) == Some(s) <==> CleanText(s)
  {
    assert "\"" + "" == "\"" && "" + s == s;
    if CleanText(s) {
      UnquoteClean(s, "", "");
    } else if Resolved(s) == Some(s) {
      ReadAsItself(s + "\"", "", s, "");
    }
  }

  /** What a quoted text is read as. */
  lemma QuotedTrip(s: string, f: Flex)
    ensures Read("\"" + s + "\"") == Some(f) <==>
            Resolved(s).Some? && f == StrValue(Resolved(s).value)
  {
    var all := "\"" + s + "\"";
    assert all[1..] == s + "\"";
    var q := Unquote(s + "\"", "");
    if q.Quote? {
      UnquoteEnds(s + "\"", "");
      if q.rest != "" {
        assert Last(q.rest) == '"';
      } else {
        assert ParseFrom("", Some(StrValue(q.text))) == Parsed(Some(StrValue(q.text)), false);
      }
    }
  }

  /**
   * The round trip: for every tree of integers, strings and arrays, reading its text returns
   * the tree if and only if every string is free of quotes, backslashes and line breaks
   * and the brackets of every array match as they should.
   */
  lemma SerializeRoundTrip(f: Flex)
    requires Built(f)
    ensures Read(Serialize(f)) == Some(f) <==> Readable(f)
  {
    BuiltCases(f);
    ReadableCases(f);
    if Readable(f) {
      ReadableIsRead(f);
    } else if Read(Serialize(f)) == Some(f) {
      if f.tag == ARRAY {
        assert Gives(Serialize(f), None, f);
        ArrayTrip(f);
      } else {
        QuotedTrip(f.text, f);
        ResolvedExactly(f.text);
      }
    }
  }

  /** In particular it is read back if no string holds a bracket. */
  lemma PlainIsReadable(f: Flex)
    requires Plain(f)
    ensures Built(f) && Readable(f)
    decreases f
  {
    PlainCases(f);
    if f.tag == ARRAY {
      forall i | 0 <= i < |f.elems| ensures Built(f.elems[i]) && Readable(f.elems[i]) {
        PlainIsReadable(f.elems[i]);
      }
      CloseSkipsJoin(f.elems, "]", 1);
      assert Close("]", 1) == Some(0);
    }
  }
}
