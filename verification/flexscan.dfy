/** The loops of `flexval.c`, proved against the functions of `Flexval`. */
module FlexScan {
  import opened Seqs
  import opened Decimal
  import opened Flexval

  lemma CloseNext(data: string, i: nat, interior: nat)
    requires i < |data| && interior > 0 && Close(data, 1) == Shift(Close(data[i..], interior), i)
    ensures var d := if data[i] == '[' then interior + 1 else if data[i] == ']' then interior - 1 else interior;
            if d == 0 then Close(data, 1) == Some(i) else Close(data, 1) == Shift(Close(data[i + 1..], d), i + 1)
  {
    assert data[i..][1..] == data[i + 1..];
  }

  /** The loop over an array in `unserialize_iterator`: it counts brackets as it copies. */
  method CopyToClose(data: string) returns (token: Option<string>, rest: string)
    ensures var k := Close(data, 1);
            if k.None? then token == None
            else token == Some(data[..k.value]) && rest == data[k.value + 1..]
  {
    var interior: nat := 1;
    var i := 0;
    assert data[0..] == data;
    while interior > 0
      invariant 0 <= i <= |data|
      invariant interior > 0 ==> Close(data, 1) == Shift(Close(data[i..], interior), i)
      invariant interior == 0 ==> i > 0 && Close(data, 1) == Some(i - 1)
      decreases |data| - i, interior
    {
      if i == |data| {
        return None, "";
      }
      CloseNext(data, i, interior);
      if data[i] == '[' {
        interior := interior + 1;
      }
      if data[i] == ']' {
        interior := interior - 1;
      }
      i := i + 1;
    }
    return Some(data[..i - 1]), data[i..];
  }

  /** The loop over a string in `unserialize_iterator`. */
  method CopyString(data: string) returns (q: Quote)
    ensures q == Unquote(data, "")
  {
    var i := 0;
    var token := "";
    assert data[0..] == data;
    while i < |data| && data[i] != '"'
      invariant 0 <= i <= |data| && Unquote(data, "") == Unquote(data[i..], token)
      decreases |data| - i
    {
      if data[i] == '\n' {
        return Open;
      }
      if data[i] == '\\' {
        if i + 1 == |data| || data[i + 1] == '\n' {
          return Open;
        }
        assert data[i..][2..] == data[i + 2..];
        token := token + [Escaped(data[i + 1])];
        i := i + 2;
      } else {
        assert data[i..][1..] == data[i + 1..];
        token := token + [data[i]];
        i := i + 1;
      }
    }
    if i == |data| {
      return Open;
    }
    assert data[i..][1..] == data[i + 1..];
    return Quote(token, data[i + 1..]);
  }

  lemma WordStep(w: string, s: string)
    requires s != "" && !Skipped(s[0])
    ensures w + Word(s) == (w + [s[0]]) + Word(s[1..])
  {
  }

  /** The loop over a bare word in `unserialize_iterator`. */
  method CopyWord(data: string) returns (w: string)
    ensures w == Word(data)
  {
    var i := 0;
    w := "";
    assert data[0..] == data;
    while i < |data| && !Skipped(data[i])
      invariant 0 <= i <= |data| && Word(data) == w + Word(data[i..])
    {
      WordStep(w, data[i..]);
      assert data[i..][1..] == data[i + 1..];
      w := w + [data[i]];
      i := i + 1;
    }
    assert Word(data[i..]) == "";
  }

  /** `unserialize_iterator` */
  method NextToken(data: string) returns (t: Token)
    ensures t == Next(data)
  {
    var i := 0;
    assert data[0..] == data;
    while i < |data| && Skipped(data[i])
      invariant 0 <= i <= |data| && Next(data) == Next(data[i..])
    {
      assert data[i..][1..] == data[i + 1..];
      i := i + 1;
    }
    if i == |data| {
      return End;
    }
    var at := data[i..];
    if at[0] == '[' {
      var token, rest := CopyToClose(at[1..]);
      return if token.None? then Bad else Bracketed(token.value, rest);
    } else if at[0] == '"' {
      var q := CopyString(at[1..]);
      return if q.Open? then Bad else Quoted(q.text, q.rest);
    } else {
      var w := CopyWord(at);
      return Bare(w, at[|w|..]);
    }
  }

  /** `flexval_unserialize_entry` */
  method Parse(data: string) returns (p: Parsed)
    ensures p == Unserialize(data)
    decreases |data|, 0
  {
    var shift := data;
    var value: Option<Flex> := None;
    var t := NextToken(shift);
    while t != End
      invariant |shift| <= |data| && t == Next(shift)
      invariant ParseFrom(shift, value) == ParseFrom(data, None)
      decreases |shift|
    {
      if t.Bad? {
        return Parsed(value, true);
      }
      if t.Bracketed? {
        var es := ParseInner(t.text);
        value := Some(ArrValue(es.elems));
        if es.error {
          return Parsed(value, true);
        }
      } else {
        if !Blank(t.rest) {
          return Parsed(value, true);
        }
        value := Some(if t.Quoted? then StrValue(t.text) else FromWord(t.text));
      }
      shift := t.rest;
      t := NextToken(shift);
    }
    return Parsed(value, false);
  }

  /** Its inner loop, which calls the whole procedure again for an array in an array. */
  method ParseInner(data: string) returns (r: Elements)
    ensures r == ParseElements(data, [])
    decreases |data|, 1
  {
    var shift := data;
    var value := ArrValue([]);
    var t := NextToken(shift);
    while t != End
      invariant |shift| <= |data| && t == Next(shift)
      invariant value == ArrValue(value.elems) && ParseElements(shift, value.elems) == ParseElements(data, [])
      decreases |shift|
    {
      if t.Bad? {
        return Elements(value.elems, true);
      }
      if t.Bracketed? {
        var p := Parse("[" + t.text + "]");
        if p.error {
          return Elements(value.elems, true);
        }
        if p.value.Some? {
          value := Append(value, p.value.value);
        }
      } else {
        value := Append(value, if t.Quoted? then StrValue(t.text) else FromWord(t.text));
      }
      shift := t.rest;
      t := NextToken(shift);
    }
    return Elements(value.elems, false);
  }

  /** `flexval_serialize_entry`: appends to the text it is given. */
  method SerializeInto(f: Flex, out: string) returns (res: string)
    ensures res == out + Serialize(f)
    decreases f
  {
    match f.tag {
      case UNDEFINED => res := out + ("\"" + f.text + "\"");
      case STRING => res := out + ("\"" + f.text + "\"");
      case INTEGER => res := out + Dec(f.integer);
      case FLOAT => res := out + f.text;
      case ARRAY =>
        res := out + "[";
        var i, n := 0, |f.elems|;
        ghost var goal := (out + "[") + Join(f.elems);
        assert f.elems[0..] == f.elems;
        while i < n
          invariant 0 <= i <= n && res + Join(f.elems[i..]) == goal
        {
          var e := f.elems[i];
          ghost var was := res;
          res := SerializeInto(e, res);
          assert f.elems[i..][1..] == f.elems[i + 1..];
          if i != n - 1 {
            Glue(was, Serialize(e), " " + Join(f.elems[i + 1..]));
            Glue(was + Serialize(e), " ", Join(f.elems[i + 1..]));
            res := res + " ";
          } else {
            assert Join(f.elems[i + 1..]) == "" && res + "" == res;
          }
          i := i + 1;
        }
        assert f.elems[i..] == [] && res + "" == res;
        res := res + "]";
        Glue(out, "[", Join(f.elems));
        Glue(out, "[" + Join(f.elems), "]");
        Glue("[", Join(f.elems), "]");
    }
  }
}
