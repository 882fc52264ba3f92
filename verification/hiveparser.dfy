/** The loops of `hive.c`: over the tokens of a file, and over the characters of a key. */
module HiveParser {
  import opened Seqs
  import opened Hive

  lemma {:induction false} ErrorStays(m: Machine, ts: seq<Token>, files: Files)
    requires m.status != Running
    ensures Run(m, ts, files) == m
  {
    if ts != [] {
      ErrorStays(m, Init(ts), files);
    }
  }

  lemma RunHead(m: Machine, ts: seq<Token>, i: nat, files: Files)
    requires i < |ts|
    ensures Run(m, ts[i..], files) == Run(Step(m, ts[i], files), ts[i + 1..], files)
  {
    assert ts[i..] == [ts[i]] + ts[i + 1..];
    RunConcat(m, [ts[i]], ts[i + 1..], files);
    RunOne(m, ts[i], files);
  }

  /** What the tokens from `i` on make of `m`, and the checks after the last one. */
  ghost function Rest(m: Machine, ts: seq<Token>, i: nat, files: Files): Machine
    requires i <= |ts|
  {
    Finish(Run(m, ts[i..], files), files)
  }

  lemma RestStep(m: Machine, ts: seq<Token>, i: nat, files: Files)
    requires i < |ts|
    ensures Rest(m, ts, i, files) == Rest(Step(m, ts[i], files), ts, i + 1, files)
    ensures Step(m, ts[i], files).status == Error ==> Rest(m, ts, i, files) == Step(m, ts[i], files)
  {
    RunHead(m, ts, i, files);
    if Step(m, ts[i], files).status == Error {
      ErrorStays(Step(m, ts[i], files), ts[i + 1..], files);
    }
  }

  /** The name of the included file is the next token, or empty at the end of the file. */
  lemma RestInclude(m: Machine, ts: seq<Token>, i: nat, files: Files)
    requires i <= |ts| && Inv(m) && m.status == Running && m.awaiting
    ensures i < |ts| ==> Rest(m, ts, i, files) == Rest(Included(m, files(ts[i].text)), ts, i + 1, files)
    ensures i == |ts| ==> Rest(m, ts, i, files) == Rest(Included(m, files("")), ts, i, files)
  {
    if i < |ts| {
      RestStep(m, ts, i, files);
    }
  }

  /** `hive_parse_buf` in state 0, where a name or a brace is due. */
  method ParseName(t: Token, path: seq<Node>, braces: int, nameTaken: bool, varTaken: bool, varName: string)
    returns (ok: bool, path': seq<Node>, braces': int, state: int, nameTaken': bool, varTaken': bool, varName': string)
    requires Inv(Machine(Running, path, braces, false, nameTaken, varTaken, varName, false))
    ensures var s := NameStep(Machine(Running, path, braces, false, nameTaken, varTaken, varName, false), t);
            if ok then (state == 0 || state == 1)
                       && s == Machine(Running, path', braces', state == 1, nameTaken', varTaken', varName', false)
            else s.status == Error && s.path == path'
  {
    ok, path', braces', state, nameTaken', varTaken', varName' := true, path, braces, 0, nameTaken, varTaken, varName;
    if Starts(t.text, '{') {
      if !nameTaken && !varTaken {
        return false, path, braces, 0, nameTaken, varTaken, varName;
      }
      path' := Descended(path);
      braces', varTaken', nameTaken' := braces + 1, false, false;
    } else if Starts(t.text, '}') {
      if braces == 0 || (nameTaken && !varTaken) {
        return false, path, braces, 0, nameTaken, varTaken, varName;
      }
      braces', path' := braces - 1, Ascended(path);
    } else {
      varName', nameTaken', varTaken', state := t.text, true, false, 1;
    }
  }

  /** And in state 1, where a value is due. */
  method ParseValue(t: Token, path: seq<Node>, braces: int, varName: string)
    returns (ok: bool, path': seq<Node>, braces': int, nameTaken': bool, varTaken': bool)
    requires Inv(Machine(Running, path, braces, true, true, false, varName, false))
    ensures var s := ValueStep(Machine(Running, path, braces, true, true, false, varName, false), t);
            if ok then s == Machine(Running, path', braces', false, nameTaken', varTaken', varName, false)
            else s.status == Error && s.path == path'
  {
    ok, path', braces', nameTaken', varTaken' := true, path, braces, true, false;
    if Starts(t.text, '{') && t.kind != Array {
      path' := Descended(Grown(path, [Node(varName, Value(t.kind, ""), [])]));
      braces', varTaken', nameTaken' := braces + 1, false, false;
    } else if Starts(t.text, '}') && t.kind != Array {
      ok := false;
    } else {
      path' := Grown(path, [Node(varName, Value(t.kind, t.text), [])]);
      nameTaken', varTaken' := false, true;
    }
  }

  /**
   * `hive_parse_buf`; `path` ends at the node that was current when it returned. Tests that
   * `Inv` decides are made in `NameStep` and `ValueStep` and not again here.
   */
  method ParseBuf(ts: seq<Token>, files: Files) returns (ok: bool, path: seq<Node>)
    ensures path == End(ts, files).path
    ensures ok <==> End(ts, files).status == Running
  {
    path := [ROOT];
    var braces, state, nameTaken, varTaken, varName := 0, 0, false, false, "";
    var i := 0;
    ghost var m := START;
    while i < |ts|
      invariant i <= |ts| && (state == 0 || state == 1)
      invariant m == Machine(Running, path, braces, state == 1, nameTaken, varTaken, varName, false)
      invariant Inv(m) && Rest(m, ts, i, files) == End(ts, files)
    {
      var t := ts[i];
      RestStep(m, ts, i, files);
      StepKeeps(m, t, files);
      m := Step(m, t, files);
      i := i + 1;
      var going;
      if t.broken || (t.kind == Array && state != 1) {
        return false, path;
      }
      if Starts(t.text, '#') && t.kind != Quoted {
        if t.text != "#include" {
          return false, path;
        }
        RestInclude(m, ts, i, files);
        var name := if i < |ts| then ts[i].text else "";
        m := Included(m, files(name));
        path := Grown(path, files(name));
        i := if i < |ts| then i + 1 else i;
        going := true;
      } else if state == 0 {
        going, path, braces, state, nameTaken, varTaken, varName :=
          ParseName(t, path, braces, nameTaken, varTaken, varName);
      } else {
        going, path, braces, nameTaken, varTaken := ParseValue(t, path, braces, varName);
        state := 0;
      }
      if !going {
        return false, path;
      }
    }
    ok := braces == 0 && !nameTaken;
  }

  // -- Finding an item ---------------------------------------------------------------

  /** The names a key is made of: what its slashes separate, but no empty name at the end. */
  function Parts(key: string): (ps: seq<string>)
    ensures ps != []
    ensures forall i :: 0 <= i < |ps| ==> '/' !in ps[i]
  {
    var k := Slash(key, 0);
    if k + 1 >= |key| then [key[..k]] else [key[..k]] + Parts(key[k + 1..])
  }

  function Slash(key: string, from: nat): (k: nat)
    requires from <= |key| && '/' !in key[..from]
    ensures k <= |key| && '/' !in key[..k] && (k < |key| ==> key[k] == '/')
    decreases |key| - from
  {
    if from == |key| || key[from] == '/' then from
    else
      assert key[..from + 1] == key[..from] + [key[from]];
      Slash(key, from + 1)
  }

  function Named(ns: seq<Node>, name: string): Option<Node> {
    if ns == [] then None else if ns[0].name == name then Some(ns[0]) else Named(ns[1..], name)
  }

  /** Down the tree, by the first child of each name. */
  function Walk(ns: seq<Node>, names: seq<string>): Option<Node>
    requires names != []
    decreases |names|
  {
    var n := Named(ns, names[0]);
    if n.None? || |names| == 1 then n else Walk(n.value.kids, names[1..])
  }

  /** `hive_find_item` */
  method FindItem(ns: seq<Node>, key: string) returns (item: Option<Node>)
    ensures item == Walk(ns, Parts(key))
    decreases |key|
  {
    var prefix, suffix, taken := "", "", false;
    var i := 0;
    while i < |key|
      invariant i <= |key|
      invariant !taken ==> prefix == key[..i] && suffix == "" && '/' !in key[..i]
      invariant taken ==> |prefix| < i && '/' !in prefix && key[..i] == prefix + "/" + suffix
    {
      assert key[..i + 1] == key[..i] + [key[i]];
      if key[i] == '/' {
        if taken {
          suffix := suffix + [key[i]];
        }
        taken := true;
      } else if !taken {
        prefix := prefix + [key[i]];
      } else {
        suffix := suffix + [key[i]];
      }
      i := i + 1;
    }
    assert key[..|key|] == key;
    FirstSlash(key, prefix, suffix, taken);
    item := FirstNamed(ns, prefix);
    if item.Some? && suffix != "" {
      item := FindItem(item.value.kids, suffix);
    }
  }

  lemma FirstSlash(key: string, prefix: string, suffix: string, taken: bool)
    requires '/' !in prefix
    requires key == if taken then prefix + "/" + suffix else prefix
    requires !taken ==> suffix == ""
    ensures Parts(key) == if suffix == "" then [prefix] else [prefix] + Parts(suffix)
    ensures suffix != "" ==> |suffix| < |key|
  {
    if taken {
      SlashTaken(key, prefix, suffix);
    } else {
      assert key[..|key|] == key;
      SlashIs(key, |key|);
    }
  }

  lemma SlashTaken(key: string, prefix: string, suffix: string)
    requires '/' !in prefix && key == prefix + "/" + suffix
    ensures Parts(key) == if suffix == "" then [prefix] else [prefix] + Parts(suffix)
  {
    var k := |prefix|;
    assert key[..k] == prefix && key[k] == '/' && key[k + 1..] == suffix;
    SlashIs(key, k);
  }

  lemma SlashIs(key: string, k: nat)
    requires k <= |key| && '/' !in key[..k] && (k < |key| ==> key[k] == '/')
    ensures Slash(key, 0) == k
  {
    var j := Slash(key, 0);
    assert forall i :: 0 <= i < k ==> key[..k][i] == key[i];
    assert forall i :: 0 <= i < j ==> key[..j][i] == key[i];
  }

  /** The first result of a search that was reset. */
  method FirstNamed(ns: seq<Node>, name: string) returns (item: Option<Node>)
    ensures item == Named(ns, name)
  {
    var i := 0;
    while i < |ns|
      invariant i <= |ns| && Named(ns, name) == Named(ns[i..], name)
    {
      if ns[i].name == name {
        return Some(ns[i]);
      }
      i := i + 1;
    }
    return None;
  }

  function Joined(names: seq<string>): string {
    if names == [] then "" else if |names| == 1 then names[0] else names[0] + "/" + Joined(names[1..])
  }

  /** A key can spell the path: no name holds a slash, and only a lone name is empty at the end. */
  predicate Spelled(names: seq<string>)
    requires names != []
  {
    (forall i :: 0 <= i < |names| ==> '/' !in names[i]) && (|names| == 1 || Last(names) != "")
  }

  lemma SpelledCons(names: seq<string>)
    requires |names| > 1
    ensures Spelled(names) <==> '/' !in names[0] && Spelled(names[1..]) && names[1..] != [""]
  {
    var rest := names[1..];
    assert names == [names[0]] + rest && Last(names) == Last(rest);
  }

  lemma JoinedEmpty(names: seq<string>)
    requires names != []
    ensures Joined(names) == "" <==> names == [""]
  {
  }

  lemma PartsCons(name: string, rest: seq<string>)
    requires '/' !in name && rest != []
    ensures Parts(name + "/" + Joined(rest)) == [name] + rest <==> Parts(Joined(rest)) == rest && rest != [""]
  {
    FirstSlash(name + "/" + Joined(rest), name, Joined(rest), true);
    JoinedEmpty(rest);
    assert ([name] + rest)[1..] == rest && ([name] + Parts(Joined(rest)))[1..] == Parts(Joined(rest));
  }

  /** A path of names is found under its joined key exactly when a key can spell it. */
  lemma {:induction false} PartsJoined(names: seq<string>)
    requires names != []
    ensures Parts(Joined(names)) == names <==> Spelled(names)
  {
    if |names| > 1 {
      SpelledCons(names);
    }
    if '/' !in names[0] {
      if |names| == 1 {
        FirstSlash(names[0], names[0], "", false);
      } else {
        PartsCons(names[0], names[1..]);
        PartsJoined(names[1..]);
        assert names == [names[0]] + names[1..];
      }
    }
  }
}
