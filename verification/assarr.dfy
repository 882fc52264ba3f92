/**
 * The chained hash table of `assarr.c`, proved to agree with a plain map, and the loops
 * that pack a table into text and unpack text into a table.
 */
module Assarr {
  import opened Seqs
  import opened Decimal
  import opened Packing

  const BUCKETS: nat := 10987
  const MULTIPLIER: nat := 43

  predicate Ascii(s: string) {
    forall i :: 0 <= i < |s| ==> s[i] as int < 128
  }

  /** A plain `char` is signed: the bytes from 128 on are negative. */
  function Signed(c: char): int {
    if c as int < 128 then c as int else c as int - 256
  }

  /** The remainder of C, which takes the sign of its left operand. */
  function Rem(a: int, m: nat): int
    requires m > 0
  {
    if a >= 0 then a % m else -((-a) % m)
  }

  /** `assarr_hash` */
  function Hash(s: string): int {
    if s == "" then 0 else Rem(Hash(Init(s)) * MULTIPLIER + Signed(Last(s)), BUCKETS)
  }

  lemma {:induction false} HashInRange(s: string)
    requires Ascii(s)
    ensures 0 <= Hash(s) < BUCKETS
  {
    if s != "" {
      HashInRange(Init(s));
    }
  }

  /**
   * Every string over an alphabet of bytes has a bucket if and only if the alphabet holds
   * nothing beyond 127: one such byte alone hashes below zero.
   */
  lemma HashNeedsAscii(alphabet: set<char>)
    requires forall c :: c in alphabet ==> c as int < 256
    ensures (forall s: string :: (forall i :: 0 <= i < |s| ==> s[i] in alphabet) ==> 0 <= Hash(s) < BUCKETS)
            <==> forall c :: c in alphabet ==> c as int < 128
  {
    if forall c :: c in alphabet ==> c as int < 128 {
      forall s: string | forall i :: 0 <= i < |s| ==> s[i] in alphabet ensures 0 <= Hash(s) < BUCKETS {
        HashInRange(s);
      }
    } else {
      var c :| c in alphabet && c as int >= 128;
      assert Init([c]) == "" && Hash("") == 0;
      assert Hash([c]) == Rem(Signed(c), BUCKETS);
      assert Hash([c]) < 0;
    }
  }

  // -- Chains ------------------------------------------------------------------------

  function Lookup<V>(chain: seq<Entry<V>>, key: string): Option<V> {
    if chain == [] then None
    else if chain[0].key == key then Some(chain[0].value)
    else Lookup(chain[1..], key)
  }

  function Update<V>(chain: seq<Entry<V>>, key: string, value: V): seq<Entry<V>> {
    if chain == [] then []
    else if chain[0].key == key then [Entry(key, value)] + chain[1..]
    else [chain[0]] + Update(chain[1..], key, value)
  }

  /** The position of the first entry of a key, or the length of the chain. */
  function Find<V>(chain: seq<Entry<V>>, key: string): (i: nat)
    ensures i <= |chain| && (i < |chain| ==> chain[i].key == key)
    ensures forall j :: 0 <= j < i ==> chain[j].key != key
  {
    if chain == [] || chain[0].key == key then 0 else 1 + Find(chain[1..], key)
  }

  function Without<V>(chain: seq<Entry<V>>, key: string): (r: seq<Entry<V>>)
    ensures |r| == if Find(chain, key) < |chain| then |chain| - 1 else |chain|
    ensures forall j :: 0 <= j < |r| ==> r[j] == chain[if j < Find(chain, key) then j else j + 1]
  {
    if chain == [] then []
    else if chain[0].key == key then chain[1..]
    else [chain[0]] + Without(chain[1..], key)
  }

  predicate Keys<V>(chain: seq<Entry<V>>, b: int) {
    forall i :: 0 <= i < |chain| ==> Ascii(chain[i].key) && Hash(chain[i].key) == b
  }

  lemma {:induction false} LookupFound<V>(chain: seq<Entry<V>>, key: string)
    ensures Lookup(chain, key).Some? <==> exists i :: 0 <= i < |chain| && chain[i].key == key
  {
    if chain != [] {
      LookupFound(chain[1..], key);
      if Lookup(chain, key).Some? {
        if chain[0].key != key {
          var i :| 0 <= i < |chain[1..]| && chain[1..][i].key == key;
          assert chain[i + 1].key == key;
        }
      }
      if i :| 0 <= i < |chain| && chain[i].key == key {
        assert i > 0 ==> chain[1..][i - 1].key == key;
      }
    }
  }

  lemma {:induction false} LookupAppend<V>(chain: seq<Entry<V>>, e: Entry<V>, key: string)
    ensures Lookup(chain + [e], key)
            == if Lookup(chain, key).Some? then Lookup(chain, key) else if e.key == key then Some(e.value) else None
  {
    if chain != [] {
      assert (chain + [e])[1..] == chain[1..] + [e];
      LookupAppend(chain[1..], e, key);
    } else {
      assert (chain + [e])[1..] == [];
    }
  }

  lemma {:induction false} LookupUpdate<V>(chain: seq<Entry<V>>, key: string, value: V, k: string)
    ensures Lookup(Update(chain, key, value), k)
            == if k == key && Lookup(chain, k).Some? then Some(value) else Lookup(chain, k)
    ensures |Update(chain, key, value)| == |chain|
    ensures forall i :: 0 <= i < |chain| ==> Update(chain, key, value)[i].key == chain[i].key
  {
    if chain != [] {
      LookupUpdate(chain[1..], key, value, k);
    }
  }

  lemma {:induction false} LookupWithout<V>(chain: seq<Entry<V>>, key: string, k: string)
    requires DistinctEntries(chain)
    ensures Lookup(Without(chain, key), k) == if k == key then None else Lookup(chain, k)
  {
    if chain != [] {
      assert forall i :: 0 <= i < |chain[1..]| ==> chain[1..][i] == chain[i + 1];
      LookupWithout(chain[1..], key, k);
      if chain[0].key == key {
        LookupFound(chain[1..], key);
      }
    }
  }

  lemma {:induction false} UpdateAt<V>(chain: seq<Entry<V>>, key: string, value: V)
    requires Find(chain, key) < |chain|
    ensures Update(chain, key, value) == chain[Find(chain, key) := Entry(key, value)]
  {
    if chain[0].key != key {
      UpdateAt(chain[1..], key, value);
    }
  }

  lemma WithoutKeeps<V>(chain: seq<Entry<V>>, key: string, b: int)
    requires DistinctEntries(chain) && Keys(chain, b)
    ensures DistinctEntries(Without(chain, key)) && Keys(Without(chain, key), b)
  {
  }

  lemma WithoutAbsent<V>(chain: seq<Entry<V>>, key: string)
    requires forall i :: 0 <= i < |chain| ==> chain[i].key != key
    ensures Without(chain, key) == chain
  {
  }

  lemma WithoutIsCut<V>(chain: seq<Entry<V>>, key: string)
    requires Find(chain, key) < |chain|
    ensures var i := Find(chain, key);
            Without(chain, key) == chain[..i] + chain[i + 1..]
  {
  }

  /** The chains one after the other: the order in which a traversal meets the entries. */
  function Flatten<V>(chains: seq<seq<Entry<V>>>): seq<Entry<V>> {
    if chains == [] then [] else Flatten(Init(chains)) + Last(chains)
  }

  // -- The table ---------------------------------------------------------------------

  /** Bucket `b` holds entries of hash `b`, without repeats. */
  ghost predicate ChainAt<V>(chains: seq<seq<Entry<V>>>, b: nat)
    requires b < |chains|
  {
    Keys(chains[b], b) && DistinctEntries(chains[b])
  }

  ghost predicate WellFormed<V>(chains: seq<seq<Entry<V>>>) {
    |chains| == BUCKETS && forall b :: 0 <= b < BUCKETS ==> ChainAt(chains, b)
  }

  /** What the chains hold under a key. */
  ghost function Holds<V>(chains: seq<seq<Entry<V>>>, key: string): Option<V>
    requires |chains| == BUCKETS && Ascii(key)
  {
    HashInRange(key);
    Lookup(chains[Hash(key)], key)
  }

  ghost function Entered<V>(m: map<string, V>, key: string): Option<V> {
    if key in m then Some(m[key]) else None
  }

  ghost predicate Agrees<V>(chains: seq<seq<Entry<V>>>, m: map<string, V>)
    requires |chains| == BUCKETS
  {
    && (forall k :: k in m ==> Ascii(k))
    && (forall k :: Ascii(k) ==> Holds(chains, k) == Entered(m, k))
  }

  lemma AppendAgrees<V>(chains: seq<seq<Entry<V>>>, m: map<string, V>, key: string, value: V)
    requires WellFormed(chains) && Agrees(chains, m) && Ascii(key) && key !in m
    ensures 0 <= Hash(key) < BUCKETS
    ensures var c := chains[Hash(key) := chains[Hash(key)] + [Entry(key, value)]];
            WellFormed(c) && Agrees(c, m[key := value])
  {
    HashInRange(key);
    var h := Hash(key);
    var c := chains[h := chains[h] + [Entry(key, value)]];
    assert Holds(chains, key) == Entered(m, key);
    LookupFound(chains[h], key);
    assert ChainAt(chains, h);
    forall b | 0 <= b < BUCKETS ensures ChainAt(c, b) {
      assert ChainAt(chains, b);
    }
    forall k | Ascii(k) ensures Holds(c, k) == Entered(m[key := value], k) {
      HashInRange(k);
      LookupAppend(chains[h], Entry(key, value), k);
      assert Holds(chains, k) == Entered(m, k);
    }
  }

  lemma UpdateAgrees<V>(chains: seq<seq<Entry<V>>>, m: map<string, V>, key: string, value: V)
    requires WellFormed(chains) && Agrees(chains, m) && Ascii(key) && key in m
    ensures 0 <= Hash(key) < BUCKETS
    ensures var c := chains[Hash(key) := Update(chains[Hash(key)], key, value)];
            WellFormed(c) && Agrees(c, m[key := value])
  {
    HashInRange(key);
    var h := Hash(key);
    var c := chains[h := Update(chains[h], key, value)];
    LookupUpdate(chains[h], key, value, key);
    assert ChainAt(chains, h);
    forall b | 0 <= b < BUCKETS ensures ChainAt(c, b) {
      assert ChainAt(chains, b);
    }
    assert Holds(chains, key) == Entered(m, key);
    forall k | Ascii(k) ensures Holds(c, k) == Entered(m[key := value], k) {
      HashInRange(k);
      LookupUpdate(chains[h], key, value, k);
      assert Holds(chains, k) == Entered(m, k);
    }
  }

  lemma WithoutAgrees<V>(chains: seq<seq<Entry<V>>>, m: map<string, V>, key: string) returns (c: seq<seq<Entry<V>>>)
    requires WellFormed(chains) && Agrees(chains, m) && Ascii(key)
    ensures 0 <= Hash(key) < BUCKETS && c == chains[Hash(key) := Without(chains[Hash(key)], key)]
    ensures WellFormed(c) && Agrees(c, m - {key})
  {
    HashInRange(key);
    var h := Hash(key);
    c := chains[h := Without(chains[h], key)];
    assert ChainAt(chains, h);
    WithoutKeeps(chains[h], key, h);
    forall b | 0 <= b < BUCKETS ensures ChainAt(c, b) {
      assert ChainAt(chains, b);
    }
    forall k | Ascii(k) ensures Holds(c, k) == Entered(m - {key}, k) {
      HeldWithout(chains, m, key, k);
    }
  }

  lemma HeldWithout<V>(chains: seq<seq<Entry<V>>>, m: map<string, V>, key: string, k: string)
    requires WellFormed(chains) && Agrees(chains, m) && Ascii(key) && Ascii(k) && 0 <= Hash(key) < BUCKETS
    ensures Holds(chains[Hash(key) := Without(chains[Hash(key)], key)], k) == Entered(m - {key}, k)
  {
    HashInRange(k);
    assert ChainAt(chains, Hash(key));
    LookupWithout(chains[Hash(key)], key, k);
    assert Holds(chains, k) == Entered(m, k);
  }

  lemma OneKeyLess<V>(m: map<string, V>, key: string)
    requires key in m
    ensures |m - {key}| == |m| - 1
  {
    assert m.Keys == (m - {key}).Keys + {key};
  }

  ghost predicate EmptyBelow<V>(chains: seq<seq<Entry<V>>>, n: nat) {
    n <= |chains| && forall b :: 0 <= b < n ==> chains[b] == []
  }

  lemma EmptyBelowNext<V>(chains: seq<seq<Entry<V>>>, n: nat)
    requires EmptyBelow(chains, n) && n < |chains|
    ensures EmptyBelow(chains[n := []], n + 1)
  {
  }

  lemma EmptyTable<V>(chains: seq<seq<Entry<V>>>, m: map<string, V>)
    requires |chains| == BUCKETS && Agrees(chains, m) && forall b :: 0 <= b < BUCKETS ==> chains[b] == []
    ensures m == map[]
  {
    forall k | Ascii(k) ensures k !in m {
      HashInRange(k);
      assert Holds(chains, k) == Entered(m, k);
    }
  }

  class Table<V> {
    var data: array<seq<Entry<V>>>
    var count: int

    /** The map the table stands for, and how many keys were ever removed from it. */
    ghost var model: map<string, V>
    ghost var removed: nat

    ghost predicate Valid()
      reads this, data
    {
      && data.Length == BUCKETS
      && WellFormed(data[..])
      && Agrees(data[..], model)
      && count == |model| + removed
    }

    /** `assarr_create` */
    constructor ()
      ensures Valid() && fresh(data) && model == map[] && removed == 0
      ensures forall b :: 0 <= b < BUCKETS ==> data[b] == []
    {
      data := new seq<Entry<V>>[BUCKETS](_ => []);
      count := 0;
      model, removed := map[], 0;
      new;
      forall k | Ascii(k) ensures Holds(data[..], k) == None {
        HashInRange(k);
      }
    }

    /** The loop of `assarr_hash`. */
    static method HashOf(s: string) returns (h: int)
      ensures h == Hash(s)
    {
      h := 0;
      var i := 0;
      assert s[..0] == "";
      while i < |s|
        invariant 0 <= i <= |s| && h == Hash(s[..i])
      {
        assert Init(s[..i + 1]) == s[..i];
        h := Rem(h * MULTIPLIER + Signed(s[i]), BUCKETS);
        i := i + 1;
      }
      assert s[..i] == s;
    }

    /** `assarr_get_entry`, `assarr_get_value`, `assarr_isset` */
    method Get(key: string) returns (r: Option<V>)
      requires Valid() && Ascii(key)
      ensures r == Entered(model, key)
    {
      HashInRange(key);
      var h := HashOf(key);
      var cur := data[h];
      assert Holds(data[..], key) == Entered(model, key);
      while cur != []
        invariant Lookup(cur, key) == Entered(model, key)
        decreases |cur|
      {
        if cur[0].key == key {
          return Some(cur[0].value);
        }
        cur := cur[1..];
      }
      return None;
    }

    /** `assarr_set_value`: define the key at the end of its chain, or change its value. */
    method Set(key: string, value: V)
      requires Valid() && Ascii(key)
      modifies this, data
      ensures Valid() && data == old(data)
      ensures model == old(model)[key := value] && removed == old(removed)
      ensures count == old(count) + if key in old(model) then 0 else 1
    {
      HashInRange(key);
      var h := HashOf(key);
      assert Holds(data[..], key) == Entered(model, key);
      LookupFound(data[h], key);
      var isset := Get(key);
      if isset == None {
        Define(h, key, value);
      } else {
        Change(h, key, value);
      }
    }

    /** `assarr_define`, with the value the caller gives the new entry at once. */
    method Define(h: nat, key: string, value: V)
      requires Valid() && Ascii(key) && key !in model && h == Hash(key) && h < BUCKETS
      modifies this, data
      ensures Valid() && data == old(data)
      ensures model == old(model)[key := value] && removed == old(removed) && count == old(count) + 1
      ensures data[..] == old(data[..])[h := old(data[..])[h] + [Entry(key, value)]]
    {
      ghost var was := data[..];
      AppendAgrees(was, model, key, value);
      data[h] := data[h] + [Entry(key, value)];
      assert data[..] == was[h := was[h] + [Entry(key, value)]];
      count := count + 1;
      model := model[key := value];
    }

    /** The second lookup of `assarr_set_value` and the change of the entry found. */
    method Change(h: nat, key: string, value: V)
      requires Valid() && Ascii(key) && key in model && h == Hash(key) && h < BUCKETS
      requires exists i :: 0 <= i < |data[h]| && data[h][i].key == key
      modifies this, data
      ensures Valid() && data == old(data)
      ensures model == old(model)[key := value] && removed == old(removed) && count == old(count)
      ensures data[..] == old(data[..])[h := Update(old(data[..])[h], key, value)]
    {
      ghost var was := data[..];
      var i := IndexOf(data[h], key);
      UpdateAgrees(was, model, key, value);
      UpdateAt(data[h], key, value);
      data[h] := data[h][i := Entry(key, value)];
      assert data[..] == was[h := Update(was[h], key, value)];
      assert model[key := value].Keys == model.Keys;
      model := model[key := value];
    }

    /** `assarr_unset_value`: the entry leaves its chain; the counter stays. */
    method Unset(key: string) returns (rc: int)
      requires Valid() && Ascii(key)
      modifies this, data
      ensures Valid() && data == old(data)
      ensures rc == if key in old(model) then 0 else -1
      ensures model == old(model) - {key} && count == old(count)
      ensures 0 <= Hash(key) < BUCKETS
      ensures data[..] == old(data[..])[Hash(key) := Without(old(data[..])[Hash(key)], key)]
    {
      HashInRange(key);
      var h := HashOf(key);
      assert Holds(data[..], key) == Entered(model, key);
      LookupFound(data[h], key);
      var isset := Get(key);
      if isset == None {
        WithoutAbsent(data[h], key);
        assert model - {key} == model;
        return -1;
      }
      Remove(h, key);
      return 0;
    }

    method Remove(h: nat, key: string)
      requires Valid() && Ascii(key) && key in model && h == Hash(key) && h < BUCKETS
      requires exists i :: 0 <= i < |data[h]| && data[h][i].key == key
      modifies this, data
      ensures Valid() && data == old(data)
      ensures model == old(model) - {key} && count == old(count)
      ensures data[..] == old(data[..])[h := Without(old(data[..])[h], key)]
    {
      ghost var rest := WithoutAgrees(data[..], model, key);
      OneKeyLess(model, key);
      data[h] := Unlink(data[h], key);
      assert data[..] == rest;
      model, removed := model - {key}, removed + 1;
    }

    static method Unlink(chain: seq<Entry<V>>, key: string) returns (r: seq<Entry<V>>)
      requires exists i :: 0 <= i < |chain| && chain[i].key == key
      ensures r == Without(chain, key)
    {
      var i := IndexOf(chain, key);
      WithoutIsCut(chain, key);
      r := chain[..i] + chain[i + 1..];
    }

    /** The walk along a chain to the entry of a key that is there. */
    static method IndexOf(chain: seq<Entry<V>>, key: string) returns (i: nat)
      requires exists i :: 0 <= i < |chain| && chain[i].key == key
      ensures i == Find(chain, key) && i < |chain|
    {
      i := 0;
      while chain[i].key != key
        invariant 0 <= i < |chain|
        invariant exists j :: i <= j < |chain| && chain[j].key == key
        invariant forall j :: 0 <= j < i ==> chain[j].key != key
        decreases |chain| - i
      {
        i := i + 1;
      }
    }

    /** `assarr_unset_all` */
    method UnsetAll()
      requires Valid()
      modifies this, data
      ensures Valid() && data == old(data)
      ensures model == map[] && count == old(count)
      ensures forall b :: 0 <= b < BUCKETS ==> data[b] == []
    {
      var i := 0;
      while i < BUCKETS
        invariant 0 <= i <= BUCKETS && Valid() && data == old(data) && count == old(count)
        invariant EmptyBelow(data[..], i)
      {
        EmptyBelowNext(data[..], i);
        CutChain(i);
        i := i + 1;
      }
      EmptyTable(data[..], model);
    }

    /** The traversal of one chain, each turn cutting off the entry it stands on. */
    method CutChain(i: nat)
      requires Valid() && i < BUCKETS
      modifies this, data
      ensures Valid() && data == old(data) && count == old(count)
      ensures data[..] == old(data[..])[i := []]
    {
      var cur := data[i];
      while cur != []
        invariant Valid() && data == old(data) && count == old(count)
        invariant cur == data[i] && data[..] == old(data[..])[i := cur]
        decreases |cur|
      {
        var next := cur[1..];
        CutFirst(i);
        cur := next;
      }
    }

    method CutFirst(i: nat)
      requires Valid() && i < BUCKETS && data[i] != []
      modifies this, data
      ensures Valid() && data == old(data) && count == old(count)
      ensures data[..] == old(data[..])[i := old(data[i])[1..]]
    {
      assert ChainAt(data[..], i);
      var key := data[i][0].key;
      var rc := Unset(key);
    }
  }

  // -- Traversals --------------------------------------------------------------------

  lemma {:induction false} FlattenMember<V>(chains: seq<seq<Entry<V>>>, e: Entry<V>)
    ensures e in Flatten(chains) <==> exists b :: 0 <= b < |chains| && e in chains[b]
  {
    if chains != [] {
      FlattenMember(Init(chains), e);
      assert chains == Init(chains) + [Last(chains)];
      if b :| 0 <= b < |Init(chains)| && e in Init(chains)[b] {
        assert e in chains[b];
      }
      assert e in Last(chains) ==> e in chains[|chains| - 1];
      if b :| 0 <= b < |chains| && e in chains[b] {
        assert b < |chains| - 1 ==> e in Init(chains)[b];
      }
    }
  }

  /** A traversal meets no key twice. */
  lemma {:induction false} FlattenDistinct<V>(chains: seq<seq<Entry<V>>>)
    requires forall b :: 0 <= b < |chains| ==> ChainAt(chains, b)
    ensures DistinctEntries(Flatten(chains))
  {
    if chains != [] {
      var rest := Init(chains);
      forall b | 0 <= b < |rest| ensures ChainAt(rest, b) {
        assert ChainAt(chains, b);
      }
      FlattenDistinct(rest);
      assert ChainAt(chains, |chains| - 1);
      forall e, f | e in Flatten(rest) && f in Last(chains) ensures e.key != f.key {
        FlattenMember(rest, e);
        var b :| 0 <= b < |rest| && e in rest[b];
        assert ChainAt(rest, b);
      }
    }
  }

  /** A traversal meets exactly the entries of the map. */
  lemma FlattenIsModel<V>(t: Table<V>, e: Entry<V>)
    requires t.Valid()
    ensures e in Flatten(t.data[..]) <==> e.key in t.model && t.model[e.key] == e.value
    ensures DistinctEntries(Flatten(t.data[..]))
  {
    var chains := t.data[..];
    FlattenDistinct(chains);
    FlattenMember(chains, e);
    if e in Flatten(chains) {
      var b :| 0 <= b < |chains| && e in chains[b];
      assert ChainAt(chains, b);
      LookupOf(chains[b], e);
      assert Holds(chains, e.key) == Entered(t.model, e.key);
    }
    if e.key in t.model && t.model[e.key] == e.value {
      HashInRange(e.key);
      assert Holds(chains, e.key) == Entered(t.model, e.key);
      LookupIs(chains[Hash(e.key)], e.key);
    }
  }

  lemma {:induction false} LookupOf<V>(chain: seq<Entry<V>>, e: Entry<V>)
    requires DistinctEntries(chain) && e in chain
    ensures Lookup(chain, e.key) == Some(e.value)
  {
    if chain[0] != e {
      assert chain == [chain[0]] + chain[1..];
      assert e in chain[1..];
      var i :| 0 <= i < |chain[1..]| && chain[1..][i] == e;
      assert chain[i + 1] == e;
      assert forall i :: 0 <= i < |chain[1..]| ==> chain[1..][i] == chain[i + 1];
      LookupOf(chain[1..], e);
    }
  }

  lemma {:induction false} LookupIs<V>(chain: seq<Entry<V>>, key: string)
    requires Lookup(chain, key).Some?
    ensures Entry(key, Lookup(chain, key).value) in chain
  {
    if chain[0].key != key {
      LookupIs(chain[1..], key);
    }
  }

  lemma {:induction false} PackAllConcat(a: seq<Entry<string>>, b: seq<Entry<string>>)
    ensures PackAll(a + b) == PackAll(a) + PackAll(b)
  {
    if a == [] {
      assert a + b == b;
    } else {
      assert (a + b)[1..] == a[1..] + b;
      PackAllConcat(a[1..], b);
    }
  }

  lemma PackAllSnoc(a: seq<Entry<string>>, e: Entry<string>)
    ensures PackAll(a + [e]) == PackAll(a) + Packed(e)
  {
    PackAllConcat(a, [e]);
    assert [e][1..] == [];
    assert Packed(e) + "" == Packed(e);
  }

  lemma {:induction false} SetAllFrom<V>(m: map<string, V>, es: seq<Entry<V>>, k: string)
    requires DistinctEntries(es)
    ensures Entered(SetAll(m, es), k) == if Lookup(es, k).Some? then Lookup(es, k) else Entered(m, k)
    decreases |es|
  {
    if es != [] {
      assert forall i :: 0 <= i < |es[1..]| ==> es[1..][i] == es[i + 1];
      SetAllFrom(m[es[0].key := es[0].value], es[1..], k);
      if es[0].key == k {
        LookupFound(es[1..], k);
      }
    }
  }

  /** Setting what a traversal meets, into an empty table, rebuilds the map. */
  lemma TraversalRebuilds<V>(t: Table<V>)
    requires t.Valid()
    ensures SetAll(map[], Flatten(t.data[..])) == t.model
  {
    var es := Flatten(t.data[..]);
    FlattenDistinct(t.data[..]);
    forall k ensures Entered(SetAll(map[], es), k) == Entered(t.model, k) {
      SetAllFrom(map[], es, k);
      LookupFound(es, k);
      if Lookup(es, k).Some? {
        LookupIs(es, k);
        FlattenIsModel(t, Entry(k, Lookup(es, k).value));
      } else if k in t.model {
        FlattenIsModel(t, Entry(k, t.model[k]));
        LookupOf(es, Entry(k, t.model[k]));
      }
    }
    var r := SetAll(map[], es);
    assert forall k :: k in r <==> k in t.model by {
      forall k ensures k in r <==> k in t.model {
        assert Entered(r, k) == Entered(t.model, k);
      }
    }
    assert forall k :: k in r ==> r[k] == t.model[k] by {
      forall k | k in r ensures r[k] == t.model[k] {
        assert Entered(r, k) == Entered(t.model, k);
      }
    }
  }

  /**
   * A table packed and unpacked into an empty one is the same map, if and only if no key
   * holds a semicolon and no value begins with one.
   */
  lemma TableRoundTrip(t: Table<string>, garbage: string)
    requires t.Valid()
    requires forall k :: k in t.model ==> k != "" && k[0] != ';'
    ensures Packing.Unpack(Start(PackAll(Flatten(t.data[..])), garbage, map[])) == Done(t.model)
            <==> forall k :: k in t.model ==> ';' !in k && (t.model[k] == "" || t.model[k][0] != ';')
  {
    var es := Flatten(t.data[..]);
    FlattenDistinct(t.data[..]);
    TraversalRebuilds(t);
    forall i | 0 <= i < |es| ensures es[i].key in t.model && t.model[es[i].key] == es[i].value {
      FlattenIsModel(t, es[i]);
    }
    RoundTrip(es, garbage);
    if forall i :: 0 <= i < |es| ==> Packable(es[i]) {
      forall k | k in t.model ensures ';' !in k && (t.model[k] == "" || t.model[k][0] != ';') {
        FlattenIsModel(t, Entry(k, t.model[k]));
        var i :| 0 <= i < |es| && es[i] == Entry(k, t.model[k]);
        assert Packable(es[i]);
      }
    }
  }

  /**
   * `assarr_pack`: the text, and a buffer that always has room for it and its final zero.
   */
  method Pack(t: Table<string>) returns (out: string, capacity: nat)
    requires t.Valid()
    ensures out == PackAll(Flatten(t.data[..]))
    ensures |out| + 1 <= capacity
  {
    var len := 0;
    capacity := 1024;
    out := "";
    var i := 0;
    assert t.data[..0] == [];
    while i < BUCKETS
      invariant 0 <= i <= BUCKETS
      invariant len == |out| && len + 1 <= capacity
      invariant out == PackAll(Flatten(t.data[..i]))
    {
      out, len, capacity := PackChain(t.data[i], out, len, capacity, Flatten(t.data[..i]));
      assert Init(t.data[..i + 1]) == t.data[..i];
      i := i + 1;
    }
    assert t.data[..i] == t.data[..];
  }

  /** The inner loop of the traversal in `assarr_pack`. */
  method PackChain(chain: seq<Entry<string>>, out0: string, len0: nat, capacity0: nat, ghost before: seq<Entry<string>>)
    returns (out: string, len: nat, capacity: nat)
    requires len0 == |out0| && len0 + 1 <= capacity0 && out0 == PackAll(before)
    ensures len == |out| && len + 1 <= capacity
    ensures out == PackAll(before + chain)
  {
    out, len, capacity := out0, len0, capacity0;
    var cur := chain;
    ghost var done := [];
    assert before + [] == before;
    while cur != []
      invariant done + cur == chain
      invariant len == |out| && len + 1 <= capacity
      invariant out == PackAll(before + done)
      decreases |cur|
    {
      var e := cur[0];
      var buf := Digits(|e.value|);
      var addLen := |e.key| + |buf| + |e.value| + 3;
      if len + addLen > capacity - 1 {
        capacity := capacity + addLen;
      }
      assert |Packed(e)| == addLen;
      PackAllSnoc(before + done, e);
      assert before + (done + [e]) == (before + done) + [e];
      // the six pieces, written one behind the other into a buffer that has room for them
      out := out + Packed(e);
      len := len + addLen;
      done := done + [e];
      cur := cur[1..];
    }
    assert done == chain;
  }

  // -- Unpacking ---------------------------------------------------------------------

  lemma {:induction false} StepAscii(s: Scan)
    requires s.rest != "" && Ascii(s.rest) && Ascii(s.token) && Ascii(s.key)
    ensures Ascii(Step(s).rest) && Ascii(Step(s).token) && Ascii(Step(s).key)
  {
    var u := UpTo(s.rest);
    assert forall i :: 0 <= i < |u| ==> u[i] == s.rest[..|u|][i];
  }

  lemma UpToIs(s: string, n: nat)
    requires n <= |s| && (n < |s| ==> s[n] == ';') && forall j :: 0 <= j < n ==> s[j] != ';'
    ensures UpTo(s) == s[..n]
  {
    var k := |UpTo(s)|;
    assert forall j :: 0 <= j < k ==> UpTo(s)[j] == s[..k][j];
    assert k == n;
  }

  lemma TokenEnd(data: string, start: nat, i: nat)
    requires start <= i <= |data| && (i < |data| ==> data[i] == ';')
    requires forall j :: start <= j < i ==> data[j] != ';'
    ensures data[start..i] == UpTo(data[start..]) && data[i..] == data[start..][i - start..]
  {
    UpToIs(data[start..], i - start);
    assert data[start..][..i - start] == data[start..i];
  }

  /** The loop of `assarr_unpack` that collects a token up to a semicolon. */
  method CollectToken(data: string, start: nat) returns (i: nat, token: string)
    requires start <= |data|
    ensures start <= i <= |data|
    ensures token == UpTo(data[start..]) && data[i..] == data[start..][|token|..]
  {
    i, token := start, "";
    while i < |data| && data[i] != ';'
      invariant start <= i <= |data| && token == data[start..i]
      invariant forall j :: start <= j < i ==> data[j] != ';'
    {
      token := token + [data[i]];
      i := i + 1;
    }
    TokenEnd(data, start, i);
  }

  /** The loop of `assarr_unpack` that collects a value of known length. */
  method CollectValue(data: string, start: nat, length: int) returns (i: nat, token: string)
    requires start <= |data|
    ensures start <= i <= |data|
    ensures var n := Span(length, |data| - start);
            token == data[start..][..n] && data[i..] == data[start..][n..]
  {
    i, token := start, "";
    while |token| != length && i < |data|
      invariant start <= i <= |data| && token == data[start..i]
      invariant 0 <= length <= |data| - start ==> i - start <= length
      decreases |data| - i
    {
      token := token + [data[i]];
      i := i + 1;
    }
    assert data[start..][..i - start] == data[start..i] && data[start..][i - start..] == data[i..];
  }

  /**
   * One turn of the loop of `assarr_unpack`. It stands still where the original turn would
   * change nothing.
   */
  method Turn(data: string, t: Table<string>, i0: nat, phase0: Phase, token0: string, key0: string, length0: int)
    returns (i: nat, phase: Phase, token: string, key: string, length: int, still: bool)
    requires t.Valid() && i0 < |data| && Ascii(token0) && Ascii(key0)
    modifies t, t.data
    ensures t.Valid() && t.data == old(t.data)
    ensures var s := Scan(data[i0..], phase0, token0, key0, length0, old(t.model));
            && (still <==> |Step(s).rest| == |s.rest|)
            && (!still ==> i0 < i <= |data| && Step(s) == Scan(data[i..], phase, token, key, length, t.model))
  {
    i, phase, token, key, length, still := i0, phase0, token0, key0, length0, false;
    ghost var s := Scan(data[i0..], phase0, token0, key0, length0, t.model);
    StandsStill(s);
    if data[i] == ';' {
      assert data[i..][1..] == data[i + 1..];
      if phase == InKey {
        key, phase := token, InLength;
      } else if phase == InLength {
        length, phase := Atol(token), InValue;
      } else {
        t.Set(key, token);
        phase := InKey;
      }
      token := "";
      i := i + 1;
    } else if phase != InValue {
      i, token := CollectToken(data, i);
    } else if length == 0 {
      still := true;
    } else {
      i, token := CollectValue(data, i, length);
    }
  }

  /**
   * `assarr_unpack` into a table. `ended` is false where the original loop would stand
   * still; `garbage` is what the token buffer held before it was ever written.
   */
  method Unpack(data: string, t: Table<string>, garbage: string) returns (ended: bool)
    requires t.Valid() && Ascii(data) && Ascii(garbage)
    modifies t, t.data
    ensures t.Valid() && t.data == old(t.data)
    ensures var r := Packing.Unpack(Start(data, garbage, old(t.model)));
            ended == r.Done? && (ended ==> t.model == r.table)
  {
    var i, phase, token, key, length := 0, InKey, garbage, "", 0;
    assert data[0..] == data;
    ghost var goal := Packing.Unpack(Start(data, garbage, t.model));
    while i < |data|
      invariant 0 <= i <= |data| && t.Valid() && t.data == old(t.data)
      invariant Ascii(token) && Ascii(key)
      invariant Packing.Unpack(Scan(data[i..], phase, token, key, length, t.model)) == goal
      decreases |data| - i
    {
      StepAscii(Scan(data[i..], phase, token, key, length, t.model));
      var still: bool;
      i, phase, token, key, length, still := Turn(data, t, i, phase, token, key, length);
      if still {
        return false;
      }
    }
    return true;
  }
}
