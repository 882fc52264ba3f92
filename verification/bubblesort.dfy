/** The sort of `dyna_sort` on plain sequences, and what it gives for which comparators. */
module BubbleSort {
  import opened Seqs

  datatype Cell<T> = Cell(data: T, tag: int)

  /** Compare the neighbours at `j` and `j + 1`, swap them when they are out of order. */
  function Exchange<T>(s: seq<Cell<T>>, j: nat, cmp: (T, T) -> int): (r: seq<Cell<T>>)
    requires j + 1 < |s|
    ensures |r| == |s|
  {
    if cmp(s[j].data, s[j + 1].data) > 0 then s[j := s[j + 1]][j + 1 := s[j]] else s
  }

  /** The inner loop up to, not including, position `j`. */
  function PassTo<T>(s: seq<Cell<T>>, j: nat, cmp: (T, T) -> int): (r: seq<Cell<T>>)
    requires s == [] ==> j == 0
    requires s != [] ==> j < |s|
    ensures |r| == |s|
  {
    if j == 0 then s else Exchange(PassTo(s, j - 1, cmp), j - 1, cmp)
  }

  function Passes<T>(s: seq<Cell<T>>, k: nat, cmp: (T, T) -> int): (r: seq<Cell<T>>)
    ensures |r| == |s|
  {
    if k == 0 then s
    else
      var p := Passes(s, k - 1, cmp);
      PassTo(p, if s == [] then 0 else |s| - 1, cmp)
  }

  function BubbleSorted<T>(s: seq<Cell<T>>, cmp: (T, T) -> int): seq<Cell<T>> {
    Passes(s, |s|, cmp)
  }

  // -- Any comparator: a permutation ---------------------------------------------------

  predicate Permuted<T(==)>(a: seq<T>, b: seq<T>) { multiset(a) == multiset(b) }

  lemma ExchangePermutes<T>(s: seq<Cell<T>>, q: seq<Cell<T>>, j: nat, cmp: (T, T) -> int)
    requires j + 1 < |q| && Permuted(q, s)
    ensures Permuted(Exchange(q, j, cmp), s)
  {
  }

  lemma {:induction false} PassPermutes<T>(s: seq<Cell<T>>, q: seq<Cell<T>>, j: nat, cmp: (T, T) -> int)
    requires (if q == [] then j == 0 else j < |q|) && Permuted(q, s)
    ensures Permuted(PassTo(q, j, cmp), s)
  {
    if j > 0 {
      PassPermutes(s, q, j - 1, cmp);
      ExchangePermutes(s, PassTo(q, j - 1, cmp), j - 1, cmp);
    }
  }

  lemma {:induction false} PassesPermute<T>(s: seq<Cell<T>>, k: nat, cmp: (T, T) -> int)
    ensures Permuted(Passes(s, k, cmp), s)
  {
    if k > 0 {
      PassesPermute(s, k - 1, cmp);
      PassPermutes(s, Passes(s, k - 1, cmp), if s == [] then 0 else |s| - 1, cmp);
    }
  }

  /** Whatever the comparator says, sorting only rearranges. */
  lemma SortPermutes<T>(s: seq<Cell<T>>, cmp: (T, T) -> int)
    ensures multiset(BubbleSorted(s, cmp)) == multiset(s)
  {
    PassesPermute(s, |s|, cmp);
  }

  // -- Total preorders: sorted and stable ----------------------------------------------

  predicate Le<T>(cmp: (T, T) -> int, x: Cell<T>, y: Cell<T>) {
    cmp(x.data, y.data) <= 0
  }

  predicate Same<T>(cmp: (T, T) -> int, x: Cell<T>, y: Cell<T>) {
    Le(cmp, x, y) && Le(cmp, y, x)
  }

  /** The comparator is a total preorder on the elements that are to be sorted. */
  ghost predicate PreorderOn<T(!new)>(cmp: (T, T) -> int, u: set<Cell<T>>) {
    && (forall x, y {:trigger Le(cmp, x, y)} :: x in u && y in u ==> Le(cmp, x, y) || Le(cmp, y, x))
    && (forall x, y, z {:trigger Le(cmp, x, y), Le(cmp, y, z)} ::
          x in u && y in u && z in u && Le(cmp, x, y) && Le(cmp, y, z) ==> Le(cmp, x, z))
  }

  predicate Within<T(==)>(s: seq<Cell<T>>, u: set<Cell<T>>) {
    forall i :: 0 <= i < |s| ==> s[i] in u
  }

  predicate Sorted<T>(s: seq<Cell<T>>, cmp: (T, T) -> int) {
    forall i, j :: 0 <= i < j < |s| ==> Le(cmp, s[i], s[j])
  }

  /** The element at `m` is no less than any before it. */
  predicate Greatest<T>(s: seq<Cell<T>>, m: nat, cmp: (T, T) -> int)
    requires m < |s|
  {
    forall i :: 0 <= i < m ==> Le(cmp, s[i], s[m])
  }

  /** The last `k` elements are in place. */
  predicate Settled<T>(s: seq<Cell<T>>, k: nat, cmp: (T, T) -> int) {
    forall m :: 0 <= m < |s| && |s| - k <= m ==> Greatest(s, m, cmp)
  }

  /** An exchange in front of the settled part keeps it and carries the greatest on. */
  lemma ExchangeCarries<T(!new)>(q: seq<Cell<T>>, k: nat, j: nat, u: set<Cell<T>>, cmp: (T, T) -> int)
    requires PreorderOn(cmp, u) && Within(q, u)
    requires j + 1 + k < |q| && Settled(q, k, cmp) && Greatest(q, j, cmp)
    ensures var p := Exchange(q, j, cmp);
            Within(p, u) && Settled(p, k, cmp) && Greatest(p, j + 1, cmp)
  {
    var p := Exchange(q, j, cmp);
    forall m | 0 <= m < |p| && |p| - k <= m ensures Greatest(p, m, cmp) {
      assert Greatest(q, m, cmp);
      forall i | 0 <= i < m ensures Le(cmp, p[i], p[m]) {
        assert p[i] == q[i] || p[i] == q[j] || p[i] == q[j + 1];
      }
    }
    forall i | 0 <= i < j + 1 ensures Le(cmp, p[i], p[j + 1]) {
      assert i < j ==> p[i] == q[i] && Le(cmp, q[i], q[j]);
      assert Le(cmp, q[j], q[j + 1]) || Le(cmp, q[j + 1], q[j]);
    }
  }

  lemma {:induction false} PassCarriesGreatest<T(!new)>(s: seq<Cell<T>>, k: nat, j: nat, u: set<Cell<T>>,
                                                        cmp: (T, T) -> int)
    requires PreorderOn(cmp, u) && Within(s, u)
    requires k < |s| && j < |s| && Settled(s, k, cmp)
    ensures var p := PassTo(s, j, cmp);
            && Within(p, u) && Settled(p, k, cmp) && Greatest(p, j, cmp)
            && (j >= |s| - 1 - k ==> Greatest(p, |s| - 1 - k, cmp))
  {
    if j > 0 {
      PassCarriesGreatest(s, k, j - 1, u, cmp);
      var q := PassTo(s, j - 1, cmp);
      if j + k < |s| {
        ExchangeCarries(q, k, j - 1, u, cmp);
      } else {
        assert Greatest(q, j, cmp);
        assert Le(cmp, q[j - 1], q[j]);
      }
    }
  }

  lemma {:induction false} PassesSettle<T(!new)>(s: seq<Cell<T>>, k: nat, u: set<Cell<T>>, cmp: (T, T) -> int)
    requires PreorderOn(cmp, u) && Within(s, u) && k <= |s|
    ensures Within(Passes(s, k, cmp), u) && Settled(Passes(s, k, cmp), k, cmp)
  {
    if k > 0 {
      PassesSettle(s, k - 1, u, cmp);
      var p := Passes(s, k - 1, cmp);
      PassCarriesGreatest(p, k - 1, |s| - 1, u, cmp);
      var r := PassTo(p, |s| - 1, cmp);
      forall m | 0 <= m < |r| && |r| - k <= m ensures Greatest(r, m, cmp) {
        if m >= |r| - (k - 1) {
          assert Settled(r, k - 1, cmp);
        }
      }
    }
  }

  /** The elements equivalent to `x`, in the order in which they stand. */
  function ClassOf<T>(s: seq<Cell<T>>, x: Cell<T>, cmp: (T, T) -> int): seq<Cell<T>> {
    if s == [] then [] else ClassOf(Init(s), x, cmp) + (if Same(cmp, x, Last(s)) then [Last(s)] else [])
  }

  lemma {:induction false} ClassConcat<T>(a: seq<Cell<T>>, b: seq<Cell<T>>, x: Cell<T>, cmp: (T, T) -> int)
    ensures ClassOf(a + b, x, cmp) == ClassOf(a, x, cmp) + ClassOf(b, x, cmp)
    decreases |b|
  {
    if b == [] {
      assert a + b == a;
    } else {
      assert Init(a + b) == a + Init(b);
      ClassConcat(a, Init(b), x, cmp);
    }
  }

  lemma ClassOfPair<T>(u: Cell<T>, v: Cell<T>, x: Cell<T>, cmp: (T, T) -> int)
    ensures ClassOf([u, v], x, cmp)
            == (if Same(cmp, x, u) then [u] else []) + (if Same(cmp, x, v) then [v] else [])
  {
    assert Init([u, v]) == [u] && Init([u]) == [];
    assert ClassOf([u], x, cmp) == ClassOf([], x, cmp) + (if Same(cmp, x, u) then [u] else []);
    assert ClassOf([u], x, cmp) == if Same(cmp, x, u) then [u] else [];
  }

  lemma ClassAround<T>(a: seq<Cell<T>>, u: Cell<T>, v: Cell<T>, b: seq<Cell<T>>, x: Cell<T>, cmp: (T, T) -> int)
    ensures ClassOf(a + ([u, v] + b), x, cmp) == ClassOf(a, x, cmp) + (ClassOf([u, v], x, cmp) + ClassOf(b, x, cmp))
  {
    ClassConcat(a, [u, v] + b, x, cmp);
    ClassConcat([u, v], b, x, cmp);
  }

  lemma NotBothSame<T(!new)>(u: set<Cell<T>>, v: Cell<T>, w: Cell<T>, x: Cell<T>, cmp: (T, T) -> int)
    requires PreorderOn(cmp, u) && v in u && w in u && x in u && cmp(v.data, w.data) > 0
    ensures !(Same(cmp, x, v) && Same(cmp, x, w))
  {
    assert !Le(cmp, v, w);
  }

  lemma ExchangeKeepsClass<T(!new)>(s: seq<Cell<T>>, j: nat, x: Cell<T>, u: set<Cell<T>>, cmp: (T, T) -> int)
    requires j + 1 < |s| && PreorderOn(cmp, u) && Within(s, u) && x in u
    ensures ClassOf(Exchange(s, j, cmp), x, cmp) == ClassOf(s, x, cmp)
    ensures Within(Exchange(s, j, cmp), u)
  {
    if cmp(s[j].data, s[j + 1].data) > 0 {
      NotBothSame(u, s[j], s[j + 1], x, cmp);
      SwapParts(s, j);
      SwapKeepsClass(s[..j], s[j], s[j + 1], s[j + 2..], x, cmp);
    }
  }

  lemma SwapParts<T>(s: seq<Cell<T>>, j: nat)
    requires j + 1 < |s|
    ensures s == s[..j] + ([s[j], s[j + 1]] + s[j + 2..])
    ensures s[j := s[j + 1]][j + 1 := s[j]] == s[..j] + ([s[j + 1], s[j]] + s[j + 2..])
  {
  }

  lemma SwapKeepsClass<T>(a: seq<Cell<T>>, v: Cell<T>, w: Cell<T>, b: seq<Cell<T>>, x: Cell<T>, cmp: (T, T) -> int)
    requires !(Same(cmp, x, v) && Same(cmp, x, w))
    ensures ClassOf(a + ([v, w] + b), x, cmp) == ClassOf(a + ([w, v] + b), x, cmp)
  {
    ClassAround(a, v, w, b, x, cmp);
    ClassAround(a, w, v, b, x, cmp);
    ClassOfPair(v, w, x, cmp);
    ClassOfPair(w, v, x, cmp);
    assert ClassOf([v, w], x, cmp) == ClassOf([w, v], x, cmp);
  }

  lemma {:induction false} PassKeepsClass<T(!new)>(s: seq<Cell<T>>, j: nat, x: Cell<T>, u: set<Cell<T>>,
                                                   cmp: (T, T) -> int)
    requires j < |s| && PreorderOn(cmp, u) && Within(s, u) && x in u
    ensures ClassOf(PassTo(s, j, cmp), x, cmp) == ClassOf(s, x, cmp)
    ensures Within(PassTo(s, j, cmp), u)
  {
    if j > 0 {
      PassKeepsClass(s, j - 1, x, u, cmp);
      ExchangeKeepsClass(PassTo(s, j - 1, cmp), j - 1, x, u, cmp);
    }
  }

  lemma {:induction false} PassesKeepClass<T(!new)>(s: seq<Cell<T>>, k: nat, x: Cell<T>, u: set<Cell<T>>,
                                                    cmp: (T, T) -> int)
    requires PreorderOn(cmp, u) && Within(s, u) && x in u && s != []
    ensures ClassOf(Passes(s, k, cmp), x, cmp) == ClassOf(s, x, cmp)
    ensures Within(Passes(s, k, cmp), u)
  {
    if k > 0 {
      PassesKeepClass(s, k - 1, x, u, cmp);
      PassKeepsClass(Passes(s, k - 1, cmp), |s| - 1, x, u, cmp);
    }
  }

  /**
   * For a total preorder the result is sorted, and equivalent elements stand in their
   * original order.
   */
  lemma SortIsStable<T(!new)>(s: seq<Cell<T>>, cmp: (T, T) -> int)
    requires PreorderOn(cmp, set x | x in s)
    ensures Sorted(BubbleSorted(s, cmp), cmp)
    ensures forall x :: x in s ==> ClassOf(BubbleSorted(s, cmp), x, cmp) == ClassOf(s, x, cmp)
  {
    var u := set x | x in s;
    PassesSettle(s, |s|, u, cmp);
    var r := BubbleSorted(s, cmp);
    forall i, j | 0 <= i < j < |r| ensures Le(cmp, r[i], r[j]) {
      assert Greatest(r, j, cmp);
    }
    forall x | x in s ensures ClassOf(r, x, cmp) == ClassOf(s, x, cmp) {
      PassesKeepClass(s, |s|, x, u, cmp);
    }
  }

  lemma {:induction false} ClassMember<T>(s: seq<Cell<T>>, x: Cell<T>, y: Cell<T>, cmp: (T, T) -> int)
    ensures y in ClassOf(s, x, cmp) <==> y in s && Same(cmp, x, y)
  {
    if s != [] {
      ClassMember(Init(s), x, y, cmp);
      assert s == Init(s) + [Last(s)];
    }
  }

  lemma ClassStarts<T>(s: seq<Cell<T>>, x: Cell<T>, cmp: (T, T) -> int)
    requires s != []
    ensures ClassOf(s, x, cmp) == (if Same(cmp, x, s[0]) then [s[0]] else []) + ClassOf(s[1..], x, cmp)
  {
    ClassConcat([s[0]], s[1..], x, cmp);
    assert s == [s[0]] + s[1..] && Init([s[0]]) == [];
    assert ClassOf([s[0]], x, cmp) == ClassOf([], x, cmp) + (if Same(cmp, x, s[0]) then [s[0]] else []);
  }

  lemma HeadInClass<T(!new)>(a: seq<Cell<T>>, u: set<Cell<T>>, cmp: (T, T) -> int)
    requires PreorderOn(cmp, u) && Within(a, u)
    ensures a != [] ==> a[0] in ClassOf(a, a[0], cmp)
  {
    if a != [] {
      assert Le(cmp, a[0], a[0]);
      ClassMember(a, a[0], a[0], cmp);
    }
  }

  /** Of two sorted lists with the same classes, the first elements agree. */
  lemma SameHead<T(!new)>(a: seq<Cell<T>>, b: seq<Cell<T>>, u: set<Cell<T>>, cmp: (T, T) -> int)
    requires a != [] && b != [] && PreorderOn(cmp, u) && Within(a, u) && Within(b, u)
    requires Sorted(a, cmp) && Sorted(b, cmp)
    requires forall x :: x in u ==> ClassOf(a, x, cmp) == ClassOf(b, x, cmp)
    ensures a[0] == b[0]
  {
    var x, y := a[0], b[0];
    assert Le(cmp, x, x) && Le(cmp, y, y);
    ClassMember(a, x, x, cmp);
    ClassMember(b, x, x, cmp);
    ClassMember(a, y, y, cmp);
    ClassMember(b, y, y, cmp);
    assert Le(cmp, y, x) by {
      var i :| 0 <= i < |b| && b[i] == x;
      assert i > 0 ==> Le(cmp, b[0], b[i]);
    }
    assert Le(cmp, x, y) by {
      var i :| 0 <= i < |a| && a[i] == y;
      assert i > 0 ==> Le(cmp, a[0], a[i]);
    }
    ClassStarts(a, x, cmp);
    ClassStarts(b, x, cmp);
    assert ClassOf(a, x, cmp)[0] == x && ClassOf(b, x, cmp)[0] == y;
  }

  /** Sorted and stable leave one possibility only, so the two facts fix the result. */
  lemma {:induction false} StableSortIsUnique<T(!new)>(a: seq<Cell<T>>, b: seq<Cell<T>>, u: set<Cell<T>>,
                                                       cmp: (T, T) -> int)
    requires PreorderOn(cmp, u) && Within(a, u) && Within(b, u)
    requires Sorted(a, cmp) && Sorted(b, cmp)
    requires forall x :: x in u ==> ClassOf(a, x, cmp) == ClassOf(b, x, cmp)
    ensures a == b
    decreases |a|
  {
    HeadInClass(a, u, cmp);
    HeadInClass(b, u, cmp);
    if a != [] && b != [] {
      SameHead(a, b, u, cmp);
      forall x | x in u ensures ClassOf(a[1..], x, cmp) == ClassOf(b[1..], x, cmp) {
        ClassStarts(a, x, cmp);
        ClassStarts(b, x, cmp);
        var h := if Same(cmp, x, a[0]) then [a[0]] else [];
        assert (h + ClassOf(a[1..], x, cmp))[|h|..] == ClassOf(a[1..], x, cmp);
        assert (h + ClassOf(b[1..], x, cmp))[|h|..] == ClassOf(b[1..], x, cmp);
      }
      StableSortIsUnique(a[1..], b[1..], u, cmp);
      assert a == [a[0]] + a[1..] && b == [b[0]] + b[1..];
    }
  }
}
