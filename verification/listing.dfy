/** The comparator for directory listings and the listings it puts in order. */
module Listing {
  import opened Seqs
  import opened Decimal
  import opened BubbleSort

  /** `strcmp` */
  function StrCmp(a: string, b: string): int {
    if a == "" then (if b == "" then 0 else -1)
    else if b == "" then 1
    else if a[0] != b[0] then a[0] as int - b[0] as int
    else StrCmp(a[1..], b[1..])
  }

  /** The names the comparator takes for numbers. */
  predicate Numeric(s: string) {
    IsInteger(s) && (s == "" || s[0] != '-')
  }

  /** `dyna_sort_listing_comparator` */
  function Compare(l: string, r: string): int {
    if Numeric(l) && Numeric(r) then
      var a, b := Atol(l), Atol(r);
      if a < b then -1 else if a > b then 1 else 0
    else StrCmp(l, r)
  }

  /** A listing of numbers ends in numeric order, equal numbers as they stood. */
  lemma NumericListing(s: seq<Cell<string>>)
    requires forall c :: c in s ==> Numeric(c.data)
    ensures var r := BubbleSorted(s, Compare);
            && multiset(r) == multiset(s)
            && (forall i, j :: 0 <= i < j < |r| ==> Atol(r[i].data) <= Atol(r[j].data))
            && (forall x :: x in s ==> ClassOf(r, x, Compare) == ClassOf(s, x, Compare))
  {
    var r := BubbleSorted(s, Compare);
    SortPermutes(s, Compare);
    SortIsStable(s, Compare);
    forall i, j | 0 <= i < j < |r| ensures Atol(r[i].data) <= Atol(r[j].data) {
      assert r[i] in multiset(r) && r[j] in multiset(r);
      assert Le(Compare, r[i], r[j]);
    }
  }

  lemma {:induction false} StrCmpTotal(a: string, b: string)
    ensures StrCmp(a, b) <= 0 || StrCmp(b, a) <= 0
    ensures StrCmp(a, b) == 0 <==> a == b
  {
    if a != "" && b != "" && a[0] == b[0] {
      StrCmpTotal(a[1..], b[1..]);
      assert a == [a[0]] + a[1..] && b == [b[0]] + b[1..];
    }
  }

  lemma {:induction false} StrCmpTransitive(a: string, b: string, c: string)
    requires StrCmp(a, b) <= 0 && StrCmp(b, c) <= 0
    ensures StrCmp(a, c) <= 0
  {
    if a != "" && b != "" && c != "" && a[0] == b[0] == c[0] {
      StrCmpTransitive(a[1..], b[1..], c[1..]);
    }
  }

  /** What `strcmp` says the other way round. */
  lemma {:induction false} StrCmpAntisymmetric(a: string, b: string)
    ensures StrCmp(a, b) > 0 <==> StrCmp(b, a) < 0
  {
    if a != "" && b != "" && a[0] == b[0] {
      StrCmpAntisymmetric(a[1..], b[1..]);
    }
  }

  // -- Mixed listings ----------------------------------------------------------------

  /** A name `z` that is no number stands between two numbers, behind the greater one. */
  predicate Circle(x: string, y: string, z: string) {
    && Numeric(x) && Numeric(y) && !Numeric(z)
    && Atol(x) <= Atol(y) && StrCmp(y, z) <= 0 && StrCmp(z, x) <= 0
  }

  ghost predicate NoCircle(u: set<Cell<string>>) {
    forall x, y, z :: x in u && y in u && z in u ==> !Circle(x.data, y.data, z.data)
  }

  lemma NoCircleIsTransitive(x: string, y: string, z: string)
    requires Compare(x, y) <= 0 && Compare(y, z) <= 0
    requires !Circle(x, y, z) && !Circle(y, z, x) && !Circle(z, x, y)
    ensures Compare(x, z) <= 0
  {
    StrCmpTotal(x, z);
    StrCmpTotal(x, y);
    StrCmpTotal(y, z);
    if StrCmp(x, y) <= 0 && StrCmp(y, z) <= 0 {
      StrCmpTransitive(x, y, z);
    }
    if StrCmp(y, z) <= 0 && StrCmp(z, x) <= 0 {
      StrCmpTransitive(y, z, x);
    }
    if StrCmp(z, x) <= 0 && StrCmp(x, y) <= 0 {
      StrCmpTransitive(z, x, y);
    }
    StrCmpAntisymmetric(x, z);
  }

  lemma CompareTotal(x: string, y: string)
    ensures Compare(x, y) <= 0 || Compare(y, x) <= 0
  {
    StrCmpTotal(x, y);
  }

  lemma CircleIsNoOrder(x: string, y: string, z: string)
    requires Circle(x, y, z)
    ensures Compare(x, y) <= 0 && Compare(y, z) <= 0 && Compare(x, z) > 0
  {
    StrCmpTotal(z, x);
    StrCmpAntisymmetric(x, z);
  }

  /** The comparator orders a set of names exactly when no name makes a circle with two numbers. */
  lemma OrderExactly(u: set<Cell<string>>)
    ensures PreorderOn(Compare, u) <==> NoCircle(u)
  {
    if NoCircle(u) {
      forall x, y | x in u && y in u ensures Le(Compare, x, y) || Le(Compare, y, x) {
        CompareTotal(x.data, y.data);
      }
      forall x, y, z | x in u && y in u && z in u && Le(Compare, x, y) && Le(Compare, y, z)
        ensures Le(Compare, x, z)
      {
        NoCircleIsTransitive(x.data, y.data, z.data);
      }
    } else {
      var x, y, z :| x in u && y in u && z in u && Circle(x.data, y.data, z.data);
      CircleIsNoOrder(x.data, y.data, z.data);
      assert Le(Compare, x, y) && Le(Compare, y, z) && !Le(Compare, x, z);
    }
  }

  /** A listing of three names in a circle is left as it stands, and that is not in order. */
  lemma CircleStays(x: Cell<string>, y: Cell<string>, z: Cell<string>)
    requires Circle(x.data, y.data, z.data)
    ensures BubbleSorted([x, y, z], Compare) == [x, y, z]
    ensures !Sorted([x, y, z], Compare)
  {
    CircleIsNoOrder(x.data, y.data, z.data);
    var s := [x, y, z];
    assert PassTo(s, 0, Compare) == s;
    assert PassTo(s, 1, Compare) == s;
    assert PassTo(s, 2, Compare) == s;
    assert Passes(s, 0, Compare) == s;
    assert Passes(s, 1, Compare) == s;
    assert Passes(s, 2, Compare) == s;
    assert Passes(s, 3, Compare) == s;
    assert Le(Compare, s[0], s[2]) == Le(Compare, x, z);
  }

  ghost predicate AlwaysInOrder(u: set<Cell<string>>) {
    forall s :: Within(s, u) ==> Sorted(BubbleSorted(s, Compare), Compare)
  }

  lemma CircleInListing(u: set<Cell<string>>, x: Cell<string>, y: Cell<string>, z: Cell<string>)
    requires x in u && y in u && z in u && Circle(x.data, y.data, z.data)
    ensures !AlwaysInOrder(u)
  {
    CircleStays(x, y, z);
    var s := [x, y, z];
    assert Within(s, u) && !Sorted(BubbleSorted(s, Compare), Compare);
  }

  /**
   * Which names can be listed: every listing of them, in any order and with repeats, ends
   * in order if and only if no name makes a circle with two numbers.
   */
  lemma ListingsExactly(u: set<Cell<string>>)
    ensures AlwaysInOrder(u) <==> NoCircle(u)
  {
    if NoCircle(u) {
      forall s | Within(s, u) ensures Sorted(BubbleSorted(s, Compare), Compare) {
        MixedListing(s, u);
      }
    } else {
      var x, y, z :| x in u && y in u && z in u && Circle(x.data, y.data, z.data);
      CircleInListing(u, x, y, z);
    }
  }

  /** A listing of names without a circle, mixed or not, ends in order, equal names as they stood. */
  lemma MixedListing(s: seq<Cell<string>>, u: set<Cell<string>>)
    requires NoCircle(u) && Within(s, u)
    ensures var r := BubbleSorted(s, Compare);
            && multiset(r) == multiset(s)
            && Sorted(r, Compare)
            && forall x :: x in s ==> ClassOf(r, x, Compare) == ClassOf(s, x, Compare)
  {
    var v := set x | x in s;
    assert forall x :: x in v ==> x in u;
    assert NoCircle(v);
    OrderExactly(v);
    SortPermutes(s, Compare);
    SortIsStable(s, Compare);
  }

  /** A listing in which no name is a number ends in the order of `strcmp`. */
  lemma PlainListing(s: seq<Cell<string>>)
    requires forall c :: c in s ==> !Numeric(c.data)
    ensures var r := BubbleSorted(s, Compare);
            && multiset(r) == multiset(s)
            && (forall i, j :: 0 <= i < j < |r| ==> StrCmp(r[i].data, r[j].data) <= 0)
  {
    var u := set x | x in s;
    MixedListing(s, u);
    var r := BubbleSorted(s, Compare);
    forall i, j | 0 <= i < j < |r| ensures StrCmp(r[i].data, r[j].data) <= 0 {
      assert r[i] in multiset(r) && r[j] in multiset(r);
      assert Le(Compare, r[i], r[j]);
    }
  }

  lemma MixedCycle()
    ensures Compare("9", "10") < 0 && Compare("10", "1a") < 0 && Compare("1a", "9") < 0
    ensures Compare("10", "9") > 0 && Compare("1a", "10") > 0 && Compare("9", "1a") > 0
  {
    assert Init("10") == "1" && Init("1") == "" && Init("9") == "";
    assert Leading("9") == "9" by { LeadingOf("9", ""); assert "9" + "" == "9"; }
    assert Leading("10") == "10" by { LeadingOf("10", ""); assert "10" + "" == "10"; }
    assert Number("1") == 1 && Number("10") == 10 && Number("9") == 9;
    assert !IsDigit("1a"[1]);
    assert "10"[1..] == "0" && "1a"[1..] == "a";
  }

  lemma CycleIsNeverSorted(r: seq<Cell<string>>, x: Cell<string>, y: Cell<string>, z: Cell<string>)
    requires x in r && y in r && z in r
    requires Le(Compare, x, y) && !Le(Compare, y, x)
    requires Le(Compare, y, z) && !Le(Compare, z, y)
    requires Le(Compare, z, x) && !Le(Compare, x, z)
    ensures !Sorted(r, Compare)
  {
    var i :| 0 <= i < |r| && r[i] == x;
    var j :| 0 <= j < |r| && r[j] == y;
    var k :| 0 <= k < |r| && r[k] == z;
    assert i != j && j != k && k != i;
  }

  /**
   * With numbers and other names mixed the comparator can run in a circle: no arrangement
   * of a listing that holds 9, 10 and 1a is in order, so the sort cannot end with one.
   */
  lemma MixedListingHasNoOrder(s: seq<Cell<string>>, x: Cell<string>, y: Cell<string>, z: Cell<string>)
    requires x in s && y in s && z in s
    requires x.data == "9" && y.data == "10" && z.data == "1a"
    ensures !Sorted(BubbleSorted(s, Compare), Compare)
  {
    var r := BubbleSorted(s, Compare);
    SortPermutes(s, Compare);
    MixedCycle();
    assert x in multiset(r) && y in multiset(r) && z in multiset(r);
    CycleIsNeverSorted(r, x, y, z);
  }
}
