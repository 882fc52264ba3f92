/** Facts about sequences that several components share. */
module Seqs {

  datatype Option<+T> = None | Some(value: T)

  predicate NoDup<T(==)>(s: seq<T>) {
    forall i, j :: 0 <= i < j < |s| ==> s[i] != s[j]
  }

  function Last<T>(s: seq<T>): T
    requires s != []
  {
    s[|s| - 1]
  }

  function Init<T>(s: seq<T>): seq<T>
    requires s != []
  {
    s[..|s| - 1]
  }

  lemma Glue<T>(a: seq<T>, b: seq<T>, c: seq<T>)
    ensures a + (b + c) == (a + b) + c
  {
  }

  lemma GlueNothing<T>(a: seq<T>)
    ensures a + [] == a && [] + a == a
  {
  }

  function Reversed<T>(s: seq<T>): (r: seq<T>)
    ensures |r| == |s|
    ensures forall i :: 0 <= i < |s| ==> r[i] == s[|s| - 1 - i]
  {
    if s == [] then [] else [Last(s)] + Reversed(Init(s))
  }

  /** `a` is what is left of `b` after crossing out some of its elements. */
  predicate Subseq<T(==)>(a: seq<T>, b: seq<T>)
    decreases |b|
  {
    a == [] ||
    (b != [] &&
     ((Last(a) == Last(b) && Subseq(Init(a), Init(b))) || Subseq(a, Init(b))))
  }

  lemma {:induction false} SubseqMember<T>(a: seq<T>, b: seq<T>, x: T)
    requires Subseq(a, b) && x in a
    ensures x in b
    decreases |b|
  {
    if Last(a) == Last(b) && Subseq(Init(a), Init(b)) {
      if x != Last(a) {
        assert a == Init(a) + [Last(a)];
        SubseqMember(Init(a), Init(b), x);
      }
    } else {
      SubseqMember(a, Init(b), x);
    }
  }

  lemma {:induction false} SubseqNoDup<T>(a: seq<T>, b: seq<T>)
    requires Subseq(a, b) && NoDup(b)
    ensures NoDup(a)
    decreases |b|
  {
    if a != [] {
      if Last(a) == Last(b) && Subseq(Init(a), Init(b)) {
        SubseqNoDup(Init(a), Init(b));
        if Last(a) in Init(a) {
          SubseqMember(Init(a), Init(b), Last(a));
          assert false;
        }
        assert a == Init(a) + [Last(a)];
      } else {
        SubseqNoDup(a, Init(b));
      }
    }
  }

  lemma SubseqSnoc<T>(a: seq<T>, b: seq<T>, x: T)
    requires Subseq(a, b)
    ensures Subseq(a, b + [x])
    ensures Subseq(a + [x], b + [x])
  {
    assert Init(b + [x]) == b;
    assert Init(a + [x]) == a;
  }

  /** A sequence without repeats is no longer than any set that holds its elements. */
  lemma {:induction false} Pigeonhole<T>(s: seq<T>, u: set<T>)
    requires NoDup(s)
    requires forall x :: x in s ==> x in u
    ensures |s| <= |u|
  {
    if s != [] {
      assert s == Init(s) + [Last(s)];
      Pigeonhole(Init(s), u - {Last(s)});
    }
  }

  lemma {:induction false} Covering<T>(s: seq<T>, u: set<T>)
    requires forall x :: x in u ==> x in s
    ensures |u| <= |s|
  {
    if s == [] {
      assert u == {};
    } else {
      assert s == Init(s) + [Last(s)];
      Covering(Init(s), u - {Last(s)});
      assert Last(s) !in u ==> u - {Last(s)} == u;
    }
  }
}
