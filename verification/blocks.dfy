/**
 * A digest that works on 64-byte blocks: the streaming context of `md5.c` against padding
 * and folding in one piece. What is done with a block is a parameter of the argument.
 */
module Blocks {
  import opened Seqs

  const W: nat := 0x1_0000_0000
  const WW: nat := 0x1_0000_0000_0000_0000

  type byte = n: nat | n < 256
  type word = n: nat | n < 0x1_0000_0000

  function Add(x: word, y: word): word { (x + y) % W }

  /** Little-endian, `n` bytes. */
  function LittleEndian(v: nat, n: nat): (s: seq<byte>)
    ensures |s| == n
  {
    if n == 0 then [] else [v % 256] + LittleEndian(v / 256, n - 1)
  }

  /** The transform folded over the first `n` blocks of a text. */
  function Fold<S>(f: (S, seq<byte>) -> S, r: S, data: seq<byte>, n: nat): S
    requires 64 * n <= |data|
  {
    if n == 0 then r else f(Fold(f, r, data, n - 1), data[64 * (n - 1)..64 * n])
  }

  // -- The digest in one piece (sections 3.1, 3.2, 3.3, 3.5) --------------------------

  function Zeros(n: nat): (s: seq<byte>)
    ensures |s| == n
  {
    seq(n, _ => 0)
  }

  /** One bit, then zero bits up to 448 modulo 512, then the length in bits as 64 bits. */
  function Padded(m: seq<byte>): seq<byte> {
    m + ([0x80] + Zeros((119 - |m| % 64) % 64)) + LittleEndian(8 * |m| % WW, 8)
  }

  // -- The context -------------------------------------------------------------------

  datatype Ctx<S> = Ctx(state: S, count0: word, count1: word, buffer: seq<byte>)

  /** `md5_init`; the buffer keeps whatever it held. */
  function Initial<S>(start: S, garbage: seq<byte>): Ctx<S> {
    Ctx(start, 0, 0, garbage)
  }

  function Index<S>(c: Ctx<S>): nat { c.count0 / 8 % 64 }

  function Low(n: nat): word { 8 * n % W }

  /** The two counters after `n` more bytes, with the carry detected as the code does. */
  function Count0<S>(c: Ctx<S>, n: nat): word { Add(c.count0, Low(n)) }

  function Count1<S>(c: Ctx<S>, n: nat): word
    requires n < W
  {
    var carried := if Count0(c, n) < Low(n) then Add(c.count1, 1) else c.count1;
    Add(carried, n / 0x2000_0000)
  }

  function Overwritten(b: seq<byte>, at: nat, s: seq<byte>): (r: seq<byte>)
    requires at + |s| <= |b|
    ensures |r| == |b|
  {
    b[..at] + s + b[at + |s|..]
  }

  /** `md5_update` */
  function Absorb<S>(f: (S, seq<byte>) -> S, c: Ctx<S>, input: seq<byte>): (r: Ctx<S>)
    requires |c.buffer| == 64 && |input| < W
    ensures |r.buffer| == 64
  {
    var index, n := Index(c), |input|;
    var part := 64 - index;
    if n < part then
      Ctx(c.state, Count0(c, n), Count1(c, n), Overwritten(c.buffer, index, input))
    else
      var b := Overwritten(c.buffer, index, input[..part]);
      var blocks := (n - part) / 64;
      var state := Fold(f, f(c.state, b), input[part..], blocks);
      Ctx(state, Count0(c, n), Count1(c, n), Overwritten(b, 0, input[part + 64 * blocks..]))
  }

  /** The context stands for the message `m`. */
  predicate Holds<S(==)>(f: (S, seq<byte>) -> S, start: S, c: Ctx<S>, m: seq<byte>) {
    var blocks := |m| / 64;
    && |c.buffer| == 64
    && c.state == Fold(f, start, m, blocks)
    && c.buffer[..|m| - 64 * blocks] == m[64 * blocks..]
    && c.count0 == 8 * |m| % W
    && c.count1 == 8 * |m| / W % W
  }

  lemma BytesFromBits(L: nat)
    ensures 8 * L % W / 8 % 64 == L % 64
  {
    var q, r := L / 0x2000_0000, L % 0x2000_0000;
    QuotientRemainder(8 * L, q, 8 * r);
    var s, t := r / 64, r % 64;
    Quotient64(L, q * 0x80_0000 + s, t);
  }

  lemma Quotient64(v: nat, q: nat, r: nat)
    requires v == 64 * q + r && r < 64
    ensures v / 64 == q && v % 64 == r
  {
  }

  /** The two counters together count bits modulo 2^64, carry and all. */
  lemma CountsAdd<S>(c: Ctx<S>, L: nat, n: nat)
    requires n < W && c.count0 == 8 * L % W && c.count1 == 8 * L / W % W
    ensures Count0(c, n) == 8 * (L + n) % W
    ensures Count1(c, n) == 8 * (L + n) / W % W
  {
    var q, h := 8 * L / W, n / 0x2000_0000;
    var carry := if Count0(c, n) < Low(n) then 1 else 0;
    CarrySeen(c.count0, Low(n));
    BitSum(8 * L, n, carry);
    ModAdd(q, carry);
    ModAdd(q + carry, h);
  }

  /** A sum has wrapped around exactly if it is less than what was added. */
  lemma CarrySeen(x: word, y: word)
    ensures Add(x, y) < y <==> x + y >= W
    ensures Add(x, y) == if Add(x, y) < y then x + y - W else x + y
  {
  }

  lemma BitSum(v: nat, n: nat, carry: nat)
    requires n < W && carry == if v % W + Low(n) >= W then 1 else 0
    ensures (v + 8 * n) / W == v / W + carry + n / 0x2000_0000
    ensures (v + 8 * n) % W == v % W + Low(n) - carry * W
  {
    var q, h := v / W, n / 0x2000_0000;
    assert 8 * n == h * W + Low(n);
    QuotientRemainder(v + 8 * n, q + carry + h, v % W + Low(n) - carry * W);
  }

  lemma QuotientRemainder(v: nat, q: nat, r: nat)
    requires v == q * W + r && r < W
    ensures v / W == q && v % W == r
  {
  }

  lemma ModAdd(a: nat, b: nat)
    ensures (a % W + b) % W == (a + b) % W
  {
  }

  lemma {:induction false} FoldPrefix<S>(f: (S, seq<byte>) -> S, r: S, a: seq<byte>, b: seq<byte>, n: nat)
    requires 64 * n <= |a|
    ensures Fold(f, r, a + b, n) == Fold(f, r, a, n)
  {
    if n > 0 {
      FoldPrefix(f, r, a, b, n - 1);
      assert (a + b)[64 * (n - 1)..64 * n] == a[64 * (n - 1)..64 * n];
    }
  }

  lemma {:induction false} FoldBehind<S>(f: (S, seq<byte>) -> S, r: S, a: seq<byte>, b: seq<byte>, k: nat, n: nat)
    requires |a| == 64 * k && 64 * n <= |b|
    ensures Fold(f, r, a + b, k + n) == Fold(f, Fold(f, r, a, k), b, n)
  {
    if n == 0 {
      FoldPrefix(f, r, a, b, k);
    } else {
      FoldBehind(f, r, a, b, k, n - 1);
      assert (a + b)[64 * (k + n - 1)..64 * (k + n)] == b[64 * (n - 1)..64 * n];
    }
  }

  /** A rest of less than a block, and what completes it. */
  lemma FoldOneMore<S>(f: (S, seq<byte>) -> S, r: S, m: seq<byte>, more: seq<byte>, k: nat)
    requires 64 * k <= |m| && |m| + |more| == 64 * (k + 1)
    ensures Fold(f, r, m + more, k + 1) == f(Fold(f, r, m, k), m[64 * k..] + more)
  {
    FoldPrefix(f, r, m, more, k);
    assert (m + more)[64 * k..64 * (k + 1)] == m[64 * k..] + more;
  }

  /** One update on a context for `m` gives a context for `m` and the input. */
  lemma AbsorbExtends<S>(f: (S, seq<byte>) -> S, start: S, c: Ctx<S>, m: seq<byte>, input: seq<byte>)
    requires Holds(f, start, c, m) && |input| < W
    ensures Holds(f, start, Absorb(f, c, input), m + input)
  {
    var k, t := |m| / 64, |m| % 64;
    BytesFromBits(|m|);
    CountsAdd(c, |m|, |input|);
    if |input| < 64 - t {
      AbsorbLittle(f, start, c, m, input);
    } else {
      AbsorbMuch(f, start, c, m, input);
    }
  }

  lemma AbsorbLittle<S>(f: (S, seq<byte>) -> S, start: S, c: Ctx<S>, m: seq<byte>, input: seq<byte>)
    requires Holds(f, start, c, m) && |input| < 64 - |m| % 64 && Index(c) == |m| % 64
    ensures var r, all := Absorb(f, c, input), m + input;
            && r.state == Fold(f, start, all, |all| / 64)
            && r.buffer[..|all| - 64 * (|all| / 64)] == all[64 * (|all| / 64)..]
  {
    var k, t := |m| / 64, |m| % 64;
    var all := m + input;
    Quotient64(|all|, k, t + |input|);
    FoldPrefix(f, start, m, input, k);
    assert all[64 * k..] == m[64 * k..] + input;
  }

  lemma AbsorbMuch<S>(f: (S, seq<byte>) -> S, start: S, c: Ctx<S>, m: seq<byte>, input: seq<byte>)
    requires Holds(f, start, c, m) && 64 - |m| % 64 <= |input| < W && Index(c) == |m| % 64
    ensures var r, all := Absorb(f, c, input), m + input;
            && r.state == Fold(f, start, all, |all| / 64)
            && r.buffer[..|all| - 64 * (|all| / 64)] == all[64 * (|all| / 64)..]
  {
    var k, t := |m| / 64, |m| % 64;
    var part := 64 - t;
    var b := Overwritten(c.buffer, t, input[..part]);
    assert b == m[64 * k..] + input[..part];
    BlocksFolded(f, start, m, input, k, part, (|input| - part) / 64);
  }

  /** The block that the input completes, and the blocks behind it. */
  lemma BlocksFolded<S>(f: (S, seq<byte>) -> S, start: S, m: seq<byte>, input: seq<byte>, k: nat, part: nat, j: nat)
    requires |m| == 64 * k + 64 - part && 1 <= part <= 64 && part + 64 * j <= |input| < part + 64 * j + 64
    ensures var all := m + input;
            && |all| / 64 == k + 1 + j && all[64 * (k + 1 + j)..] == input[part + 64 * j..]
            && Fold(f, start, all, k + 1 + j)
               == Fold(f, f(Fold(f, start, m, k), m[64 * k..] + input[..part]), input[part..], j)
  {
    var front, back := m + input[..part], input[part..];
    assert m + input == front + back;
    Quotient64(|m + input|, k + 1 + j, |input| - part - 64 * j);
    FoldOneMore(f, start, m, input[..part], k);
    FoldBehind(f, start, front, back, k + 1, j);
  }

  function Concat(chunks: seq<seq<byte>>): seq<byte> {
    if chunks == [] then [] else Concat(Init(chunks)) + Last(chunks)
  }

  function AbsorbAll<S>(f: (S, seq<byte>) -> S, c: Ctx<S>, chunks: seq<seq<byte>>): (r: Ctx<S>)
    requires |c.buffer| == 64 && forall i :: 0 <= i < |chunks| ==> |chunks[i]| < W
    ensures |r.buffer| == 64
  {
    if chunks == [] then c else Absorb(f, AbsorbAll(f, c, Init(chunks)), Last(chunks))
  }

  /** However a message is cut into chunks, the context stands for the whole message. */
  lemma {:induction false} ChunksDoNotMatter<S>(f: (S, seq<byte>) -> S, start: S, garbage: seq<byte>,
                                                chunks: seq<seq<byte>>)
    requires |garbage| == 64 && forall i :: 0 <= i < |chunks| ==> |chunks[i]| < W
    ensures Holds(f, start, AbsorbAll(f, Initial(start, garbage), chunks), Concat(chunks))
  {
    if chunks != [] {
      ChunksDoNotMatter(f, start, garbage, Init(chunks));
      AbsorbExtends(f, start, AbsorbAll(f, Initial(start, garbage), Init(chunks)), Concat(Init(chunks)), Last(chunks));
    }
  }

  // -- Finishing ---------------------------------------------------------------------

  const PADDING: seq<byte> := [0x80] + Zeros(63)

  function PadLength<S>(c: Ctx<S>): (n: nat)
    ensures 1 <= n <= 64
  {
    if Index(c) < 56 then 56 - Index(c) else 120 - Index(c)
  }

  /** `md5_encode` of the two counters */
  function Bits<S>(c: Ctx<S>): (s: seq<byte>)
    ensures |s| == 8
  {
    LittleEndian(c.count0, 4) + LittleEndian(c.count1, 4)
  }

  /** The last two updates of `md5_final`. */
  function Finished<S>(f: (S, seq<byte>) -> S, c: Ctx<S>): (r: Ctx<S>)
    requires |c.buffer| == 64
    ensures |r.buffer| == 64
  {
    Absorb(f, Absorb(f, c, PADDING[..PadLength(c)]), Bits(c))
  }

  /** All blocks of the padded message, folded in one piece. */
  function OneShot<S>(f: (S, seq<byte>) -> S, start: S, m: seq<byte>): S {
    Fold(f, start, Padded(m), |Padded(m)| / 64)
  }

  function Pow256(n: nat): nat {
    if n == 0 then 1 else 256 * Pow256(n - 1)
  }

  lemma Low256(a: nat, x: nat)
    ensures (a + 256 * x) % 256 == a % 256 && (a + 256 * x) / 256 == a / 256 + x
  {
  }

  lemma {:induction false} LittleEndianSplit(a: nat, b: nat, n: nat, k: nat)
    requires a < Pow256(n)
    ensures LittleEndian(a + Pow256(n) * b, n + k) == LittleEndian(a, n) + LittleEndian(b, k)
  {
    if n == 0 {
      assert a + Pow256(n) * b == b;
    } else {
      var p := Pow256(n - 1);
      assert Pow256(n) * b == 256 * (p * b);
      Low256(a, p * b);
      LittleEndianSplit(a / 256, b, n - 1, k);
    }
  }

  lemma Split64(v: nat)
    ensures v % WW == v / W % W * W + v % W
  {
    var q := v / W;
    var h, l, r := q / W, q % W, v % W;
    assert v == q * W + r && q == h * W + l;
    assert v == h * WW + (l * W + r);
    Remainder64(v, h, l * W + r);
  }

  lemma Remainder64(v: nat, h: nat, x: nat)
    requires v == h * WW + x && x < WW
    ensures v % WW == x
  {
  }

  lemma BitsAreTheLength<S>(c: Ctx<S>, L: nat)
    requires c.count0 == 8 * L % W && c.count1 == 8 * L / W % W
    ensures Bits(c) == LittleEndian(8 * L % WW, 8)
  {
    Split64(8 * L);
    assert Pow256(4) == W by {
      assert Pow256(0) == 1 && Pow256(1) == 256 && Pow256(2) == 0x1_0000 && Pow256(3) == 0x100_0000;
    }
    LittleEndianSplit(c.count0, c.count1, 4, 4);
  }

  lemma PaddingIsStandard<S>(c: Ctx<S>, t: nat)
    requires Index(c) == t < 64
    ensures PADDING[..PadLength(c)] == [0x80] + Zeros((119 - t) % 64)
  {
    assert PadLength(c) == 1 + (119 - t) % 64;
  }

  lemma PadArithmetic(q: nat, t: nat)
    requires t < 64
    ensures (64 * q + t + 1 + (119 - t) % 64 + 8) % 64 == 0
  {
    assert (119 - t) % 64 == if t < 56 then 55 - t else 119 - t;
  }

  /** Padding and length make whole blocks. */
  lemma PaddedIsWhole(m: seq<byte>)
    ensures |Padded(m)| % 64 == 0
  {
    PadArithmetic(|m| / 64, |m| % 64);
    assert |Padded(m)| == |m| + 1 + (119 - |m| % 64) % 64 + 8;
  }

  /** Finishing a context for `m` leaves the state of the whole padded message. */
  lemma FinishedIsOneShot<S>(f: (S, seq<byte>) -> S, start: S, c: Ctx<S>, m: seq<byte>)
    requires Holds(f, start, c, m)
    ensures Finished(f, c).state == OneShot(f, start, m)
  {
    FinishedHolds(f, start, c, m);
    PaddedParts(c, m);
  }

  lemma FinishedHolds<S>(f: (S, seq<byte>) -> S, start: S, c: Ctx<S>, m: seq<byte>)
    requires Holds(f, start, c, m)
    ensures Holds(f, start, Finished(f, c), m + PADDING[..PadLength(c)] + Bits(c))
  {
    var pad := PADDING[..PadLength(c)];
    AbsorbExtends(f, start, c, m, pad);
    AbsorbExtends(f, start, Absorb(f, c, pad), m + pad, Bits(c));
  }

  lemma PaddedParts<S>(c: Ctx<S>, m: seq<byte>)
    requires c.count0 == 8 * |m| % W && c.count1 == 8 * |m| / W % W
    ensures m + PADDING[..PadLength(c)] + Bits(c) == Padded(m)
  {
    BytesFromBits(|m|);
    PaddingIsStandard(c, |m| % 64);
    BitsAreTheLength(c, |m|);
  }
}
