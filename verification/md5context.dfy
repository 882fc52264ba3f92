/** The loops of `md5.c` on a context whose fields are updated in place. */
module Md5Contexts {
  import opened Seqs
  import opened Blocks
  import opened Md5

  // -- The 32-bit loop counter of md5_update -------------------------------------------

  /** Where the block loop of `md5_update` must stop, for `index` bytes buffered. */
  function LastStop(index: nat, n: nat): (i: nat)
    requires index < 64 && 64 - index <= n
    ensures 64 - index <= i <= n < i + 64
  {
    64 - index + (n - (64 - index)) / 64 * 64
  }

  /** The guard `i + 63 < n` in 32-bit unsigned arithmetic. */
  predicate Continues(i: nat, n: nat) {
    (i + 63) % W < n
  }

  /** The input is short enough for the guard to be read as it is meant. */
  predicate GuardSafe(index: nat, n: nat)
    requires index < 64
  {
    n < 64 - index || LastStop(index, n) + 63 < W
  }

  /**
   * At its last stop the block loop of `md5_update` ends if and only if the input is not
   * within 63 bytes of 2^32; beyond that the sum wraps, and the loop runs past the input.
   */
  lemma GuardWraps(index: nat, n: nat)
    requires index < 64 && 64 - index <= n < W
    ensures !Continues(LastStop(index, n), n) <==> GuardSafe(index, n)
    ensures n <= W - 64 ==> GuardSafe(index, n)
  {
    var i := LastStop(index, n);
    if i + 63 < W {
      assert (i + 63) % W == i + 63;
    } else {
      assert (i + 63) % W == i + 63 - W;
    }
  }

  lemma ShortIsSafe(index: nat, n: nat)
    requires index < 64 && n <= W - 64
    ensures GuardSafe(index, n)
  {
  }

  /** The longest input of all does run past its end. */
  lemma LongestInputOverruns()
    ensures Continues(LastStop(1, W - 1), W - 1)
  {
    assert LastStop(1, W - 1) == W - 1;
    assert (W - 1 + 63) % W == 62;
  }

  class Context<S> {
    const transform: (S, seq<byte>) -> S
    var state: S
    var count0: word
    var count1: word
    const buffer: array<byte>

    ghost predicate Valid() {
      buffer.Length == 64
    }

    ghost function Abs(): Ctx<S>
      reads this, buffer
    {
      Ctx(state, count0, count1, buffer[..])
    }

    /** `md5_init`; the buffer is not touched. */
    constructor (transform: (S, seq<byte>) -> S, start: S, buffer: array<byte>)
      requires buffer.Length == 64
      ensures Valid() && this.transform == transform && this.buffer == buffer
      ensures Abs() == Initial(start, buffer[..])
    {
      this.transform, this.buffer := transform, buffer;
      state, count0, count1 := start, 0, 0;
    }

    /** `memcpy` into the buffer */
    method Copy(at: nat, s: seq<byte>)
      requires Valid() && at + |s| <= 64
      modifies buffer
      ensures buffer[..] == Overwritten(old(buffer[..]), at, s)
    {
      forall i | 0 <= i < |s| {
        buffer[at + i] := s[i];
      }
    }

    /** The 64-bit count of bits, in two words. */
    method AddLength(n: nat)
      requires n < W
      modifies this`count0, this`count1
      ensures count0 == Count0(old(Abs()), n) && count1 == Count1(old(Abs()), n)
    {
      count0 := Add(count0, Low(n));
      if count0 < Low(n) {
        count1 := Add(count1, 1);
      }
      count1 := Add(count1, n / 0x2000_0000);
    }

    /** `md5_update`; `overran` says that the block loop went on behind the end of the input. */
    method Update(input: seq<byte>) returns (overran: bool)
      requires Valid() && |input| < W
      modifies this, buffer
      ensures overran <==> !GuardSafe(old(Index(Abs())), |input|)
      ensures !overran ==> Abs() == Absorb(transform, old(Abs()), input)
    {
      var n := |input|;
      var index := count0 / 8 % 64;
      ghost var c := Abs();
      AddLength(n);
      if n >= 64 - index {
        overran := FillAndTransform(input, index);
      } else {
        Copy(index, input);
        overran := false;
      }
      if !overran {
        AbsorbParts(transform, c, input, index, Abs());
      }
    }

    /** What an update leaves, part by part. */
    static lemma AbsorbParts(f: (S, seq<byte>) -> S, c: Ctx<S>, input: seq<byte>, index: nat, r: Ctx<S>)
      requires |c.buffer| == 64 && |input| < W && index == Index(c)
      requires r.count0 == Count0(c, |input|) && r.count1 == Count1(c, |input|)
      requires var n, part := |input|, 64 - index;
               if n < part then r.state == c.state && r.buffer == Overwritten(c.buffer, index, input)
               else
                 var blocks, b := (n - part) / 64, Overwritten(c.buffer, index, input[..part]);
                 && r.state == Fold(f, f(c.state, b), input[part..], blocks)
                 && r.buffer == Overwritten(b, 0, input[part + 64 * blocks..])
      ensures r == Absorb(f, c, input)
    {
    }

    /** An input that fills the buffer at least. */
    method FillAndTransform(input: seq<byte>, index: nat) returns (overran: bool)
      requires Valid() && index < 64 && 64 - index <= |input| < W
      modifies this`state, buffer
      ensures overran <==> !GuardSafe(index, |input|)
      ensures !overran ==>
                var part := 64 - index;
                var blocks := (|input| - part) / 64;
                var b := Overwritten(old(buffer[..]), index, input[..part]);
                && state == Fold(transform, transform(old(state), b), input[part..], blocks)
                && buffer[..] == Overwritten(b, 0, input[part + 64 * blocks..])
    {
      var part := 64 - index;
      Copy(index, input[..part]);
      var i;
      i, overran := TransformBlocks(input, part, index);
      if !overran {
        Copy(0, input[i..]);
      }
    }

    /** The transforms of `md5_update`: the filled buffer, then blocks of the input itself. */
    method TransformBlocks(input: seq<byte>, part: nat, index: nat) returns (i: nat, overran: bool)
      requires Valid() && index < 64 && part == 64 - index <= |input| < W
      modifies this`state
      ensures overran <==> !GuardSafe(index, |input|)
      ensures var blocks := (|input| - part) / 64;
              && i == part + 64 * blocks
              && state == Fold(transform, transform(old(state), buffer[..]), input[part..], blocks)
    {
      var n := |input|;
      ghost var blocks := (n - part) / 64;
      state := transform(state, buffer[..]);
      ghost var s1 := state;
      i := part;
      ghost var j := 0;
      while (i + 63) % W < n
        invariant 0 <= j <= blocks && i == part + 64 * j
        invariant state == Fold(transform, s1, input[part..], j)
        decreases blocks - j
      {
        GuardMeans(i, index, n, j);
        if i + 64 > n {
          return i, true;
        }
        assert input[part..][64 * j..64 * (j + 1)] == input[i..i + 64];
        state := transform(state, input[i..i + 64]);
        i := i + 64;
        j := j + 1;
      }
      GuardMeans(i, index, n, j);
      overran := false;
    }

    /** The loop goes on exactly while a whole block is left, or if its guard wraps. */
    static lemma GuardMeans(i: nat, index: nat, n: nat, j: nat)
      requires index < 64 && 64 - index <= n < W
      requires i == 64 - index + 64 * j && j <= (n - (64 - index)) / 64
      ensures (i + 63) % W < n <==> j < (n - (64 - index)) / 64 || !GuardSafe(index, n)
      ensures i + 64 <= n <==> j < (n - (64 - index)) / 64
    {
      if j < (n - (64 - index)) / 64 {
        assert (i + 63) % W == i + 63;
      } else {
        assert i == LastStop(index, n);
        GuardWraps(index, n);
      }
    }

    /** The two updates of `md5_final`. */
    method Finish()
      requires Valid()
      modifies this, buffer
      ensures Abs() == Finished(transform, old(Abs()))
    {
      ghost var c := Abs();
      var bits := LittleEndian(count0, 4) + LittleEndian(count1, 4);
      var index := count0 / 8 % 64;
      var padLength := if index < 56 then 56 - index else 120 - index;
      assert padLength == PadLength(c) && bits == Bits(c);
      ShortIsSafe(Index(c), padLength);
      var overran := Update(PADDING[..padLength]);
      ShortIsSafe(Index(Abs()), 8);
      overran := Update(bits);
    }
  }

  // -- The loops on words --------------------------------------------------------------

  lemma FourBytes(w: word)
    ensures LittleEndian(w, 4) == [w % 256, w / 0x100 % 256, w / 0x1_0000 % 256, w / 0x100_0000 % 256]
  {
    assert w / 0x100 / 256 == w / 0x1_0000 && w / 0x1_0000 / 256 == w / 0x100_0000;
    assert LittleEndian(w / 0x100_0000 / 256, 0) == [];
    assert LittleEndian(w / 0x100_0000, 1) == [w / 0x100_0000 % 256];
    assert LittleEndian(w / 0x1_0000, 2) == [w / 0x1_0000 % 256] + LittleEndian(w / 0x100_0000, 1);
    assert LittleEndian(w / 0x100, 3) == [w / 0x100 % 256] + LittleEndian(w / 0x1_0000, 2);
  }

  lemma DecodeEncoded(w: word)
    ensures WordAt(LittleEndian(w, 4), 0) == w
  {
    FourBytes(w);
    BytesAddUp(w);
  }

  lemma BytesAddUp(w: word)
    ensures w == w % 256 + 0x100 * (w / 0x100 % 256) + 0x1_0000 * (w / 0x1_0000 % 256)
                 + 0x100_0000 * (w / 0x100_0000 % 256)
  {
    assert w / 0x100 == w / 0x100 % 256 + 0x100 * (w / 0x1_0000);
    assert w / 0x1_0000 == w / 0x1_0000 % 256 + 0x100 * (w / 0x100_0000);
  }

  function EncodedAll(ws: seq<word>): seq<byte> {
    if ws == [] then [] else EncodedAll(Init(ws)) + LittleEndian(Last(ws), 4)
  }

  /** `md5_encode` */
  method Encode(input: seq<word>) returns (output: seq<byte>)
    ensures output == EncodedAll(input)
  {
    output := [];
    var i := 0;
    assert input[..0] == [];
    while i < |input|
      invariant 0 <= i <= |input| && output == EncodedAll(input[..i])
    {
      var w := input[i];
      FourBytes(w);
      output := output + [w % 256, w / 0x100 % 256, w / 0x1_0000 % 256, w / 0x100_0000 % 256];
      assert Init(input[..i + 1]) == input[..i];
      i := i + 1;
    }
    assert input[..i] == input;
  }

  /** `md5_decode` of a block */
  method DecodeBlock(block: seq<byte>) returns (x: seq<word>)
    requires |block| == 64
    ensures x == Decode(block)
  {
    x := [];
    var i, j := 0, 0;
    while j < 64
      invariant j == 4 * i && |x| == i <= 16
      invariant forall k :: 0 <= k < i ==> x[k] == WordAt(block, 4 * k)
    {
      x := x + [WordAt(block, j)];
      i, j := i + 1, j + 4;
    }
  }

  /** `md5_transform`, its 64 unrolled operations as a loop over their table. */
  method TransformInPlace(r: Regs, block: seq<byte>) returns (q: Regs)
    requires |block| == 64
    ensures q == Transform(r, block)
  {
    var x := DecodeBlock(block);
    q := r;
    var i := 0;
    while i < 64
      invariant 0 <= i <= 64 && q == Operations(i, r, x)
    {
      q := Operation(i, q, x);
      i := i + 1;
    }
    q := Regs(Add(r.a, q.a), Add(r.b, q.b), Add(r.c, q.c), Add(r.d, q.d));
  }

  /** `md5_final`: the digest, and a context wiped afterwards. */
  method Final(c: Context<Regs>) returns (digest: seq<byte>)
    requires c.Valid() && c.transform == Compress
    modifies c, c.buffer
    ensures digest == Encoded(Finished(Compress, old(c.Abs())).state)
    ensures c.Abs() == Ctx(Regs(0, 0, 0, 0), 0, 0, Zeros(64))
  {
    c.Finish();
    var s := c.state;
    digest := Encode([s.a, s.b, s.c, s.d]);
    EncodedRegs(s);
    Wipe(c);
  }

  /** `memset` of the whole context */
  method Wipe(c: Context<Regs>)
    requires c.Valid()
    modifies c, c.buffer
    ensures c.Abs() == Ctx(Regs(0, 0, 0, 0), 0, 0, Zeros(64))
  {
    c.state, c.count0, c.count1 := Regs(0, 0, 0, 0), 0, 0;
    forall i | 0 <= i < 64 {
      c.buffer[i] := 0;
    }
    assert c.buffer[..] == Zeros(64);
  }

  /** Every chunk is short enough for the guard, at the index where it finds the buffer. */
  predicate AllSafe(chunks: seq<seq<byte>>) { SafeBelow(chunks, |chunks|) }

  predicate SafeBelow(chunks: seq<seq<byte>>, n: nat)
    requires n <= |chunks|
  {
    forall i :: 0 <= i < n ==> SafeAt(chunks, i)
  }

  lemma SafeMore(chunks: seq<seq<byte>>, n: nat)
    requires n < |chunks| && SafeBelow(chunks, n)
    ensures SafeBelow(chunks, n + 1) <==> SafeAt(chunks, n)
    ensures !SafeAt(chunks, n) ==> !AllSafe(chunks)
  {
  }

  predicate SafeAt(chunks: seq<seq<byte>>, i: nat)
    requires i < |chunks|
  {
    GuardSafe(|Concat(chunks[..i])| % 64, |chunks[i]|)
  }

  lemma ConcatSnoc(chunks: seq<seq<byte>>, i: nat)
    requires i < |chunks|
    ensures Concat(chunks[..i + 1]) == Concat(chunks[..i]) + chunks[i]
  {
    assert Init(chunks[..i + 1]) == chunks[..i];
  }

  /** An update of a context that stands for the message `m`. */
  method FeedChunk(c: Context<Regs>, ghost m: seq<byte>, chunk: seq<byte>) returns (overran: bool)
    requires c.Valid() && c.transform == Compress && |chunk| < W
    requires Holds(Compress, START, c.Abs(), m)
    modifies c, c.buffer
    ensures overran <==> !GuardSafe(|m| % 64, |chunk|)
    ensures !overran ==> Holds(Compress, START, c.Abs(), m + chunk)
  {
    BytesFromBits(|m|);
    AbsorbExtends(Compress, START, c.Abs(), m, chunk);
    overran := c.Update(chunk);
  }

  /** A context opened, fed chunk by chunk, and closed, as the callers of the three functions do. */
  method DigestChunks(buffer: array<byte>, chunks: seq<seq<byte>>) returns (overran: bool, digest: seq<byte>)
    requires buffer.Length == 64 && forall i :: 0 <= i < |chunks| ==> |chunks[i]| < W
    modifies buffer
    ensures overran <==> !AllSafe(chunks)
    ensures !overran ==> digest == Digest(Concat(chunks))
  {
    var c := new Context(Compress, START, buffer);
    overran, digest := false, [];
    var i := 0;
    while i < |chunks|
      invariant i <= |chunks| && c.Valid() && c.buffer == buffer && c.transform == Compress
      invariant Holds(Compress, START, c.Abs(), Concat(chunks[..i]))
      invariant SafeBelow(chunks, i)
    {
      overran := FeedChunk(c, Concat(chunks[..i]), chunks[i]);
      SafeMore(chunks, i);
      if overran {
        return;
      }
      ConcatSnoc(chunks, i);
      i := i + 1;
    }
    assert chunks[..i] == chunks;
    FinishedIsOneShot(Compress, START, c.Abs(), Concat(chunks));
    digest := Final(c);
  }

  lemma EncodedRegs(s: Regs)
    ensures EncodedAll([s.a, s.b, s.c, s.d]) == Encoded(s)
  {
    EncodedSnoc([s.a], s.b);
    EncodedSnoc([s.a, s.b], s.c);
    EncodedSnoc([s.a, s.b, s.c], s.d);
    EncodedSnoc([], s.a);
    FourSnocs(s.a, s.b, s.c, s.d);
  }

  lemma FourSnocs<T>(a: T, b: T, c: T, d: T)
    ensures [] + [a] == [a] && [a] + [b] == [a, b]
    ensures [a, b] + [c] == [a, b, c] && [a, b, c] + [d] == [a, b, c, d]
  {
  }

  lemma EncodedSnoc(ws: seq<word>, w: word)
    ensures EncodedAll(ws + [w]) == EncodedAll(ws) + LittleEndian(w, 4)
  {
    assert Init(ws + [w]) == ws;
  }
}
