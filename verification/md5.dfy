/**
 * The streaming MD5 of `md5.c` against the one-shot digest of sections 3.1 to 3.5 of
 * RFC 1321.
 */
module Md5 {
  import opened Blocks

  type nibble = n: nat | n < 16
  type shift = n: nat | 0 < n < 32 witness 1

  // -- The block transform (section 3.4) ---------------------------------------------

  function F(x: word, y: word, z: word): word {
    (((x as bv32) & (y as bv32)) | ((!(x as bv32)) & (z as bv32))) as nat
  }

  function G(x: word, y: word, z: word): word {
    (((x as bv32) & (z as bv32)) | ((y as bv32) & (!(z as bv32)))) as nat
  }

  function H(x: word, y: word, z: word): word {
    ((x as bv32) ^ (y as bv32) ^ (z as bv32)) as nat
  }

  function I(x: word, y: word, z: word): word {
    ((y as bv32) ^ ((x as bv32) | (!(z as bv32)))) as nat
  }

  function RotateLeft(x: word, s: shift): word {
    (((x as bv32) << s) | ((x as bv32) >> (32 - s))) as nat
  }

  /** The message word, the shift and the constant of each of the 64 operations. */
  const WORDS1: seq<nibble> := [0, 1, 2, 3, 4, 5, 6, 7, 8, 9, 10, 11, 12, 13, 14, 15]
  const WORDS2: seq<nibble> := [1, 6, 11, 0, 5, 10, 15, 4, 9, 14, 3, 8, 13, 2, 7, 12]
  const WORDS3: seq<nibble> := [5, 8, 11, 14, 1, 4, 7, 10, 13, 0, 3, 6, 9, 12, 15, 2]
  const WORDS4: seq<nibble> := [0, 7, 14, 5, 12, 3, 10, 1, 8, 15, 6, 13, 4, 11, 2, 9]

  function WordOf(i: nat): nibble
    requires i < 64
  {
    if i < 16 then WORDS1[i] else if i < 32 then WORDS2[i - 16] else if i < 48 then WORDS3[i - 32] else WORDS4[i - 48]
  }

  const SHIFTS: seq<shift> := [7, 12, 17, 22, 5, 9, 14, 20, 4, 11, 16, 23, 6, 10, 15, 21]

  const CONSTANTS: seq<word> := [
    0xd76aa478, 0xe8c7b756, 0x242070db, 0xc1bdceee, 0xf57c0faf, 0x4787c62a, 0xa8304613, 0xfd469501,
    0x698098d8, 0x8b44f7af, 0xffff5bb1, 0x895cd7be, 0x6b901122, 0xfd987193, 0xa679438e, 0x49b40821,
    0xf61e2562, 0xc040b340, 0x265e5a51, 0xe9b6c7aa, 0xd62f105d, 0x02441453, 0xd8a1e681, 0xe7d3fbc8,
    0x21e1cde6, 0xc33707d6, 0xf4d50d87, 0x455a14ed, 0xa9e3e905, 0xfcefa3f8, 0x676f02d9, 0x8d2a4c8a,
    0xfffa3942, 0x8771f681, 0x6d9d6122, 0xfde5380c, 0xa4beea44, 0x4bdecfa9, 0xf6bb4b60, 0xbebfbc70,
    0x289b7ec6, 0xeaa127fa, 0xd4ef3085, 0x04881d05, 0xd9d4d039, 0xe6db99e5, 0x1fa27cf8, 0xc4ac5665,
    0xf4292244, 0x432aff97, 0xab9423a7, 0xfc93a039, 0x655b59c3, 0x8f0ccc92, 0xffeff47d, 0x85845dd1,
    0x6fa87e4f, 0xfe2ce6e0, 0xa3014314, 0x4e0811a1, 0xf7537e82, 0xbd3af235, 0x2ad7d2bb, 0xeb86d391]

  lemma Words2FollowTheStandard(i: nat)
    requires i < 16
    ensures WORDS2[i] == (5 * (i + 16) + 1) % 16
  {
    assert WORDS2[0] == 1 && WORDS2[1] == 6 && WORDS2[2] == 11 && WORDS2[3] == 0
           && WORDS2[4] == 5 && WORDS2[5] == 10 && WORDS2[6] == 15 && WORDS2[7] == 4;
    assert WORDS2[8] == 9 && WORDS2[9] == 14 && WORDS2[10] == 3 && WORDS2[11] == 8
           && WORDS2[12] == 13 && WORDS2[13] == 2 && WORDS2[14] == 7 && WORDS2[15] == 12;
  }

  lemma Words3FollowTheStandard(i: nat)
    requires i < 16
    ensures WORDS3[i] == (3 * (i + 32) + 5) % 16
  {
    assert WORDS3[0] == 5 && WORDS3[1] == 8 && WORDS3[2] == 11 && WORDS3[3] == 14
           && WORDS3[4] == 1 && WORDS3[5] == 4 && WORDS3[6] == 7 && WORDS3[7] == 10;
    assert WORDS3[8] == 13 && WORDS3[9] == 0 && WORDS3[10] == 3 && WORDS3[11] == 6
           && WORDS3[12] == 9 && WORDS3[13] == 12 && WORDS3[14] == 15 && WORDS3[15] == 2;
  }

  lemma Words4FollowTheStandard(i: nat)
    requires i < 16
    ensures WORDS4[i] == (7 * (i + 48)) % 16
  {
    assert WORDS4[0] == 0 && WORDS4[1] == 7 && WORDS4[2] == 14 && WORDS4[3] == 5
           && WORDS4[4] == 12 && WORDS4[5] == 3 && WORDS4[6] == 10 && WORDS4[7] == 1;
    assert WORDS4[8] == 8 && WORDS4[9] == 15 && WORDS4[10] == 6 && WORDS4[11] == 13
           && WORDS4[12] == 4 && WORDS4[13] == 11 && WORDS4[14] == 2 && WORDS4[15] == 9;
  }

  /** The words are taken in the order of section 3.4, round by round. */
  lemma WordsFollowTheStandard(i: nat)
    requires i < 64
    ensures WordOf(i) == if i < 16 then i else if i < 32 then (5 * i + 1) % 16
                         else if i < 48 then (3 * i + 5) % 16 else (7 * i) % 16
  {
    if i < 16 {
    } else if i < 32 {
      Words2FollowTheStandard(i - 16);
    } else if i < 48 {
      Words3FollowTheStandard(i - 32);
    } else {
      Words4FollowTheStandard(i - 48);
    }
  }

  datatype Regs = Regs(a: word, b: word, c: word, d: word)

  /** Operation `i`; afterwards the register it changed is called b, as the next one expects. */
  function Operation(i: nat, r: Regs, x: seq<word>): Regs
    requires i < 64 && |x| == 16
  {
    var f := if i < 16 then F(r.b, r.c, r.d) else if i < 32 then G(r.b, r.c, r.d)
             else if i < 48 then H(r.b, r.c, r.d) else I(r.b, r.c, r.d);
    var sum := Add(r.a, Add(Add(f, x[WordOf(i)]), CONSTANTS[i]));
    Regs(r.d, Add(RotateLeft(sum, SHIFTS[i / 16 * 4 + i % 4]), r.b), r.b, r.c)
  }

  function Operations(n: nat, r: Regs, x: seq<word>): Regs
    requires n <= 64 && |x| == 16
  {
    if n == 0 then r else Operation(n - 1, Operations(n - 1, r, x), x)
  }

  function WordAt(block: seq<byte>, j: nat): word
    requires j + 4 <= |block|
  {
    var b0: nat, b1: nat, b2: nat, b3: nat := block[j], block[j + 1], block[j + 2], block[j + 3];
    b0 + 0x100 * b1 + 0x1_0000 * b2 + 0x100_0000 * b3
  }

  /** `md5_decode` of a block */
  function Decode(block: seq<byte>): (x: seq<word>)
    requires |block| == 64
    ensures |x| == 16
  {
    seq(16, i requires 0 <= i < 16 => WordAt(block, 4 * i))
  }

  /** `md5_transform` */
  function Transform(r: Regs, block: seq<byte>): Regs
    requires |block| == 64
  {
    var q := Operations(64, r, Decode(block));
    Regs(Add(r.a, q.a), Add(r.b, q.b), Add(r.c, q.c), Add(r.d, q.d))
  }

  const START := Regs(0x67452301, 0xefcdab89, 0x98badcfe, 0x10325476)

  function Encoded(r: Regs): seq<byte> {
    LittleEndian(r.a, 4) + LittleEndian(r.b, 4) + LittleEndian(r.c, 4) + LittleEndian(r.d, 4)
  }

  /** The block transform on any input; only blocks of 64 bytes are ever given to it. */
  function Compress(r: Regs, block: seq<byte>): Regs {
    if |block| == 64 then Transform(r, block) else r
  }

  function Digest(m: seq<byte>): seq<byte> {
    Encoded(OneShot(Compress, START, m))
  }

  /**
   * For every way of cutting a message into chunks, what the streaming context ends with is
   * the digest of the message in one piece.
   */
  lemma StreamingDigest(garbage: seq<byte>, chunks: seq<seq<byte>>)
    requires |garbage| == 64 && forall i :: 0 <= i < |chunks| ==> |chunks[i]| < W
    ensures var c := AbsorbAll(Compress, Initial(START, garbage), chunks);
            Encoded(Finished(Compress, c).state) == Digest(Concat(chunks))
  {
    ChunksDoNotMatter(Compress, START, garbage, chunks);
    FinishedIsOneShot(Compress, START, AbsorbAll(Compress, Initial(START, garbage), chunks), Concat(chunks));
  }
}
