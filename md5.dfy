/**
 * The MD5-like digest of src/md5.c.
 *
 * It follows RFC 1321 (padding and length, sections 3.1-3.2; initial
 * registers, section 3.3; the 64-step compression, section 3.4) with two
 * deviations that are kept here: the rotation table S lists only 48 amounts,
 * so steps 48..63 read whatever the 16 words past the table hold (`beyond`),
 * and each state word is rendered as "%08x", most significant digit first.
 * Words are bv32, so every addition wraps modulo 2^32 as uint32_t does.
 */
module Md5 {

  /** A rotation amount for which C's `(x << n) | (x >> (32 - n))` is defined. */
  type Amount = n: bv32 | 0 < n < 32 witness 1

  type Words64 = s: seq<bv32> | |s| == 64 witness seq(64, _ => 0)
  type Amounts48 = s: seq<Amount> | |s| == 48 witness seq(48, _ => 1)

  /** The 16 words read past the end of S, taken as rotation amounts. */
  type Beyond = s: seq<Amount> | |s| == 16 witness seq(16, _ => 1)

  /** The four chaining words state[0..3]. */
  type State = s: seq<bv32> | |s| == 4 witness [0, 0, 0, 0]

  /** One 64-byte block of the padded message. */
  type Block = s: seq<bv8> | |s| == 64 witness seq(64, _ => 0)

  /** The decoded words x[0..15] of one block. */
  type MessageWords = s: seq<bv32> | |s| == 16 witness seq(16, _ => 0)

  datatype Regs = Regs(a: bv32, b: bv32, c: bv32, d: bv32)

  // ---------------------------------------------------------------------
  // The auxiliary functions and the rotation
  // ---------------------------------------------------------------------

  function F(x: bv32, y: bv32, z: bv32): bv32 { (x & y) | (!x & z) }
  function G(x: bv32, y: bv32, z: bv32): bv32 { (x & z) | (y & !z) }
  function H(x: bv32, y: bv32, z: bv32): bv32 { x ^ y ^ z }
  function I(x: bv32, y: bv32, z: bv32): bv32 { y ^ (x | !z) }

  function RotateLeft(x: bv32, n: Amount): bv32
  {
    (x << n) | (x >> (32 - n))
  }

  /** F selects bitwise: where x is set it agrees with y, elsewhere with z. */
  lemma FSelects(x: bv32, y: bv32, z: bv32)
    ensures F(x, y, z) & x == y & x
    ensures F(x, y, z) & !x == z & !x
  {
  }

  /** G is the same selection steered by z: where z is set it agrees with x, elsewhere with y. */
  lemma GSelects(x: bv32, y: bv32, z: bv32)
    ensures G(x, y, z) & z == x & z
    ensures G(x, y, z) & !z == y & !z
  {
  }

  /** G is F with z as the selector. */
  lemma GIsF(x: bv32, y: bv32, z: bv32)
    ensures G(x, y, z) == F(z, x, y)
  {
  }

  /** H is bitwise parity: swapping any two arguments leaves it unchanged, and xoring z back out leaves x ^ y. */
  lemma HIsParity(x: bv32, y: bv32, z: bv32)
    ensures H(x, y, z) == H(y, x, z) && H(x, y, z) == H(x, z, y)
    ensures H(x, y, z) ^ z == x ^ y
  {
  }

  /** I flips y where z is clear, and where z is set it is y ^ x. */
  lemma ISplits(x: bv32, y: bv32, z: bv32)
    ensures I(x, y, z) & !z == !y & !z
    ensures I(x, y, z) & z == (y ^ x) & z
  {
  }

  /**
   * Rotation: the low n bits of the result are the high n bits of x, and
   * the rest are the low 32 - n bits of x moved up by n.
   */
  lemma RotateLeftSplits(x: bv32, n: Amount)
    ensures RotateLeft(x, n) & ((1 << n) - 1) == x >> (32 - n)
    ensures RotateLeft(x, n) >> n == x & ((1 << (32 - n)) - 1)
  {
  }

  /** Rotating on by the remaining 32 - n bits restores the word. */
  lemma RotateLeftInverse(x: bv32, n: Amount)
    ensures RotateLeft(RotateLeft(x, n), 32 - n) == x
  {
  }

  // ---------------------------------------------------------------------
  // Tables
  // ---------------------------------------------------------------------

  const K: Words64 := [
    0xd76aa478, 0xe8c7b756, 0x242070db, 0xc1bdceee,
    0xf57c0faf, 0x4787c62a, 0xa8304613, 0xfd469501,
    0x698098d8, 0x8b44f7af, 0xffff5bb1, 0x895cd7be,
    0x6b901122, 0xfd987193, 0xa679438e, 0x49b40821
  ] + [
    0xf61e2562, 0xc040b340, 0x265e5a51, 0xe9b6c7aa,
    0xd62f105d, 0x02441453, 0xd8a1e681, 0xe7d3fbc8,
    0x21e1cde6, 0xc33707d6, 0xf4d50d87, 0x455a14ed,
    0xa9e3e905, 0xfcefa3f8, 0x676f02d9, 0x8d2a4c8a
  ] + [
    0xfffa3942, 0x8771f681, 0x6d9d6122, 0xfde5380c,
    0xa4beea44, 0x4bdecfa9, 0xf6bb4b60, 0xbebfbc70,
    0x289b7ec6, 0xeaa127fa, 0xd4ef3085, 0x04881d05,
    0xd9d4d039, 0xe6db99e5, 0x1fa27cf8, 0xc4ac5665
  ] + [
    0xf4292244, 0x432aff97, 0xab9423a7, 0xfc93a039,
    0x655b59c3, 0x8f0ccc92, 0xffeff47d, 0x85845dd1,
    0x6fa87e4f, 0xfe2ce6e0, 0xa3014314, 0x4e0811a1,
    0xf7537e82, 0xbd3af235, 0x2ad7d2bb, 0xeb86d391
  ]

  /** The rotation table as written: three stages of amounts, the fourth missing. */
  const S: Amounts48 := [
    7, 12, 17, 22, 7, 12, 17, 22, 7, 12, 17, 22, 7, 12, 17, 22
  ] + [
    5,  9, 14, 20, 5,  9, 14, 20, 5,  9, 14, 20, 5,  9, 14, 20
  ] + [
    4, 11, 16, 23, 4, 11, 16, 23, 4, 11, 16, 23, 4, 11, 16, 23
  ]

  /** The initial chaining words. */
  const IV: State := [0x67452301, 0xefcdab89, 0x98badcfe, 0x10325476]

  /** What S[i] reads in step i: the table for i < 48, the words past it beyond. */
  function RotationAmount(i: nat, beyond: Beyond): Amount
    requires i < 64
  {
    if i < |S| then S[i] else beyond[i - |S|]
  }

  /** The rotation table is short: steps 48..63 take their amounts from past its end. */
  lemma ShortRotationTable(beyond: Beyond, i: nat)
    requires i < 64
    ensures |S| == 48
    ensures i < 48 ==> RotationAmount(i, beyond) == S[i]
    ensures 48 <= i ==> RotationAmount(i, beyond) == beyond[i - 48]
  {
  }

  // ---------------------------------------------------------------------
  // The message schedule
  // ---------------------------------------------------------------------

  /** The word g that step i reads. */
  function MessageIndex(i: nat): (g: nat)
    requires i < 64
    ensures g < 16
  {
    if i < 16 then i
    else if i < 32 then (5 * i + 1) % 16
    else if i < 48 then (3 * i + 5) % 16
    else (7 * i) % 16
  }

  /**
   * The step of a stage that reads word g; 13, 11 and 7 are the inverses of
   * the odd multipliers 5, 3 and 7 modulo 16.
   */
  function StepOfWord(stage: nat, g: nat): (i: nat)
    requires stage < 4 && g < 16
    ensures 16 * stage <= i < 16 * stage + 16
  {
    if stage == 0 then g
    else if stage == 1 then 16 + (13 * (g + 15)) % 16
    else if stage == 2 then 32 + (11 * (g + 11)) % 16
    else 48 + (7 * g) % 16
  }

  /** Each stage of 16 steps reads every message word exactly once. */
  lemma StageReadsEveryWordOnce(stage: nat, g: nat, i: nat)
    requires stage < 4 && g < 16 && 16 * stage <= i < 16 * stage + 16
    ensures MessageIndex(StepOfWord(stage, g)) == g
    ensures StepOfWord(stage, MessageIndex(i)) == i
  {
    if stage == 1 {
      Stage1Inverse(g, i);
    } else if stage == 2 {
      Stage2Inverse(g, i);
    } else if stage == 3 {
      Stage3Inverse(g, i);
    }
  }

  /** a % m and a / m, given a quotient q and a remainder r in 0..m-1. */
  lemma DivMod(a: int, m: int, q: int, r: int)
    requires 0 < m && a == m * q + r && 0 <= r < m
    ensures a % m == r && a / m == q
  {
    var q', r' := a / m, a % m;
    assert m * (q - q') == r' - r;
    if q' < q {
      MultipleAtLeast(m, q - q');
    } else if q' > q {
      MultipleAtLeast(m, q' - q);
    }
  }

  /** A positive multiple of m is at least m. */
  lemma MultipleAtLeast(m: int, t: int)
    requires 0 < m && 0 < t
    ensures m * t >= m
  {
    assert m * t == m * (t - 1) + m;
  }

  lemma Stage1Inverse(g: nat, i: nat)
    requires g < 16 && 16 <= i < 32
    ensures MessageIndex(StepOfWord(1, g)) == g
    ensures StepOfWord(1, MessageIndex(i)) == i
  {
    var q := (13 * (g + 15)) / 16;
    var j := StepOfWord(1, g);
    assert 5 * j + 1 == 16 * (4 * g + 66 - 5 * q) + g;
    DivMod(5 * j + 1, 16, 4 * g + 66 - 5 * q, g);
    var k, p, h := i - 16, (5 * i + 1) / 16, MessageIndex(i);
    assert 13 * (h + 15) == 16 * (4 * k + 78 - 13 * p) + k;
    DivMod(13 * (h + 15), 16, 4 * k + 78 - 13 * p, k);
  }

  lemma Stage2Inverse(g: nat, i: nat)
    requires g < 16 && 32 <= i < 48
    ensures MessageIndex(StepOfWord(2, g)) == g
    ensures StepOfWord(2, MessageIndex(i)) == i
  {
    var q := (11 * (g + 11)) / 16;
    var j := StepOfWord(2, g);
    assert 3 * j + 5 == 16 * (2 * g + 29 - 3 * q) + g;
    DivMod(3 * j + 5, 16, 2 * g + 29 - 3 * q, g);
    var k, p, h := i - 32, (3 * i + 5) / 16, MessageIndex(i);
    assert 11 * (h + 11) == 16 * (2 * k + 77 - 11 * p) + k;
    DivMod(11 * (h + 11), 16, 2 * k + 77 - 11 * p, k);
  }

  lemma Stage3Inverse(g: nat, i: nat)
    requires g < 16 && 48 <= i < 64
    ensures MessageIndex(StepOfWord(3, g)) == g
    ensures StepOfWord(3, MessageIndex(i)) == i
  {
    var q := (7 * g) / 16;
    var j := StepOfWord(3, g);
    assert 7 * j == 16 * (21 + 3 * g - 7 * q) + g;
    DivMod(7 * j, 16, 21 + 3 * g - 7 * q, g);
    var k, p, h := i - 48, (7 * i) / 16, MessageIndex(i);
    assert 7 * h == 16 * (147 + 3 * k - 7 * p) + k;
    DivMod(7 * h, 16, 147 + 3 * k - 7 * p, k);
  }

  /** Unsigned 32-bit addition, which wraps modulo 2^32. */
  function Add(x: bv32, y: bv32): bv32
  {
    x + y
  }

  /** The auxiliary function of the stage step i belongs to. */
  function Mix(i: nat, b: bv32, c: bv32, d: bv32): bv32
  {
    if i < 16 then F(b, c, d)
    else if i < 32 then G(b, c, d)
    else if i < 48 then H(b, c, d)
    else I(b, c, d)
  }

  // ---------------------------------------------------------------------
  // Decoding a block
  // ---------------------------------------------------------------------

  /** The little-endian word of four bytes. */
  function DecodeWord(b0: bv8, b1: bv8, b2: bv8, b3: bv8): bv32
  {
    (b0 as bv32) | ((b1 as bv32) << 8) | ((b2 as bv32) << 16) | ((b3 as bv32) << 24)
  }

  /** The four bytes of a word, least significant first. */
  function WordBytes(w: bv32): seq<bv8>
  {
    [(w & 0xff) as bv8, ((w >> 8) & 0xff) as bv8, ((w >> 16) & 0xff) as bv8, (w >> 24) as bv8]
  }

  /** DecodeWord and WordBytes are inverse to each other. */
  lemma DecodeWordRoundTrip(w: bv32, b0: bv8, b1: bv8, b2: bv8, b3: bv8)
    ensures DecodeWord(WordBytes(w)[0], WordBytes(w)[1], WordBytes(w)[2], WordBytes(w)[3]) == w
    ensures WordBytes(DecodeWord(b0, b1, b2, b3)) == [b0, b1, b2, b3]
  {
  }

  function DecodeBlock(blk: Block): MessageWords
  {
    seq(16, k requires 0 <= k < 16 => DecodeWord(blk[4 * k], blk[4 * k + 1], blk[4 * k + 2], blk[4 * k + 3]))
  }

  /** Word k of a block is little-endian bytes 4k..4k+3. */
  lemma DecodeBlockLittleEndian(blk: Block, k: nat)
    requires k < 16
    ensures WordBytes(DecodeBlock(blk)[k]) == blk[4 * k .. 4 * k + 4]
  {
    var w := DecodeBlock(blk)[k];
    DecodeWordRoundTrip(w, blk[4 * k], blk[4 * k + 1], blk[4 * k + 2], blk[4 * k + 3]);
  }

  // ---------------------------------------------------------------------
  // Compression, as the source writes it
  // ---------------------------------------------------------------------

  /** Step i with the registers renamed after every step, as md5_transform does. */
  function Step(r: Regs, i: nat, x: MessageWords, beyond: Beyond): Regs
    requires i < 64
  {
    Regs(r.d, Update(i, x, beyond, r.a, r.b, r.c, r.d), r.b, r.c)
  }

  /** Steps i..63. */
  function StepsFrom(r: Regs, i: nat, x: MessageWords, beyond: Beyond): Regs
    requires i <= 64
    // 64 - i steps left (|x| is 16), measured on x so that a call with a literal
    // step number is not unfolded through all 64 steps by the verifier
    decreases 4 * |x| - i
  {
    if i == 64 then r else StepsFrom(Step(r, i, x, beyond), i + 1, x, beyond)
  }

  /** Adds the registers after the last step into the chaining words. */
  function FeedForward(h: State, r: Regs): State
  {
    [Add(h[0], r.a), Add(h[1], r.b), Add(h[2], r.c), Add(h[3], r.d)]
  }

  /** The 64 steps on one block and the feed-forward into the chaining words. */
  function Compress(h: State, blk: Block, beyond: Beyond): State
  {
    FeedForward(h, StepsFrom(Regs(h[0], h[1], h[2], h[3]), 0, DecodeBlock(blk), beyond))
  }

  // ---------------------------------------------------------------------
  // Compression, as RFC 1321 section 3.4 writes it
  // ---------------------------------------------------------------------

  /**
   * The register playing role k (0 = a, 1 = b, 2 = c, 3 = d) in step i:
   * the rounds of section 3.4 cycle through [ABCD], [DABC], [CDAB], [BCDA].
   */
  function Role(i: nat, k: nat): nat
    requires k < 4
  {
    (4 - i % 4 + k) % 4
  }

  /** Step i on fixed registers A, B, C, D: only the register in role a changes. */
  function RfcStep(regs: State, i: nat, x: MessageWords, beyond: Beyond): State
    requires i < 64
  {
    var a, b, c, d := Role(i, 0), Role(i, 1), Role(i, 2), Role(i, 3);
    regs[a := Update(i, x, beyond, regs[a], regs[b], regs[c], regs[d])]
  }

  function RfcStepsFrom(regs: State, i: nat, x: MessageWords, beyond: Beyond): State
    requires i <= 64
    decreases 4 * |x| - i // as in StepsFrom
  {
    if i == 64 then regs else RfcStepsFrom(RfcStep(regs, i, x, beyond), i + 1, x, beyond)
  }

  function RfcCompress(h: State, blk: Block, beyond: Beyond): State
  {
    var regs := RfcStepsFrom(h, 0, DecodeBlock(blk), beyond);
    FeedForward(h, Regs(regs[0], regs[1], regs[2], regs[3]))
  }

  /** The fixed registers seen through the roles of step i. */
  function View(regs: State, i: nat): Regs
  {
    Regs(regs[Role(i, 0)], regs[Role(i, 1)], regs[Role(i, 2)], regs[Role(i, 3)])
  }

  /** The four roles of a step are four different registers, and each shifts by one at the next step. */
  lemma RolesRotate(i: nat)
    ensures Role(i, 0) != Role(i, 1) && Role(i, 0) != Role(i, 2) && Role(i, 0) != Role(i, 3)
    ensures Role(i, 1) != Role(i, 2) && Role(i, 1) != Role(i, 3) && Role(i, 2) != Role(i, 3)
    ensures Role(i + 1, 0) == Role(i, 3) && Role(i + 1, 1) == Role(i, 0)
    ensures Role(i + 1, 2) == Role(i, 1) && Role(i + 1, 3) == Role(i, 2)
  {
    var q, r := i / 4, i % 4;
    if r == 3 {
      DivMod(i + 1, 4, q + 1, 0);
    } else {
      DivMod(i + 1, 4, q, r + 1);
    }
  }

  /** Writing the register in role a and moving to the next step renames the registers as md5_transform does. */
  lemma ViewAfterWrite(regs: State, i: nat, v: bv32)
    ensures View(regs[Role(i, 0) := v], i + 1) == Regs(View(regs, i).d, v, View(regs, i).b, View(regs, i).c)
  {
    RolesRotate(i);
  }

  /** The update of step i, from the registers in roles a, b, c, d. */
  function Update(i: nat, x: MessageWords, beyond: Beyond, a: bv32, b: bv32, c: bv32, d: bv32): bv32
    requires i < 64
  {
    Add(b, RotateLeft(Add(Add(Add(a, Mix(i, b, c, d)), K[i]), x[MessageIndex(i)]), RotationAmount(i, beyond)))
  }

  /** One renaming step is one fixed-register step seen through the roles. */
  lemma StepMatchesRfc(regs: State, i: nat, x: MessageWords, beyond: Beyond)
    requires i < 64
    ensures Step(View(regs, i), i, x, beyond) == View(RfcStep(regs, i, x, beyond), i + 1)
  {
    var r := View(regs, i);
    ViewAfterWrite(regs, i, Update(i, x, beyond, r.a, r.b, r.c, r.d));
  }

  lemma {:induction false} StepsMatchRfc(regs: State, i: nat, x: MessageWords, beyond: Beyond)
    requires i <= 64
    ensures StepsFrom(View(regs, i), i, x, beyond) == View(RfcStepsFrom(regs, i, x, beyond), 64)
    decreases 64 - i
  {
    if i < 64 {
      StepMatchesRfc(regs, i, x, beyond);
      StepsMatchRfc(RfcStep(regs, i, x, beyond), i + 1, x, beyond);
    }
  }

  /** Steps 0 and 64 see the registers in their own order. */
  lemma ViewAtBlockEdges(h: State, regs: State)
    ensures View(h, 0) == Regs(h[0], h[1], h[2], h[3])
    ensures View(regs, 64) == Regs(regs[0], regs[1], regs[2], regs[3])
  {
    DivMod(64, 4, 16, 0);
  }

  /** The code's compression computes the compression of RFC 1321 section 3.4. */
  lemma CompressMatchesRfc(h: State, blk: Block, beyond: Beyond)
    ensures Compress(h, blk, beyond) == RfcCompress(h, blk, beyond)
  {
    var x := DecodeBlock(blk);
    StepsMatchRfc(h, 0, x, beyond);
    ViewAtBlockEdges(h, RfcStepsFrom(h, 0, x, beyond));
  }

  // ---------------------------------------------------------------------
  // Padding
  // ---------------------------------------------------------------------

  /** `(textlen + 1 + 8 + 63) & ~63`: the smallest multiple of 64 that holds text, 0x80 and the length. */
  function PadLength(n: nat): (p: nat)
    ensures p % 64 == 0
    ensures n + 9 <= p < n + 73
  {
    (n + 72) - (n + 72) % 64
  }

  /** `strlen(text) * 8` in 64 bits. */
  function BitLength(n: nat): bv64
  {
    ((n * 8) % 0x1_0000_0000_0000_0000) as bv64
  }

  /** The eight bytes of a 64-bit word, least significant first. */
  function LengthBytes(v: bv64): seq<bv8>
  {
    [(v & 0xff) as bv8, ((v >> 8) & 0xff) as bv8, ((v >> 16) & 0xff) as bv8, ((v >> 24) & 0xff) as bv8,
     ((v >> 32) & 0xff) as bv8, ((v >> 40) & 0xff) as bv8, ((v >> 48) & 0xff) as bv8, (v >> 56) as bv8]
  }

  /** The little-endian 64-bit word of eight bytes. */
  function LengthValue(b: seq<bv8>): bv64
    requires |b| == 8
  {
    (b[0] as bv64) | ((b[1] as bv64) << 8) | ((b[2] as bv64) << 16) | ((b[3] as bv64) << 24)
    | ((b[4] as bv64) << 32) | ((b[5] as bv64) << 40) | ((b[6] as bv64) << 48) | ((b[7] as bv64) << 56)
  }

  /** LengthBytes and LengthValue are inverse to each other. */
  lemma LengthRoundTrip(v: bv64, b0: bv8, b1: bv8, b2: bv8, b3: bv8, b4: bv8, b5: bv8, b6: bv8, b7: bv8)
    ensures LengthValue(LengthBytes(v)) == v
    ensures LengthBytes(LengthValue([b0, b1, b2, b3, b4, b5, b6, b7])) == [b0, b1, b2, b3, b4, b5, b6, b7]
  {
  }

  /** The buffer md5_get_hash hashes: text, 0x80, zeros, the bit length. */
  function PaddedMessage(text: seq<bv8>): seq<bv8>
  {
    var n := |text|;
    text + [0x80] + seq(PadLength(n) - n - 9, _ => 0) + LengthBytes(BitLength(n))
  }

  /** The layout of the padded buffer, byte by byte. */
  lemma PaddedLayout(text: seq<bv8>)
    ensures var m, n := PaddedMessage(text), |text|;
      |m| == PadLength(n)
      && m[..n] == text
      && m[n] == 0x80
      && (forall i :: n < i < |m| - 8 ==> m[i] == 0)
      && m[|m| - 8..] == LengthBytes(BitLength(n))
      && LengthValue(m[|m| - 8..]) == BitLength(n)
  {
    var n := |text|;
    var zeros: seq<bv8> := seq(PadLength(n) - n - 9, _ => 0);
    var tail := LengthBytes(BitLength(n));
    var m := text + [0x80] + zeros + tail;
    assert m[|m| - 8..] == tail;
    assert m[..n] == text;
    assert forall i :: n < i < |m| - 8 ==> m[i] == zeros[i - n - 1];
    LengthRoundTrip(BitLength(n), 0, 0, 0, 0, 0, 0, 0, 0);
  }

  // ---------------------------------------------------------------------
  // The digest
  // ---------------------------------------------------------------------

  /**
   * The chaining words after compressing msg block by block, in increasing
   * offset order: the last block is compressed last.
   */
  function Blocks(h: State, msg: seq<bv8>, beyond: Beyond): State
    requires |msg| % 64 == 0
    decreases |msg|
  {
    if |msg| == 0 then h
    else
      AlignedTail(|msg|);
      Compress(Blocks(h, msg[..|msg| - 64], beyond), msg[|msg| - 64..], beyond)
  }

  /** A positive multiple of 64 has a whole block and a multiple of 64 before it. */
  lemma AlignedTail(n: nat)
    requires n % 64 == 0 && n > 0
    ensures n >= 64 && (n - 64) % 64 == 0
  {
    DivMod(n - 64, 64, n / 64 - 1, 0);
  }

  /** Compressing two block-aligned pieces is compressing the first, then the second. */
  lemma {:induction false} BlocksAppend(h: State, m1: seq<bv8>, m2: seq<bv8>, beyond: Beyond)
    requires |m1| % 64 == 0 && |m2| % 64 == 0
    ensures |m1 + m2| % 64 == 0
    ensures Blocks(h, m1 + m2, beyond) == Blocks(Blocks(h, m1, beyond), m2, beyond)
    decreases |m2|
  {
    DivMod(|m1 + m2|, 64, |m1| / 64 + |m2| / 64, 0);
    if |m2| == 0 {
      assert m1 + m2 == m1;
    } else {
      AlignedTail(|m2|);
      var front := m2[..|m2| - 64];
      LastBlockOfAppend(m1, m2);
      BlocksAppend(h, m1, front, beyond);
    }
  }

  lemma LastBlockOfAppend(m1: seq<bv8>, m2: seq<bv8>)
    requires |m2| >= 64
    ensures (m1 + m2)[..|m1 + m2| - 64] == m1 + m2[..|m2| - 64]
    ensures (m1 + m2)[|m1 + m2| - 64..] == m2[|m2| - 64..]
  {
  }

  /** The chaining words md5_get_hash ends with. */
  function Digest(text: seq<bv8>, beyond: Beyond): State
  {
    PaddedLayout(text);
    Blocks(IV, PaddedMessage(text), beyond)
  }

  /** A text of at most 55 bytes pads to a single block, compressed once from the initial words. */
  lemma DigestOfShortText(text: seq<bv8>, beyond: Beyond)
    requires |text| <= 55
    ensures |PaddedMessage(text)| == 64
    ensures Digest(text, beyond) == Compress(IV, PaddedMessage(text), beyond)
  {
    DivMod(|text| + 72, 64, 1, |text| + 8);
    PaddedLayout(text);
    OneBlock(IV, PaddedMessage(text), beyond);
  }

  lemma OneBlock(h: State, m: seq<bv8>, beyond: Beyond)
    requires |m| == 64
    ensures Blocks(h, m, beyond) == Compress(h, m, beyond)
  {
    DivMod(64, 64, 1, 0);
    assert m[..0] == [] && m[0..] == m;
  }

  // ---------------------------------------------------------------------
  // Hex rendering
  // ---------------------------------------------------------------------

  /** The characters "%x" writes. */
  predicate IsLowerHex(c: char)
  {
    '0' <= c <= '9' || 'a' <= c <= 'f'
  }

  /** A lowercase hex digit. */
  function HexDigit(n: bv32): (c: char)
    requires n < 16
    ensures IsLowerHex(c)
  {
    if n < 10 then ('0' as int + n as int) as char else ('a' as int + n as int - 10) as char
  }

  /** The value of a hex digit (0 for any other character). */
  function DigitValue(c: char): bv32
  {
    if '0' <= c <= '9' then (c as int - '0' as int) as bv32
    else if 'a' <= c <= 'f' then (c as int - 'a' as int + 10) as bv32
    else 0
  }

  lemma DigitRoundTrip(n: bv32)
    requires n < 16
    ensures DigitValue(HexDigit(n)) == n
  {
  }

  /** "%08x": eight digits, most significant first. */
  function HexWord(w: bv32): string
  {
    [HexDigit(w >> 28), HexDigit((w >> 24) & 0xf), HexDigit((w >> 20) & 0xf), HexDigit((w >> 16) & 0xf),
     HexDigit((w >> 12) & 0xf), HexDigit((w >> 8) & 0xf), HexDigit((w >> 4) & 0xf), HexDigit(w & 0xf)]
  }

  /** The word of eight hex digit values, most significant first. */
  function Assemble(d0: bv32, d1: bv32, d2: bv32, d3: bv32, d4: bv32, d5: bv32, d6: bv32, d7: bv32): bv32
  {
    (d0 << 28) | (d1 << 24) | (d2 << 20) | (d3 << 16) | (d4 << 12) | (d5 << 8) | (d6 << 4) | d7
  }

  /** Reads eight hex digits, most significant first. */
  function ParseHexWord(s: string): bv32
    requires |s| == 8
  {
    Assemble(DigitValue(s[0]), DigitValue(s[1]), DigitValue(s[2]), DigitValue(s[3]),
             DigitValue(s[4]), DigitValue(s[5]), DigitValue(s[6]), DigitValue(s[7]))
  }

  /** A word is the assembly of its eight nibbles. */
  lemma AssembleNibbles(w: bv32)
    ensures Assemble(w >> 28, (w >> 24) & 0xf, (w >> 20) & 0xf, (w >> 16) & 0xf,
                     (w >> 12) & 0xf, (w >> 8) & 0xf, (w >> 4) & 0xf, w & 0xf) == w
  {
  }

  /** HexWord loses nothing: reading its digits back gives the word. */
  lemma HexWordRoundTrip(w: bv32)
    ensures ParseHexWord(HexWord(w)) == w
  {
    DigitRoundTrip(w >> 28);
    DigitRoundTrip((w >> 24) & 0xf);
    DigitRoundTrip((w >> 20) & 0xf);
    DigitRoundTrip((w >> 16) & 0xf);
    DigitRoundTrip((w >> 12) & 0xf);
    DigitRoundTrip((w >> 8) & 0xf);
    DigitRoundTrip((w >> 4) & 0xf);
    DigitRoundTrip(w & 0xf);
    AssembleNibbles(w);
  }

  /** The digits are those of the word's value, not of its little-endian bytes. */
  lemma HexWordMostSignificantFirst()
    ensures HexWord(0x67452301) == "67452301"
    ensures HexWord(0x67452301) != "01234567"
  {
  }

  /** The words rendered one after the other. */
  function HexOf(ws: seq<bv32>): string
  {
    if |ws| == 0 then [] else HexOf(ws[..|ws| - 1]) + HexWord(ws[|ws| - 1])
  }

  lemma {:induction false} HexOfLength(ws: seq<bv32>)
    ensures |HexOf(ws)| == 8 * |ws|
  {
    if |ws| > 0 {
      HexOfLength(ws[..|ws| - 1]);
    }
  }

  /** Rendering one more word appends its eight digits. */
  lemma HexOfSnoc(ws: seq<bv32>, k: nat)
    requires k < |ws|
    ensures HexOf(ws[..k + 1]) == HexOf(ws[..k]) + HexWord(ws[k])
  {
    assert ws[..k + 1][..k] == ws[..k];
  }

  /** Every character of the rendering is a lowercase hex digit. */
  lemma {:induction false} HexOfLowercase(ws: seq<bv32>)
    ensures forall j :: 0 <= j < |HexOf(ws)| ==> IsLowerHex(HexOf(ws)[j])
  {
    if |ws| > 0 {
      var init := ws[..|ws| - 1];
      HexOfLowercase(init);
      var front, last := HexOf(init), HexWord(ws[|ws| - 1]);
      assert HexOf(ws) == front + last;
      assert forall j :: 0 <= j < 8 ==> IsLowerHex(last[j]);
    }
  }

  /** The rendering is 8 digits per word, word k at characters 8k..8k+7. */
  lemma {:induction false} HexOfLayout(ws: seq<bv32>, k: nat)
    requires k < |ws|
    ensures |HexOf(ws)| == 8 * |ws|
    ensures HexOf(ws)[8 * k .. 8 * k + 8] == HexWord(ws[k])
  {
    var init := ws[..|ws| - 1];
    HexOfLength(ws);
    HexOfLength(init);
    var front, last := HexOf(init), HexWord(ws[|ws| - 1]);
    assert HexOf(ws) == front + last;
    if k < |ws| - 1 {
      HexOfLayout(init, k);
      assert (front + last)[8 * k .. 8 * k + 8] == front[8 * k .. 8 * k + 8];
    } else {
      assert (front + last)[8 * k .. 8 * k + 8] == last;
    }
  }

  // ---------------------------------------------------------------------
  // The in-place operations
  // ---------------------------------------------------------------------

  /** The first loop of md5_transform: x[i] is the little-endian word of block bytes 4i..4i+3. */
  method DecodeWords(block: array<bv8>, offset: nat) returns (x: array<bv32>)
    requires offset + 64 <= block.Length
    ensures fresh(x) && x.Length == 16
    ensures x[..] == DecodeBlock(block[offset .. offset + 64])
  {
    ghost var blk: Block := block[offset .. offset + 64];
    x := new bv32[16];
    var i, j := 0, 0;
    while i < 16
      invariant 0 <= i <= 16 && j == 4 * i
      invariant forall k :: 0 <= k < i ==> x[k] == DecodeBlock(blk)[k]
    {
      x[i] := DecodeWord(block[offset + j], block[offset + j + 1], block[offset + j + 2], block[offset + j + 3]);
      i, j := i + 1, j + 4;
    }
  }

  /** The stage selection of one step of md5_transform: the mixing function and the message word. */
  method Select(i: nat, b: bv32, c: bv32, d: bv32) returns (f: bv32, g: nat)
    requires i < 64
    ensures f == Mix(i, b, c, d) && g == MessageIndex(i)
  {
    if i < 16 {
      f, g := F(b, c, d), i;
    } else if i < 32 {
      f, g := G(b, c, d), (5 * i + 1) % 16;
    } else if i < 48 {
      f, g := H(b, c, d), (3 * i + 5) % 16;
    } else {
      f, g := I(b, c, d), (7 * i) % 16;
    }
  }

  /** The second loop of md5_transform: the 64 steps on the working registers. */
  method Rounds(x: array<bv32>, a0: bv32, b0: bv32, c0: bv32, d0: bv32, beyond: Beyond)
    returns (a: bv32, b: bv32, c: bv32, d: bv32)
    requires x.Length == 16
    ensures Regs(a, b, c, d) == StepsFrom(Regs(a0, b0, c0, d0), 0, x[..], beyond)
  {
    ghost var xs: MessageWords := x[..];
    ghost var target := StepsFrom(Regs(a0, b0, c0, d0), 0, xs, beyond);
    a, b, c, d := a0, b0, c0, d0;
    var i := 0;
    while i < 64
      invariant 0 <= i <= 64
      invariant StepsFrom(Regs(a, b, c, d), i, xs, beyond) == target
    {
      var f, g := Select(i, b, c, d);
      var temp := d;
      d := c;
      c := b;
      b := Add(b, RotateLeft(Add(Add(Add(a, f), K[i]), x[g]), RotationAmount(i, beyond)));
      a := temp;
      i := i + 1;
    }
  }

  /** The feed-forward of md5_transform: the working registers are added into the chaining words. */
  method AddInto(state: array<bv32>, a: bv32, b: bv32, c: bv32, d: bv32)
    requires state.Length == 4
    modifies state
    ensures state[..] == FeedForward(old(state[..]), Regs(a, b, c, d))
  {
    state[0] := Add(state[0], a);
    state[1] := Add(state[1], b);
    state[2] := Add(state[2], c);
    state[3] := Add(state[3], d);
  }

  /** md5_transform: compresses block[offset..offset+63] into state[0..3]. */
  method Transform(state: array<bv32>, block: array<bv8>, offset: nat, beyond: Beyond)
    requires state.Length == 4 && offset + 64 <= block.Length
    modifies state
    ensures state[..] == Compress(old(state[..]), block[offset .. offset + 64], beyond)
  {
    ghost var h: State := state[..];
    var a, b, c, d := state[0], state[1], state[2], state[3];
    var x := DecodeWords(block, offset);
    a, b, c, d := Rounds(x, a, b, c, d, beyond);
    assert Regs(a, b, c, d) == StepsFrom(Regs(h[0], h[1], h[2], h[3]), 0, x[..], beyond);
    AddInto(state, a, b, c, d);
  }

  /**
   * The buffer md5_get_hash builds: calloc'd to padlen bytes, the text copied
   * in, the 0x80 marker after it and the bit length in the last 8 bytes.
   */
  method BuildMessage(text: seq<bv8>) returns (msg: array<bv8>)
    ensures fresh(msg)
    ensures msg[..] == PaddedMessage(text)
  {
    var bitlen := BitLength(|text|);
    var textlen := |text|;
    var padlen := PadLength(textlen);
    msg := new bv8[padlen](_ => 0);
    forall k | 0 <= k < textlen {
      msg[k] := text[k];
    }
    msg[textlen] := 0x80;
    var lengthBytes := LengthBytes(bitlen);
    forall k | 0 <= k < 8 {
      msg[padlen - 8 + k] := lengthBytes[k];
    }
    assert msg[..] == PaddedMessage(text);
  }

  /** Block-aligned offsets below a block-aligned length leave room for a whole block. */
  lemma NextBlockFits(i: nat, n: nat, count: nat, length: nat)
    requires i == 64 * n && length == 64 * count && i < length
    ensures n < count && i + 64 <= length
  {
  }

  /** The block loop stops exactly after the last block. */
  lemma LoopCoversAllBlocks(i: nat, n: nat, count: nat, length: nat)
    requires i == 64 * n && n <= count && length == 64 * count && length <= i
    ensures n == count
  {
  }

  /** The buffer up to the next block boundary: the prefix so far, then that block. */
  lemma NextPrefix(m: seq<bv8>, i: nat)
    requires i + 64 <= |m|
    ensures m[..i + 64][..i] == m[..i]
    ensures m[..i + 64][i..] == m[i .. i + 64]
  {
  }

  /** A length that is a multiple of 64, given its number of blocks. */
  lemma BlockCount(length: nat)
    requires length % 64 == 0
    ensures length == 64 * (length / 64)
  {
  }

  /** The block loop of md5_get_hash: md5_transform on every 64-byte block, in order. */
  method ProcessBlocks(state: array<bv32>, msg: array<bv8>, beyond: Beyond)
    requires state.Length == 4 && msg.Length % 64 == 0
    modifies state
    ensures state[..] == Blocks(old(state[..]), msg[..], beyond)
  {
    ghost var h: State := state[..];
    ghost var m := msg[..];
    ghost var count := msg.Length / 64;
    BlockCount(msg.Length);
    var i := 0;
    ghost var n := 0;
    while i < msg.Length
      invariant i == 64 * n && n <= count && i % 64 == 0
      invariant state[..] == Blocks(h, m[..i], beyond)
    {
      NextBlockFits(i, n, count, msg.Length);
      NextPrefix(m, i);
      DivMod(i + 64, 64, n + 1, 0);
      Transform(state, msg, i, beyond);
      i, n := i + 64, n + 1;
    }
    LoopCoversAllBlocks(i, n, count, msg.Length);
    assert m[..i] == m;
  }

  /** One sprintf of the hex loop: the eight digits w written at result[at..at+7]. */
  method PutWord(result: array<char>, at: nat, w: string)
    requires at + |w| <= result.Length
    modifies result
    ensures result[..at + |w|] == old(result[..at]) + w
  {
    forall j | 0 <= j < |w| {
      result[at + j] := w[j];
    }
    assert result[..at + |w|] == old(result[..at]) + w;
  }

  /** The hex loop of md5_get_hash: "%08x" of each chaining word, then the NUL. */
  method RenderHex(state: array<bv32>) returns (hex: string)
    requires state.Length == 4
    ensures hex == HexOf(state[..])
  {
    ghost var digest := state[..];
    var result := new char[33];
    for k := 0 to 4
      invariant result[..8 * k] == HexOf(digest[..k])
    {
      var w := HexWord(state[k]);
      PutWord(result, 8 * k, w);
      assert result[..8 * (k + 1)] == HexOf(digest[..k]) + w;
      HexOfSnoc(digest, k);
    }
    result[32] := '\0';
    hex := result[..32];
    assert digest[..4] == digest;
  }

  /** Each 8-character group of the rendering reads back as its word. */
  lemma HexOfParses(ws: seq<bv32>)
    ensures |HexOf(ws)| == 8 * |ws|
    ensures forall k :: 0 <= k < |ws| ==> ParseHexWord(HexOf(ws)[8 * k .. 8 * k + 8]) == ws[k]
  {
    HexOfLength(ws);
    forall k | 0 <= k < |ws|
      ensures ParseHexWord(HexOf(ws)[8 * k .. 8 * k + 8]) == ws[k]
    {
      HexOfLayout(ws, k);
      HexWordRoundTrip(ws[k]);
    }
  }

  /**
   * md5_get_hash: the 32 lowercase hex digits of the digest of text (the
   * bytes before the terminating NUL).
   */
  method GetHash(text: seq<bv8>, beyond: Beyond) returns (hex: string)
    ensures hex == HexOf(Digest(text, beyond))
    ensures |hex| == 32
    ensures forall k :: 0 <= k < 4 ==> ParseHexWord(hex[8 * k .. 8 * k + 8]) == Digest(text, beyond)[k]
    ensures forall j :: 0 <= j < 32 ==> IsLowerHex(hex[j])
  {
    var state := new bv32[4](k requires 0 <= k < 4 => IV[k]);
    assert state[..] == IV;
    var msg := BuildMessage(text);
    PaddedLayout(text);
    ProcessBlocks(state, msg, beyond);
    hex := RenderHex(state);
    HexOfParses(state[..]);
    HexOfLowercase(state[..]);
  }
}
