/** What a message digests to (sections 3.1 to 3.5 of RFC 1321), and how far a byte stream that is
    cut anywhere has been absorbed. */
module Md5Stream {
  import opened Md5Rfc
  import opened Md5Spec

  function BytesToWord(b: seq<Byte>): Word
    requires |b| == 4
  {
    ((b[3] as Word) << 24) | ((b[2] as Word) << 16) | ((b[1] as Word) << 8) | (b[0] as Word)
  }

  /** Low-order byte first. */
  function WordBytes(w: Word): (b: seq<Byte>)
    ensures |b| == 4
  {
    [(w & 0xff) as Byte, ((w & 0xff00) >> 8) as Byte, ((w & 0xff0000) >> 16) as Byte, ((w & 0xff000000) >> 24) as Byte]
  }

  /** A word has the value of its four bytes, the low-order byte first. */
  lemma LowByteFirst(b: seq<Byte>)
    requires |b| == 4
    ensures BytesToWord(b) ==
              b[0] as Word + 0x100 * (b[1] as Word) + 0x1_0000 * (b[2] as Word) + 0x100_0000 * (b[3] as Word)
  {
  }

  /** The bytes of a word, the low-order byte first. */
  lemma BytesLowFirst(w: Word)
    ensures WordBytes(w)[0] as Word == w & 0xff && WordBytes(w)[1] as Word == (w >> 8) & 0xff
    ensures WordBytes(w)[2] as Word == (w >> 16) & 0xff && WordBytes(w)[3] as Word == w >> 24
  {
  }

  lemma WordBytesRoundTrip(w: Word)
    ensures BytesToWord(WordBytes(w)) == w
  {
  }

  function BlockWords(block: seq<Byte>): (x: seq<Word>)
    requires |block| == BLOCK
    ensures |x| == 16
  {
    seq(16, j requires 0 <= j < 16 => BytesToWord(block[4 * j..4 * j + 4]))
  }

  // ---------- Sections 3.1 and 3.2: padding and length ----------

  /** How many zero bytes follow the byte 0x80: the fewest that leave 8 bytes of a block free. */
  function ZeroCount(n: nat): (z: nat)
    ensures z < BLOCK
    ensures (n + 1 + z) % BLOCK == 56
  {
    (119 - n % 64) % 64
  }

  function Padding(n: nat): (p: seq<Byte>)
    ensures |p| == 1 + ZeroCount(n)
  {
    [0x80] + seq(ZeroCount(n), _ => 0)
  }

  /** The length in bits, modulo 2^64, as two words. */
  function LowHalf(n: nat): (k: nat)
    ensures k < WORD_RANGE
  {
    8 * n % WORD_RANGE
  }

  function HighHalf(n: nat): (k: nat)
    ensures k < WORD_RANGE
  {
    8 * n / WORD_RANGE % WORD_RANGE
  }

  function LowWord(n: nat): Word {
    LowHalf(n) as Word
  }

  function HighWord(n: nat): Word {
    HighHalf(n) as Word
  }

  function LengthBytes(n: nat): (b: seq<Byte>)
    ensures |b| == 8
  {
    WordBytes(LowWord(n)) + WordBytes(HighWord(n))
  }

  lemma PaddedLength(n: nat)
    ensures (n + |Padding(n)| + 8) % BLOCK == 0
  {
  }

  function Padded(m: seq<Byte>): (p: seq<Byte>)
    ensures |p| % BLOCK == 0
  {
    PaddedLength(|m|);
    m + Padding(|m|) + LengthBytes(|m|)
  }

  /** Sections 3.1 and 3.2 in plain numbers: the message, a byte 0x80, the fewest zeros that make whole blocks, and the
      length in bits as two words of four bytes, the low-order word first. */
  lemma PaddedShape(m: seq<Byte>)
    ensures var p, n := Padded(m), |m|;
      && |p| % 64 == 0 && n + 9 <= |p| < n + 9 + 64
      && p[..n] == m && p[n] == 0x80 && (forall k | n < k < |p| - 8 :: p[k] == 0)
      && BytesToWord(p[|p| - 8..|p| - 4]) == (8 * n % 0x1_0000_0000) as Word
      && BytesToWord(p[|p| - 4..]) == (8 * n / 0x1_0000_0000 % 0x1_0000_0000) as Word
  {
    var p, n := Padded(m), |m|;
    PaddedLength(n);
    assert p[n..|p| - 8] == Padding(n);
    forall k | n < k < |p| - 8
      ensures p[k] == 0
    {
      assert p[k] == Padding(n)[k - n];
    }
    assert p[|p| - 8..|p| - 4] == WordBytes(LowWord(n)) && p[|p| - 4..] == WordBytes(HighWord(n));
    WordBytesRoundTrip(LowWord(n));
    WordBytesRoundTrip(HighWord(n));
  }

  // ---------- Sections 3.3 to 3.5 ----------

  /** One block step, on the bytes of a block. */
  function Process(r: Registers<Word>, block: seq<Byte>): Registers<Word> {
    if |block| == BLOCK then RfcStep(r, BlockWords(block)) else r
  }

  /** How one block changes the state; the stream's bookkeeping does not depend on which change. */
  type Stepper<!T> = (T, seq<Byte>) -> T

  /** The state after the first `n` blocks of `s`. */
  function Absorb<T>(start: T, step: Stepper<T>, s: seq<Byte>, n: nat): T
    requires BLOCK * n <= |s|
  {
    if n == 0 then start else step(Absorb(start, step, s, n - 1), s[BLOCK * (n - 1)..BLOCK * n])
  }

  function AbsorbAll<T>(start: T, step: Stepper<T>, s: seq<Byte>): T {
    Absorb(start, step, s, |s| / BLOCK)
  }

  function RegisterBytes(r: Registers<Word>): (b: seq<Byte>)
    ensures |b| == 16
  {
    WordBytes(r.a) + WordBytes(r.b) + WordBytes(r.c) + WordBytes(r.d)
  }

  /** The initial registers as section 3.3 lists them, by their bytes. */
  lemma InitialBytes()
    ensures RegisterBytes(INITIAL) ==
            [0x01, 0x23, 0x45, 0x67, 0x89, 0xab, 0xcd, 0xef, 0xfe, 0xdc, 0xba, 0x98, 0x76, 0x54, 0x32, 0x10]
  {
    assert WordBytes(INITIAL.a) == [0x01, 0x23, 0x45, 0x67];
    assert WordBytes(INITIAL.b) == [0x89, 0xab, 0xcd, 0xef];
    assert WordBytes(INITIAL.c) == [0xfe, 0xdc, 0xba, 0x98];
    assert WordBytes(INITIAL.d) == [0x76, 0x54, 0x32, 0x10];
  }

  function Final(m: seq<Byte>): Registers<Word> {
    AbsorbAll(INITIAL, Process, Padded(m))
  }

  function Digest(m: seq<Byte>): (d: seq<Byte>)
    ensures |d| == 16
  {
    RegisterBytes(Final(m))
  }

  lemma {:induction false} AbsorbPrefix<T>(start: T, step: Stepper<T>, s: seq<Byte>, t: seq<Byte>, n: nat)
    requires BLOCK * n <= |s|
    ensures Absorb(start, step, s + t, n) == Absorb(start, step, s, n)
  {
    if n > 0 {
      AbsorbPrefix(start, step, s, t, n - 1);
      assert (s + t)[BLOCK * (n - 1)..BLOCK * n] == s[BLOCK * (n - 1)..BLOCK * n];
    }
  }

  // ---------- A stream cut anywhere ----------

  /** The whole blocks of `m` are absorbed, the rest is at the front of the held bytes. */
  ghost predicate Tracks<T>(start: T, step: Stepper<T>, m: seq<Byte>, r: T, held: seq<Byte>) {
    && |held| == BLOCK
    && r == AbsorbAll(start, step, m)
    && held[..|m| % BLOCK] == m[|m| - |m| % BLOCK..]
  }

  lemma TakeByte<T>(start: T, step: Stepper<T>, m: seq<Byte>, r: T, held: seq<Byte>, b: Byte)
    requires Tracks(start, step, m, r, held) && |m| % BLOCK < BLOCK - 1
    ensures Tracks(start, step, m + [b], r, held[|m| % BLOCK := b])
  {
    var n, at := |m| / BLOCK, |m| % BLOCK;
    assert |m + [b]| / BLOCK == n && |m + [b]| % BLOCK == at + 1;
    AbsorbPrefix(start, step, m, [b], n);
    assert held[at := b][..at + 1] == held[..at] + [b];
    assert (m + [b])[BLOCK * n..] == m[BLOCK * n..] + [b];
  }

  lemma FillBlock<T>(start: T, step: Stepper<T>, m: seq<Byte>, r: T, held: seq<Byte>, b: Byte)
    requires Tracks(start, step, m, r, held) && |m| % BLOCK == BLOCK - 1
    ensures Tracks(start, step, m + [b], step(r, held[BLOCK - 1 := b]), held[BLOCK - 1 := b])
  {
    var n, full := |m| / BLOCK, held[BLOCK - 1 := b];
    assert |m + [b]| / BLOCK == n + 1 && |m + [b]| % BLOCK == 0;
    AbsorbPrefix(start, step, m, [b], n);
    assert full == held[..BLOCK - 1] + [b];
    assert (m + [b])[BLOCK * n..BLOCK * (n + 1)] == m[BLOCK * n..] + [b];
  }

  /** Eight more bytes after 56 held ones make the last block. */
  lemma LastBlock<T>(start: T, step: Stepper<T>, m: seq<Byte>, tail: seq<Byte>, r: T, held: seq<Byte>)
    requires Tracks(start, step, m, r, held) && |m| % BLOCK == 56 && |tail| == 8
    ensures step(r, held[..56] + tail) == AbsorbAll(start, step, m + tail)
  {
    var n := |m| / BLOCK;
    AbsorbPrefix(start, step, m, tail, n);
    assert m[BLOCK * n..] == held[..56];
    assert (m + tail)[BLOCK * n..BLOCK * (n + 1)] == held[..56] + tail;
    assert |m + tail| / BLOCK == n + 1;
  }

  // ---------- The last block ----------

  /** The two words written over the end of the last block are the length bytes. */
  lemma LengthWords(held: seq<Byte>, n: nat, x: seq<Word>)
    requires |held| == 56 && |x| == 16
    requires forall j :: 0 <= j < 14 ==> x[j] == BytesToWord(held[4 * j..4 * j + 4])
    requires x[14] == LowWord(n) && x[15] == HighWord(n)
    ensures x == BlockWords(held + LengthBytes(n))
  {
    var block := held + LengthBytes(n);
    forall j | 0 <= j < 14
      ensures x[j] == BlockWords(block)[j]
    {
      assert block[4 * j..4 * j + 4] == held[4 * j..4 * j + 4];
    }
    assert block[56..60] == WordBytes(LowWord(n));
    assert block[60..64] == WordBytes(HighWord(n));
    WordBytesRoundTrip(LowWord(n));
    WordBytesRoundTrip(HighWord(n));
  }

  // The proofs about contexts see the block step only through these predicates, so that the
  // solver never meets its bit operations.

  ghost predicate AgreeOn<T>(step: Stepper<T>, model: Stepper<T>, r: T, block: seq<Byte>) {
    step(r, block) == model(r, block)
  }

  ghost predicate Agree<T(!new)>(step: Stepper<T>, model: Stepper<T>) {
    forall r, block {:trigger AgreeOn(step, model, r, block)} :: AgreeOn(step, model, r, block)
  }

  ghost predicate IsBlockStep(step: Stepper<Registers<Word>>) {
    Agree(step, Process)
  }

  lemma {:induction false} SteppersAgree<T(!new)>(start: T, step: Stepper<T>, model: Stepper<T>, s: seq<Byte>, n: nat)
    requires Agree(step, model) && BLOCK * n <= |s|
    ensures Absorb(start, step, s, n) == Absorb(start, model, s, n)
  {
    if n > 0 {
      SteppersAgree(start, step, model, s, n - 1);
      assert AgreeOn(step, model, Absorb(start, step, s, n - 1), s[BLOCK * (n - 1)..BLOCK * n]);
    }
  }

  /** Padding and length bytes on top of `m` lead to its final registers. */
  lemma LastStep(step: Stepper<Registers<Word>>, m: seq<Byte>, r: Registers<Word>, held: seq<Byte>,
                 last: Registers<Word>)
    requires IsBlockStep(step)
    requires Tracks(INITIAL, step, m + Padding(|m|), r, held)
    requires last == Process(r, held[..56] + LengthBytes(|m|))
    ensures last == Final(m)
  {
    LastBlock(INITIAL, step, m + Padding(|m|), LengthBytes(|m|), r, held);
    assert AgreeOn(step, Process, r, held[..56] + LengthBytes(|m|));
    SteppersAgree(INITIAL, step, Process, Padded(m), |Padded(m)| / BLOCK);
  }

  // ---------- The size counter ----------

  lemma WrappedBits(n: nat, size: nat, q: nat)
    requires n == size + SIZE_RANGE * q
    ensures size % BLOCK == n % BLOCK
    ensures 8 * n % SIZE_RANGE == size * 8 % SIZE_RANGE
  {
    WrappedBlocks(n, size, SIZE_RANGE / BLOCK * q);
    assert 8 * n == size * 8 + SIZE_RANGE * (8 * q);
  }

  lemma WrappedBlocks(n: nat, size: nat, k: nat)
    requires n == size + BLOCK * k
    ensures size % BLOCK == n % BLOCK
  {
  }

  lemma HalvesOfWrapped(bits: nat, wrapped: nat)
    requires wrapped == bits % SIZE_RANGE
    ensures wrapped % WORD_RANGE == bits % WORD_RANGE
    ensures wrapped / WORD_RANGE == bits / WORD_RANGE % WORD_RANGE
  {
    var q := bits / SIZE_RANGE;
    assert bits == wrapped + WORD_RANGE * (WORD_RANGE * q);
    assert bits / WORD_RANGE == wrapped / WORD_RANGE + WORD_RANGE * q;
  }

  /** The wrapping 64-bit counter loses nothing that the padding or the length words need. */
  lemma WrappedSize(n: nat, size: nat)
    requires size == n % SIZE_RANGE
    ensures size % BLOCK == n % BLOCK
    ensures size * 8 % SIZE_RANGE % WORD_RANGE == LowHalf(n)
    ensures size * 8 % SIZE_RANGE / WORD_RANGE == HighHalf(n)
  {
    WrappedBits(n, size, n / SIZE_RANGE);
    HalvesOfWrapped(8 * n, size * 8 % SIZE_RANGE);
  }

  lemma WrappedUndo(n: nat, size: nat, k: nat, size': nat)
    requires size == n % SIZE_RANGE && size' == (n + k) % SIZE_RANGE && k < SIZE_RANGE
    ensures (size' - k) % SIZE_RANGE == size
  {
  }

  /** The source's padding length. */
  lemma PaddingLength(n: nat, offset: nat)
    requires offset == n % BLOCK
    ensures |Padding(n)| == if offset < 56 then 56 - offset else 56 + 64 - offset
  {
  }

  lemma WrappedSum(n: nat, size: nat, k: nat)
    requires size == n % SIZE_RANGE
    ensures (size + k) % SIZE_RANGE == (n + k) % SIZE_RANGE
  {
  }

  /** The front of the source's padding table. */
  function PaddingTable(length: nat): (p: seq<Byte>)
    requires 0 < length <= BLOCK
  {
    [0x80] + seq(length - 1, _ => 0)
  }

  lemma WordsOfBlock(block: seq<Byte>, x: seq<Word>)
    requires |block| == BLOCK && |x| == 16
    requires forall j :: 0 <= j < 16 ==> x[j] == BytesToWord(block[4 * j..4 * j + 4])
    ensures x == BlockWords(block)
  {
  }

  function Concat(chunks: seq<seq<Byte>>): seq<Byte> {
    if chunks == [] then [] else Concat(chunks[..|chunks| - 1]) + chunks[|chunks| - 1]
  }
}
