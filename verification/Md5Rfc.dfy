/** The block step of the MD5 message digest as section 3.4 of RFC 1321 writes it out: sixty-four operations, each with
    its own word, rotation and constant, on four fixed registers. */
module Md5Rfc {
  type Byte = bv8
  type Word = bv32

  /** Four registers; what follows about moving them does not depend on what they hold. */
  datatype Registers<T> = Registers(a: T, b: T, c: T, d: T)

  /** `[abcd k s i]`: which word of the block is used, how far is rotated, and the constant T[i]. */
  datatype Entry = Entry(k: nat, s: nat, t: Word)

  const ROUND_1: seq<Entry> := [
    Entry(0, 7, 0xd76aa478), Entry(1, 12, 0xe8c7b756), Entry(2, 17, 0x242070db), Entry(3, 22, 0xc1bdceee),
    Entry(4, 7, 0xf57c0faf), Entry(5, 12, 0x4787c62a), Entry(6, 17, 0xa8304613), Entry(7, 22, 0xfd469501),
    Entry(8, 7, 0x698098d8), Entry(9, 12, 0x8b44f7af), Entry(10, 17, 0xffff5bb1), Entry(11, 22, 0x895cd7be),
    Entry(12, 7, 0x6b901122), Entry(13, 12, 0xfd987193), Entry(14, 17, 0xa679438e), Entry(15, 22, 0x49b40821)]

  const ROUND_2: seq<Entry> := [
    Entry(1, 5, 0xf61e2562), Entry(6, 9, 0xc040b340), Entry(11, 14, 0x265e5a51), Entry(0, 20, 0xe9b6c7aa),
    Entry(5, 5, 0xd62f105d), Entry(10, 9, 0x02441453), Entry(15, 14, 0xd8a1e681), Entry(4, 20, 0xe7d3fbc8),
    Entry(9, 5, 0x21e1cde6), Entry(14, 9, 0xc33707d6), Entry(3, 14, 0xf4d50d87), Entry(8, 20, 0x455a14ed),
    Entry(13, 5, 0xa9e3e905), Entry(2, 9, 0xfcefa3f8), Entry(7, 14, 0x676f02d9), Entry(12, 20, 0x8d2a4c8a)]

  const ROUND_3: seq<Entry> := [
    Entry(5, 4, 0xfffa3942), Entry(8, 11, 0x8771f681), Entry(11, 16, 0x6d9d6122), Entry(14, 23, 0xfde5380c),
    Entry(1, 4, 0xa4beea44), Entry(4, 11, 0x4bdecfa9), Entry(7, 16, 0xf6bb4b60), Entry(10, 23, 0xbebfbc70),
    Entry(13, 4, 0x289b7ec6), Entry(0, 11, 0xeaa127fa), Entry(3, 16, 0xd4ef3085), Entry(6, 23, 0x04881d05),
    Entry(9, 4, 0xd9d4d039), Entry(12, 11, 0xe6db99e5), Entry(15, 16, 0x1fa27cf8), Entry(2, 23, 0xc4ac5665)]

  const ROUND_4: seq<Entry> := [
    Entry(0, 6, 0xf4292244), Entry(7, 10, 0x432aff97), Entry(14, 15, 0xab9423a7), Entry(5, 21, 0xfc93a039),
    Entry(12, 6, 0x655b59c3), Entry(3, 10, 0x8f0ccc92), Entry(10, 15, 0xffeff47d), Entry(1, 21, 0x85845dd1),
    Entry(8, 6, 0x6fa87e4f), Entry(15, 10, 0xfe2ce6e0), Entry(6, 15, 0xa3014314), Entry(13, 21, 0x4e0811a1),
    Entry(4, 6, 0xf7537e82), Entry(11, 10, 0xbd3af235), Entry(2, 15, 0x2ad7d2bb), Entry(9, 21, 0xeb86d391)]

  predicate InRange(e: Entry) {
    e.k < 16 && 0 < e.s < 32
  }

  function EntryOf(i: nat): (e: Entry)
    requires i < 64
    ensures InRange(e)
  {
    if i < 16 then ROUND_1[i] else if i < 32 then ROUND_2[i - 16] else if i < 48 then ROUND_3[i - 32]
    else ROUND_4[i - 48]
  }

  /** "If X then Y else Z", bit by bit. */
  function RoundF(x: Word, y: Word, z: Word): Word { (x & y) | (!x & z) }
  /** "If Z then X else Y", bit by bit. */
  function RoundG(x: Word, y: Word, z: Word): Word { (x & z) | (y & !z) }
  /** Parity, bit by bit. */
  function RoundH(x: Word, y: Word, z: Word): Word { x ^ y ^ z }
  function RoundI(x: Word, y: Word, z: Word): Word { y ^ (x | !z) }

  function RoundFunction(i: nat, x: Word, y: Word, z: Word): Word
    requires i < 64
  {
    if i < 16 then RoundF(x, y, z) else if i < 32 then RoundG(x, y, z) else if i < 48 then RoundH(x, y, z)
    else RoundI(x, y, z)
  }

  /** Where x has a 1, the bit of y, and where it has a 0, that of z. */
  lemma RoundFByBits(x: Word, y: Word, z: Word)
    ensures RoundF(x, y, z) & x == y & x && RoundF(x, y, z) & !x == z & !x
  {
  }

  /** Where z has a 1, the bit of x, and where it has a 0, that of y. */
  lemma RoundGByBits(x: Word, y: Word, z: Word)
    ensures RoundG(x, y, z) & z == x & z && RoundG(x, y, z) & !z == y & !z
  {
  }

  /** Where y and z have the same bit, the bit of x. */
  lemma RoundHWhereSame(x: Word, y: Word, z: Word)
    ensures RoundH(x, y, z) & !(y ^ z) == x & !(y ^ z)
  {
  }

  /** Where y and z have different bits, the opposite of the bit of x. */
  lemma RoundHWhereDifferent(x: Word, y: Word, z: Word)
    ensures RoundH(x, y, z) & (y ^ z) == !x & (y ^ z)
  {
  }

  /** Where x has a 1 or z has a 0, the opposite of the bit of y, and elsewhere the bit of y. */
  lemma RoundIByBits(x: Word, y: Word, z: Word)
    ensures RoundI(x, y, z) & x == !y & x && RoundI(x, y, z) & !z == !y & !z
    ensures RoundI(x, y, z) & !x & z == y & !x & z
  {
  }

  function Plus(x: Word, y: Word): Word {
    x + y
  }

  /** What addition of words is: adding one to a summand adds one to the sum. */
  lemma PlusCounts(x: Word, y: Word)
    ensures Plus(x, 0) == x && Plus(x, y + 1) == Plus(x, y) + 1
  {
  }

  function Rotated(x: Word, s: nat): Word
    requires 0 < s < 32
  {
    x.RotateLeft(s)
  }

  /** b + ((a + f + X[k] + T[i]) <<< s), with additions modulo 2^32, in which the order of a sum does not matter. */
  function RfcTurn(a: Word, f: Word, word: Word, t: Word, b: Word, s: nat): Word
    requires 0 < s < 32
  {
    Plus(b, Rotated(a + f + t + word, s))
  }

  function RfcOperate(i: nat, a: Word, b: Word, c: Word, d: Word, x: seq<Word>): Word
    requires i < 64 && |x| == 16
  {
    RfcTurn(a, RoundFunction(i, b, c, d), x[EntryOf(i).k], EntryOf(i).t, b, EntryOf(i).s)
  }

  /** What operation `i` makes of the four registers, as a function of the registers alone. */
  type Operation<!T> = (nat, T, T, T, T) -> T

  function RfcOperations(x: seq<Word>): Operation<Word>
    requires |x| == 16
  {
    (i: nat, a: Word, b: Word, c: Word, d: Word) => if i < 64 then RfcOperate(i, a, b, c, d, x) else 0
  }

  /** The operations write their first register, in the orders ABCD, DABC, CDAB, BCDA. */
  function InPlaceOnce<T>(i: nat, q: Registers<T>, op: Operation<T>): Registers<T> {
    match i % 4
    case 0 => q.(a := op(i, q.a, q.b, q.c, q.d))
    case 1 => q.(d := op(i, q.d, q.a, q.b, q.c))
    case 2 => q.(c := op(i, q.c, q.d, q.a, q.b))
    case _ => q.(b := op(i, q.b, q.c, q.d, q.a))
  }

  function InPlace<T>(n: nat, r: Registers<T>, op: Operation<T>): Registers<T> {
    if n == 0 then r else InPlaceOnce(n - 1, InPlace(n - 1, r, op), op)
  }

  /** The sixty-four operations, and then each register is increased by the value it had before. */
  function RfcStep(r: Registers<Word>, x: seq<Word>): Registers<Word>
    requires |x| == 16
  {
    var q := InPlace(64, r, RfcOperations(x));
    Registers(Plus(r.a, q.a), Plus(r.b, q.b), Plus(r.c, q.c), Plus(r.d, q.d))
  }
}
