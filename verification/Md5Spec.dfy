/** The condensed block step of shared/md5.c, and that it is the block step of RFC 1321. */
module Md5Spec {
  import opened Md5Rfc

  const WORD_RANGE: nat := 0x1_0000_0000
  const SIZE_RANGE: nat := 0x1_0000_0000_0000_0000
  const BLOCK: nat := 64

  /** The additive constants. */
  const K: seq<Word> :=
    [0xd76aa478, 0xe8c7b756, 0x242070db, 0xc1bdceee, 0xf57c0faf, 0x4787c62a, 0xa8304613, 0xfd469501,
     0x698098d8, 0x8b44f7af, 0xffff5bb1, 0x895cd7be, 0x6b901122, 0xfd987193, 0xa679438e, 0x49b40821] +
    [0xf61e2562, 0xc040b340, 0x265e5a51, 0xe9b6c7aa, 0xd62f105d, 0x02441453, 0xd8a1e681, 0xe7d3fbc8,
     0x21e1cde6, 0xc33707d6, 0xf4d50d87, 0x455a14ed, 0xa9e3e905, 0xfcefa3f8, 0x676f02d9, 0x8d2a4c8a] +
    [0xfffa3942, 0x8771f681, 0x6d9d6122, 0xfde5380c, 0xa4beea44, 0x4bdecfa9, 0xf6bb4b60, 0xbebfbc70,
     0x289b7ec6, 0xeaa127fa, 0xd4ef3085, 0x04881d05, 0xd9d4d039, 0xe6db99e5, 0x1fa27cf8, 0xc4ac5665] +
    [0xf4292244, 0x432aff97, 0xab9423a7, 0xfc93a039, 0x655b59c3, 0x8f0ccc92, 0xffeff47d, 0x85845dd1,
     0x6fa87e4f, 0xfe2ce6e0, 0xa3014314, 0x4e0811a1, 0xf7537e82, 0xbd3af235, 0x2ad7d2bb, 0xeb86d391]

  /** The rotation amounts: four per round, used in turn. */
  function Shift(i: nat): (n: nat)
    requires i < 64
    ensures 0 < n < 32
  {
    match i / 16
    case 0 => [7, 12, 17, 22][i % 4]
    case 1 => [5, 9, 14, 20][i % 4]
    case 2 => [4, 11, 16, 23][i % 4]
    case _ => [6, 10, 15, 21][i % 4]
  }

  const INITIAL: Registers<Word> := Registers(0x67452301, 0xefcdab89, 0x98badcfe, 0x10325476)

  function F(x: Word, y: Word, z: Word): Word { (x & y) | (!x & z) }
  function G(x: Word, y: Word, z: Word): Word { (x & z) | (y & !z) }
  function H(x: Word, y: Word, z: Word): Word { x ^ y ^ z }
  function I(x: Word, y: Word, z: Word): Word { y ^ (x | !z) }

  function RotateLeft(x: Word, n: nat): Word
    requires 0 < n < 32
  {
    (x << n) | (x >> (32 - n))
  }

  // ---------- The block step of the source: registers rotate through the roles ----------

  function Mix(i: nat, b: Word, c: Word, d: Word): Word
    requires i < 64
  {
    match i / 16
    case 0 => F(b, c, d)
    case 1 => G(b, c, d)
    case 2 => H(b, c, d)
    case _ => I(b, c, d)
  }

  function WordIndex(i: nat): (j: nat)
    requires i < 64
    ensures j < 16
  {
    match i / 16
    case 0 => i
    case 1 => (i * 5 + 1) % 16
    case 2 => (i * 3 + 5) % 16
    case _ => (i * 7) % 16
  }

  /** The word of the block that each of the 64 operations takes. */
  function SourceSchedule(x: seq<Word>): (w: seq<Word>)
    requires |x| == 16
    ensures |w| == 64
  {
    seq(64, i requires 0 <= i < 64 => x[WordIndex(i)])
  }

  /** The new value of the second register, with additions modulo 2^32. */
  function Turn(a: Word, mixed: Word, k: Word, word: Word, b: Word, n: nat): Word
    requires 0 < n < 32
  {
    Plus(b, RotateLeft(a + mixed + k + word, n))
  }

  function Operate(i: nat, a: Word, b: Word, c: Word, d: Word, word: Word): Word
    requires i < 64
  {
    Turn(a, Mix(i, b, c, d), K[i], word, b, Shift(i))
  }

  function Operations(w: seq<Word>): Operation<Word>
    requires |w| == 64
  {
    (i: nat, a: Word, b: Word, c: Word, d: Word) => if i < 64 then Operate(i, a, b, c, d, w[i]) else 0
  }

  function Round<T>(i: nat, q: Registers<T>, op: Operation<T>): Registers<T> {
    Registers(q.d, op(i, q.a, q.b, q.c, q.d), q.b, q.c)
  }

  function Rounds<T>(n: nat, r: Registers<T>, op: Operation<T>): Registers<T> {
    if n == 0 then r else Round(n - 1, Rounds(n - 1, r, op), op)
  }

  function Add(r: Registers<Word>, q: Registers<Word>): Registers<Word> {
    Registers(Plus(r.a, q.a), Plus(r.b, q.b), Plus(r.c, q.c), Plus(r.d, q.d))
  }

  function Step(r: Registers<Word>, x: seq<Word>): Registers<Word>
    requires |x| == 16
  {
    Add(r, Rounds(64, r, Operations(SourceSchedule(x))))
  }

  // ---------- Moving values or moving roles ----------

  /** The registers in the roles a, b, c, d of operation `i`. */
  function Roles<T>(i: nat, r: Registers<T>): Registers<T> {
    match i % 4
    case 0 => r
    case 1 => Registers(r.d, r.a, r.b, r.c)
    case 2 => Registers(r.c, r.d, r.a, r.b)
    case _ => Registers(r.b, r.c, r.d, r.a)
  }

  lemma RoundIsInPlace<T>(i: nat, q: Registers<T>, op: Operation<T>)
    ensures Round(i, Roles(i, q), op) == Roles(i + 1, InPlaceOnce(i, q, op))
  {
    var phase := i % 4;
    assert (i + 1) % 4 == if phase == 3 then 0 else phase + 1;
    if phase == 0 {
    } else if phase == 1 {
    } else if phase == 2 {
    } else {
    }
  }

  /** Moving the values through fixed roles is the same as moving the roles over fixed registers. */
  lemma {:induction false} RoundsAreInPlace<T>(n: nat, r: Registers<T>, op: Operation<T>)
    ensures Rounds(n, r, op) == Roles(n, InPlace(n, r, op))
  {
    if n > 0 {
      RoundsAreInPlace(n - 1, r, op);
      RoundIsInPlace(n - 1, InPlace(n - 1, r, op), op);
    }
  }

  lemma SixtyFourRounds<T>(r: Registers<T>, op: Operation<T>)
    ensures Rounds(64, r, op) == InPlace(64, r, op)
  {
    RoundsAreInPlace(64, r, op);
  }

  // ---------- Word, rotation and constant of each operation ----------

  lemma WordsOfRound1(i: nat)
    requires i < 16
    ensures EntryOf(i).k == WordIndex(i)
  {
  }

  lemma ShiftsOfRound1(i: nat)
    requires i < 16
    ensures EntryOf(i).s == Shift(i)
  {
  }

  lemma ConstantsOfRound1(i: nat)
    requires i < 16
    ensures EntryOf(i).t == K[i]
  {
  }

  lemma WordsOfRound2(i: nat)
    requires 16 <= i < 32
    ensures EntryOf(i).k == WordIndex(i)
  {
  }

  lemma ShiftsOfRound2(i: nat)
    requires 16 <= i < 32
    ensures EntryOf(i).s == Shift(i)
  {
  }

  lemma ConstantsOfRound2(i: nat)
    requires 16 <= i < 32
    ensures EntryOf(i).t == K[i]
  {
  }

  lemma WordsOfRound3(i: nat)
    requires 32 <= i < 48
    ensures EntryOf(i).k == WordIndex(i)
  {
  }

  lemma ShiftsOfRound3(i: nat)
    requires 32 <= i < 48
    ensures EntryOf(i).s == Shift(i)
  {
  }

  lemma ConstantsOfRound3(i: nat)
    requires 32 <= i < 48
    ensures EntryOf(i).t == K[i]
  {
  }

  lemma WordsOfRound4(i: nat)
    requires 48 <= i < 64
    ensures EntryOf(i).k == WordIndex(i)
  {
  }

  lemma ShiftsOfRound4(i: nat)
    requires 48 <= i < 64
    ensures EntryOf(i).s == Shift(i)
  {
  }

  lemma ConstantsOfRound4(i: nat)
    requires 48 <= i < 64
    ensures EntryOf(i).t == K[i]
  {
  }

  /** The computed word index, the table of rotations and the table of constants are those that the standard writes out
      operation by operation. */
  lemma EntryIsComputed(i: nat)
    requires i < 64
    ensures EntryOf(i) == Entry(WordIndex(i), Shift(i), K[i])
  {
    if i < 16 {
      WordsOfRound1(i);
      ShiftsOfRound1(i);
      ConstantsOfRound1(i);
    } else if i < 32 {
      WordsOfRound2(i);
      ShiftsOfRound2(i);
      ConstantsOfRound2(i);
    } else if i < 48 {
      WordsOfRound3(i);
      ShiftsOfRound3(i);
      ConstantsOfRound3(i);
    } else {
      WordsOfRound4(i);
      ShiftsOfRound4(i);
      ConstantsOfRound4(i);
    }
  }

  // ---------- The arithmetic of one operation ----------

  lemma RotationOfRound1(x: Word, n: nat)
    requires n in {7, 12, 17, 22}
    ensures RotateLeft(x, n) == x.RotateLeft(n)
  {
    if n == 7 {
      assert RotateLeft(x, 7) == x.RotateLeft(7);
    } else if n == 12 {
      assert RotateLeft(x, 12) == x.RotateLeft(12);
    } else if n == 17 {
      assert RotateLeft(x, 17) == x.RotateLeft(17);
    } else {
      assert RotateLeft(x, 22) == x.RotateLeft(22);
    }
  }

  lemma RotationOfRound2(x: Word, n: nat)
    requires n in {5, 9, 14, 20}
    ensures RotateLeft(x, n) == x.RotateLeft(n)
  {
    if n == 5 {
      assert RotateLeft(x, 5) == x.RotateLeft(5);
    } else if n == 9 {
      assert RotateLeft(x, 9) == x.RotateLeft(9);
    } else if n == 14 {
      assert RotateLeft(x, 14) == x.RotateLeft(14);
    } else {
      assert RotateLeft(x, 20) == x.RotateLeft(20);
    }
  }

  lemma RotationOfRound3(x: Word, n: nat)
    requires n in {4, 11, 16, 23}
    ensures RotateLeft(x, n) == x.RotateLeft(n)
  {
    if n == 4 {
      assert RotateLeft(x, 4) == x.RotateLeft(4);
    } else if n == 11 {
      assert RotateLeft(x, 11) == x.RotateLeft(11);
    } else if n == 16 {
      assert RotateLeft(x, 16) == x.RotateLeft(16);
    } else {
      assert RotateLeft(x, 23) == x.RotateLeft(23);
    }
  }

  lemma RotationOfRound4(x: Word, n: nat)
    requires n in {6, 10, 15, 21}
    ensures RotateLeft(x, n) == x.RotateLeft(n)
  {
    if n == 6 {
      assert RotateLeft(x, 6) == x.RotateLeft(6);
    } else if n == 10 {
      assert RotateLeft(x, 10) == x.RotateLeft(10);
    } else if n == 15 {
      assert RotateLeft(x, 15) == x.RotateLeft(15);
    } else {
      assert RotateLeft(x, 21) == x.RotateLeft(21);
    }
  }

  lemma ShiftIsListed(i: nat)
    requires i < 64
    ensures i < 16 ==> Shift(i) in {7, 12, 17, 22}
    ensures 16 <= i < 32 ==> Shift(i) in {5, 9, 14, 20}
    ensures 32 <= i < 48 ==> Shift(i) in {4, 11, 16, 23}
    ensures 48 <= i ==> Shift(i) in {6, 10, 15, 21}
  {
  }

  /** Two shifts make a rotation. */
  lemma RotationOf(x: Word, i: nat, n: nat)
    requires i < 64 && n == Shift(i)
    ensures RotateLeft(x, n) == x.RotateLeft(n)
  {
    ShiftIsListed(i);
    if i < 16 {
      RotationOfRound1(x, n);
    } else if i < 32 {
      RotationOfRound2(x, n);
    } else if i < 48 {
      RotationOfRound3(x, n);
    } else {
      RotationOfRound4(x, n);
    }
  }

  lemma RotationIsRotated(x: Word, n: nat)
    requires 0 < n < 32 && RotateLeft(x, n) == x.RotateLeft(n)
    ensures RotateLeft(x, n) == Rotated(x, n)
  {
  }

  lemma RotatedAt(x: Word, i: nat, n: nat)
    requires i < 64 && n == Shift(i)
    ensures RotateLeft(x, n) == Rotated(x, n)
  {
    RotationOf(x, i, n);
    RotationIsRotated(x, n);
  }

  lemma TurnIsRfcTurn(a: Word, mixed: Word, k: Word, word: Word, b: Word, n: nat)
    requires 0 < n < 32 && RotateLeft(a + mixed + k + word, n) == Rotated(a + mixed + k + word, n)
    ensures Turn(a, mixed, k, word, b, n) == RfcTurn(a, mixed, word, k, b, n)
  {
  }

  lemma TurnAt(a: Word, mixed: Word, k: Word, word: Word, b: Word, i: nat, n: nat)
    requires i < 64 && n == Shift(i)
    ensures Turn(a, mixed, k, word, b, n) == RfcTurn(a, mixed, word, k, b, n)
  {
    RotatedAt(a + mixed + k + word, i, n);
    TurnIsRfcTurn(a, mixed, k, word, b, n);
  }

  lemma FIsRoundF(x: Word, y: Word, z: Word)
    ensures F(x, y, z) == RoundF(x, y, z)
  {
  }

  lemma GIsRoundG(x: Word, y: Word, z: Word)
    ensures G(x, y, z) == RoundG(x, y, z)
  {
  }

  lemma HIsRoundH(x: Word, y: Word, z: Word)
    ensures H(x, y, z) == RoundH(x, y, z)
  {
  }

  lemma IIsRoundI(x: Word, y: Word, z: Word)
    ensures I(x, y, z) == RoundI(x, y, z)
  {
  }

  lemma MixIsRoundFunction(i: nat, b: Word, c: Word, d: Word)
    requires i < 64
    ensures Mix(i, b, c, d) == RoundFunction(i, b, c, d)
  {
    if i < 16 {
      FIsRoundF(b, c, d);
    } else if i < 32 {
      GIsRoundG(b, c, d);
    } else if i < 48 {
      HIsRoundH(b, c, d);
    } else {
      IIsRoundI(b, c, d);
    }
  }

  /** One operation of the source is that of the standard. */
  lemma OperateIsRfcOperate(i: nat, a: Word, b: Word, c: Word, d: Word, x: seq<Word>)
    requires i < 64 && |x| == 16
    ensures Operate(i, a, b, c, d, x[WordIndex(i)]) == RfcOperate(i, a, b, c, d, x)
  {
    EntryIsComputed(i);
    MixIsRoundFunction(i, b, c, d);
    TurnAt(a, Mix(i, b, c, d), K[i], x[WordIndex(i)], b, i, Shift(i));
  }

  // The operations are compared one by one through these predicates, so that the solver meets the bit operations only
  // in the lemmas above.

  ghost predicate SameOperation<T>(op: Operation<T>, op': Operation<T>, i: nat, q: Registers<T>) {
    op(i, q.a, q.b, q.c, q.d) == op'(i, q.a, q.b, q.c, q.d)
  }

  ghost predicate SameOperations<T(!new)>(op: Operation<T>, op': Operation<T>) {
    forall i, q {:trigger SameOperation(op, op', i, q)} :: SameOperation(op, op', i, q)
  }

  lemma SameRound<T(!new)>(i: nat, q: Registers<T>, op: Operation<T>, op': Operation<T>)
    requires SameOperations(op, op')
    ensures Round(i, q, op) == Round(i, q, op')
  {
    assert SameOperation(op, op', i, q);
  }

  lemma {:induction false} SameRounds<T(!new)>(n: nat, r: Registers<T>, op: Operation<T>, op': Operation<T>)
    requires SameOperations(op, op')
    ensures Rounds(n, r, op) == Rounds(n, r, op')
  {
    if n > 0 {
      SameRounds(n - 1, r, op, op');
      SameRound(n - 1, Rounds(n - 1, r, op), op, op');
    }
  }

  lemma OperationsAreRfc(x: seq<Word>)
    requires |x| == 16
    ensures SameOperations(Operations(SourceSchedule(x)), RfcOperations(x))
  {
    var op, op' := Operations(SourceSchedule(x)), RfcOperations(x);
    forall i, q: Registers<Word>
      ensures SameOperation(op, op', i, q)
    {
      if i < 64 {
        OperateIsRfcOperate(i, q.a, q.b, q.c, q.d, x);
      }
    }
  }

  /** The sixty-four rounds of the source are the sixty-four operations of the standard. */
  lemma RoundsAreRfc(r: Registers<Word>, x: seq<Word>)
    requires |x| == 16
    ensures Rounds(64, r, Operations(SourceSchedule(x))) == InPlace(64, r, RfcOperations(x))
  {
    OperationsAreRfc(x);
    SameRounds(64, r, Operations(SourceSchedule(x)), RfcOperations(x));
    SixtyFourRounds(r, RfcOperations(x));
  }

  /** The condensed step computes the block step of the standard. */
  lemma StepIsRfcStep(r: Registers<Word>, x: seq<Word>)
    requires |x| == 16
    ensures Step(r, x) == RfcStep(r, x)
  {
    RoundsAreRfc(r, x);
  }
}
