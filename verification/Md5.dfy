/** shared/md5.c: the context updated chunk by chunk, proved to give the digest of the whole message. */
module Md5 {
  import opened Md5Rfc
  import opened Md5Spec
  import opened Md5Stream

  function FromSeq(s: seq<Word>): Registers<Word>
    requires |s| == 4
  {
    Registers(s[0], s[1], s[2], s[3])
  }

  function Held(buffer: array<Word>): Registers<Word>
    requires buffer.Length == 4
    reads buffer
  {
    FromSeq(buffer[..])
  }

  /** One pass of the loop below, with the new value of the second register. */
  lemma RoundExtends(i: nat, r: Registers<Word>, q: Registers<Word>, x: seq<Word>, word: Word)
    requires i < 64 && |x| == 16
    requires q == Rounds(i, r, Operations(SourceSchedule(x)))
    requires word == x[WordIndex(i)]
    ensures Registers(q.d, Operate(i, q.a, q.b, q.c, q.d, word), q.b, q.c)
         == Rounds(i + 1, r, Operations(SourceSchedule(x)))
  {
    var op := Operations(SourceSchedule(x));
    assert op(i, q.a, q.b, q.c, q.d) == Operate(i, q.a, q.b, q.c, q.d, word);
  }

  /** The round function of operation `i` and the index of its word. */
  method Choose(i: nat, bb: Word, cc: Word, dd: Word) returns (e: Word, j: nat)
    requires i < 64
    ensures e == Mix(i, bb, cc, dd) && j == WordIndex(i)
  {
    match i / 16
    case 0 =>
      e := F(bb, cc, dd);
      j := i;
    case 1 =>
      e := G(bb, cc, dd);
      j := (i * 5 + 1) % 16;
    case 2 =>
      e := H(bb, cc, dd);
      j := (i * 3 + 5) % 16;
    case _ =>
      e := I(bb, cc, dd);
      j := (i * 7) % 16;
  }

  method NewB(i: nat, q: Registers<Word>, x: seq<Word>) returns (bb: Word)
    requires i < 64 && |x| == 16
    ensures bb == Operate(i, q.a, q.b, q.c, q.d, x[WordIndex(i)])
  {
    var e, j := Choose(i, q.b, q.c, q.d);
    bb := Turn(q.a, e, K[i], x[j], q.b, Shift(i));
  }

  method SixtyFour(r: Registers<Word>, x: seq<Word>) returns (q: Registers<Word>)
    requires |x| == 16
    ensures q == InPlace(64, r, RfcOperations(x))
  {
    RoundsAreRfc(r, x);
    q := r;
    for i := 0 to 64
      invariant q == Rounds(i, r, Operations(SourceSchedule(x)))
    {
      var bb := NewB(i, q, x);
      RoundExtends(i, r, q, x, x[WordIndex(i)]);
      q := Registers(q.d, bb, q.b, q.c);
    }
  }

  method Store(buffer: array<Word>, a: Word, b: Word, c: Word, d: Word)
    requires buffer.Length == 4
    modifies buffer
    ensures buffer[..] == [a, b, c, d]
  {
    buffer[0], buffer[1], buffer[2], buffer[3] := a, b, c, d;
  }

  /** One block on the registers, in place. */
  method Md5Step(buffer: array<Word>, x: seq<Word>)
    requires buffer.Length == 4 && |x| == 16
    modifies buffer
    ensures Held(buffer) == RfcStep(old(Held(buffer)), x)
  {
    var r := Held(buffer);
    var q := SixtyFour(r, x);
    var s := Add(r, q);
    Store(buffer, s.a, s.b, s.c, s.d);
  }

  class Md5Context {
    /** In bytes, a 64-bit counter. */
    var size: nat
    const buffer: array<Word>
    const input: array<Byte>
    const digest: array<Byte>
    /** Everything hashed so far. */
    ghost var message: seq<Byte>
    ghost const step: Stepper<Registers<Word>>

    ghost predicate Shape()
    {
      && buffer.Length == 4 && input.Length == BLOCK && digest.Length == 16
      && input != digest
    }

    ghost predicate Valid()
      reads this, buffer, input
    {
      && size == |message| % SIZE_RANGE
      && Tracking(message)
    }

    constructor ()
      ensures Valid() && message == []
      ensures fresh(buffer) && fresh(input) && fresh(digest)
    {
      size := 0;
      message := [];
      step := Process;
      buffer := new Word[] [INITIAL.a, INITIAL.b, INITIAL.c, INITIAL.d];
      input := new Byte[BLOCK];
      digest := new Byte[16];
    }

    /** The first `count` words of the held block. */
    method DecodeWords(count: nat) returns (words: array<Word>)
      requires Shape() && count <= 16
      ensures fresh(words) && words.Length == 16
      ensures forall j :: 0 <= j < count ==> words[j] == BytesToWord(input[4 * j..4 * j + 4])
    {
      words := new Word[16];
      for j := 0 to count
        invariant forall k :: 0 <= k < j ==> words[k] == BytesToWord(input[4 * k..4 * k + 4])
      {
        words[j] := BytesToWord(input[4 * j..4 * j + 4]);
      }
    }

    /** The held block is full: run it through the block step. */
    method ProcessInput()
      requires Shape()
      modifies buffer
      ensures Held(buffer) == Process(old(Held(buffer)), input[..])
    {
      var words := DecodeWords(16);
      WordsOfBlock(input[..], words[..]);
      Md5Step(buffer, words[..]);
    }

    /** The held bytes and the registers account for `m`. */
    ghost predicate Tracking(m: seq<Byte>)
      reads buffer, input
    {
      Shape() && IsBlockStep(step) && Tracks(INITIAL, step, m, Held(buffer), input[..])
    }

    method PutByte(offset: nat, b: Byte)
      requires Shape() && offset < BLOCK
      modifies input
      ensures input[..] == old(input[..])[offset := b]
    {
      input[offset] := b;
    }

    /** The next byte of the stream goes to `offset`; a full block is processed. */
    method TakeOne(offset: nat, b: Byte, ghost m: seq<Byte>) returns (next: nat)
      requires Tracking(m) && offset == |m| % BLOCK
      modifies buffer, input
      ensures Tracking(m + [b]) && next == |m + [b]| % BLOCK
    {
      ghost var r, held := Held(buffer), input[..];
      PutByte(offset, b);
      next := offset + 1;
      if next % BLOCK == 0 {
        FillBlock(INITIAL, step, m, r, held, b);
        assert AgreeOn(step, Process, r, input[..]);
        ProcessInput();
        next := 0;
      } else {
        TakeByte(INITIAL, step, m, r, held, b);
      }
    }

    method Update(chunk: seq<Byte>)
      requires Valid() && |chunk| < WORD_RANGE
      modifies this, buffer, input
      ensures Valid() && message == old(message) + chunk
    {
      var offset := size % BLOCK;
      WrappedSize(|message|, size);
      WrappedSum(|message|, size, |chunk|);
      size := (size + |chunk|) % SIZE_RANGE;
      ghost var before, m := message, message;
      message := message + chunk;
      for i := 0 to |chunk|
        modifies buffer, input
        invariant m == before + chunk[..i]
        invariant Tracking(m) && offset == |m| % BLOCK
      {
        offset := TakeOne(offset, chunk[i], m);
        m := m + [chunk[i]];
      }
      assert m == message;
    }

    method Pad() returns (paddingLength: nat)
      requires Valid()
      modifies this, buffer, input
      ensures size == old(size) && Tracking(old(message) + Padding(|old(message)|))
    {
      ghost var n, before := |message|, size;
      var offset := size % BLOCK;
      paddingLength := if offset < 56 then 56 - offset else 56 + 64 - offset;
      WrappedSize(n, size);
      PaddingLength(n, offset);
      Update(PaddingTable(paddingLength));
      WrappedUndo(n, before, paddingLength, size);
      size := (size - paddingLength) % SIZE_RANGE;
    }

    /** The last block: 56 held bytes and the length. */
    method LastWords(ghost n: nat) returns (words: array<Word>)
      requires Shape() && size == n % SIZE_RANGE
      ensures words.Length == 16
      ensures words[..] == BlockWords(input[..56] + LengthBytes(n))
    {
      words := DecodeWords(14);
      WrappedSize(n, size);
      words[14] := (size * 8 % SIZE_RANGE % WORD_RANGE) as Word;
      words[15] := (size * 8 % SIZE_RANGE / WORD_RANGE) as Word;
      LengthWords(input[..56], n, words[..]);
    }

    /** The digest of everything hashed; the context is then used up. */
    method Finalize()
      requires Valid()
      modifies this, buffer, input, digest
      ensures digest[..] == Digest(old(message))
    {
      ghost var m := message;
      var _ := Pad();
      var words := LastWords(|m|);
      ghost var r := Held(buffer);
      Md5Step(buffer, words[..]);
      LastStep(step, m, r, input[..], Held(buffer));
      WriteDigest(Held(buffer));
    }

    method WriteWord(i: nat, w: Word)
      requires Shape() && i < 4
      modifies digest
      ensures digest[..4 * i] == old(digest[..4 * i])
      ensures digest[4 * i..4 * i + 4] == WordBytes(w)
    {
      var bytes := WordBytes(w);
      for k := 0 to 4
        invariant digest[..4 * i] == old(digest[..4 * i])
        invariant digest[4 * i..4 * i + k] == bytes[..k]
      {
        digest[4 * i + k] := bytes[k];
      }
    }

    method WriteDigest(r: Registers<Word>)
      requires Shape()
      modifies digest
      ensures digest[..] == RegisterBytes(r)
    {
      var words := [r.a, r.b, r.c, r.d];
      for i := 0 to 4
        invariant digest[..4 * i] == RegisterBytes(r)[..4 * i]
      {
        WriteWord(i, words[i]);
        assert WordBytes(words[i]) == RegisterBytes(r)[4 * i..4 * i + 4];
        assert digest[..4 * i + 4] == digest[..4 * i] + digest[4 * i..4 * i + 4];
      }
    }
  }

  /** A message read in pieces of any sizes, as from a file. */
  method HashChunks(chunks: seq<seq<Byte>>) returns (result: seq<Byte>)
    requires forall i :: 0 <= i < |chunks| ==> |chunks[i]| < WORD_RANGE
    ensures result == Digest(Concat(chunks))
  {
    var context := new Md5Context();
    for i := 0 to |chunks|
      invariant context.Valid()
      invariant context.message == Concat(chunks[..i])
    {
      context.Update(chunks[i]);
      assert chunks[..i + 1][..i] == chunks[..i];
    }
    assert chunks[..|chunks|] == chunks;
    context.Finalize();
    result := context.digest[..];
  }
}
