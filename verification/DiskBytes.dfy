/** The bytes of the mapped disk: where the two write paths of delayed_write/disk_write.c put a block,
    how a sequence of blocks is laid out, and when merging writes changes nothing. */
module DiskBytes {
  type Byte = b: int | 0 <= b < 256

  const INT_RANGE := 0x1_0000_0000
  const INT_LIMIT := 0x8000_0000

  // ---------- Offsets ----------

  /** A product of two 32-bit signed integers, in two's complement. */
  function WrapInt(n: int): (w: int)
    ensures -INT_LIMIT <= w < INT_LIMIT
  {
    if -INT_LIMIT <= n < INT_LIMIT then n else (n + INT_LIMIT) % INT_RANGE - INT_LIMIT
  }

  /** Where a block starts, counted up from block 0: the offset of a merged write, which widens to 64
      bits before it multiplies. */
  function Start(block: nat, size: nat): nat {
    if block == 0 then 0 else Start(block - 1, size) + size
  }

  lemma {:induction false} StartIsProduct(block: nat, size: nat)
    ensures Start(block, size) == block * size
  {
    if block > 0 {
      StartIsProduct(block - 1, size);
    }
  }

  /** The single write multiplies as `int` and widens afterwards. */
  function SingleOffset(block: nat, size: nat): int {
    WrapInt(Start(block, size))
  }

  /** The two paths address the same bytes exactly when the product fits the `int`. */
  lemma OffsetsAgreeIff(block: nat, size: nat)
    ensures SingleOffset(block, size) == WrapInt(block * size)
    ensures SingleOffset(block, size) == Start(block, size) <==> block * size < INT_LIMIT
  {
    StartIsProduct(block, size);
  }

  /** With blocks of 4096 bytes, block 2^20 is written over block 0. */
  lemma LargeBlockHitsBlockZero(block: nat, size: nat)
    requires block == 0x10_0000 && size == 4096
    ensures Start(block, size) == 0x1_0000_0000 && SingleOffset(block, size) == Start(0, size)
  {
    StartIsProduct(block, size);
  }

  // ---------- Bytes replaced in place ----------

  function Patch(disk: seq<Byte>, at: nat, bytes: seq<Byte>): (d: seq<Byte>)
    requires at + |bytes| <= |disk|
    ensures |d| == |disk|
    ensures d[..at] == disk[..at] && d[at + |bytes|..] == disk[at + |bytes|..]
    ensures d[at..at + |bytes|] == bytes
  {
    disk[..at] + bytes + disk[at + |bytes|..]
  }

  lemma PatchOfPatch(disk: seq<Byte>, at: nat, x: seq<Byte>, y: seq<Byte>)
    requires at + |x| + |y| <= |disk|
    ensures Patch(disk, at, x + y) == Patch(Patch(disk, at, x), at + |x|, y)
  {
  }

  lemma PatchWithSame(disk: seq<Byte>, at: nat, bytes: seq<Byte>)
    requires at + |bytes| <= |disk| && disk[at..at + |bytes|] == bytes
    ensures Patch(disk, at, bytes) == disk
  {
  }

  lemma PatchElsewhere(disk: seq<Byte>, at: nat, bytes: seq<Byte>, lo: nat, hi: nat)
    requires at + |bytes| <= |disk| && lo <= hi <= |disk|
    requires hi <= at || at + |bytes| <= lo
    ensures Patch(disk, at, bytes)[lo..hi] == disk[lo..hi]
  {
    var d := Patch(disk, at, bytes);
    forall p | lo <= p < hi
      ensures d[p] == disk[p]
    {
      if p < at {
        assert d[p] == d[..at][p];
      } else {
        assert d[p] == d[at + |bytes|..][p - at - |bytes|];
      }
    }
  }

  // ---------- Blocks laid out one after another ----------

  lemma {:induction false} StartsGrow(m: nat, n: nat, size: nat)
    requires m <= n
    ensures Start(m, size) <= Start(n, size)
    decreases n
  {
    if m < n {
      StartsGrow(m, n - 1, size);
    }
  }

  lemma InRun(first: nat, size: nat, n: nat, i: nat)
    requires i < n
    ensures Start(first, size) <= Start(first + i, size)
    ensures Start(first + i, size) + size <= Start(first + n, size)
  {
    StartsGrow(first, first + i, size);
    StartsGrow(first + i + 1, first + n, size);
  }

  ghost predicate SizedBlocks(blocks: seq<seq<Byte>>, size: nat) {
    forall i | 0 <= i < |blocks| :: |blocks[i]| == size
  }

  /** The blocks as the bytes of a disk or of a merge buffer. */
  function Join(blocks: seq<seq<Byte>>): seq<Byte> {
    if blocks == [] then [] else Join(blocks[..|blocks| - 1]) + blocks[|blocks| - 1]
  }

  /** The `n` blocks that the bytes consist of. */
  function Split(bytes: seq<Byte>, size: nat, n: nat): (blocks: seq<seq<Byte>>)
    requires |bytes| == Start(n, size)
    ensures |blocks| == n
  {
    seq(n, i requires 0 <= i < n => Slice(bytes, size, n, i))
  }

  function Slice(bytes: seq<Byte>, size: nat, n: nat, i: nat): (block: seq<Byte>)
    requires |bytes| == Start(n, size) && i < n
    ensures |block| == size
  {
    InRun(0, size, n, i);
    bytes[Start(i, size)..Start(i, size) + size]
  }

  lemma {:induction false} JoinLength(first: nat, size: nat, blocks: seq<seq<Byte>>)
    requires SizedBlocks(blocks, size)
    ensures Start(first, size) + |Join(blocks)| == Start(first + |blocks|, size)
  {
    if |blocks| > 0 {
      JoinLength(first, size, blocks[..|blocks| - 1]);
    }
  }

  lemma {:induction false} JoinConcat(x: seq<seq<Byte>>, y: seq<seq<Byte>>)
    ensures Join(x + y) == Join(x) + Join(y)
  {
    if y == [] {
      assert x + y == x;
    } else {
      var n := |y| - 1;
      assert (x + y)[..|x + y| - 1] == x + y[..n];
      JoinConcat(x, y[..n]);
    }
  }

  lemma SliceOfFront(x: seq<Byte>, y: seq<Byte>, size: nat, n: nat, i: nat)
    requires |x| == Start(n, size) && |x + y| == Start(n + 1, size) && i < n
    ensures Slice(x + y, size, n + 1, i) == Slice(x, size, n, i)
  {
    InRun(0, size, n, i);
  }

  /** The bytes of one block among all. */
  lemma {:induction false} JoinSlice(blocks: seq<seq<Byte>>, size: nat, i: nat)
    requires SizedBlocks(blocks, size) && i < |blocks|
    ensures |Join(blocks)| == Start(|blocks|, size)
    ensures Slice(Join(blocks), size, |blocks|, i) == blocks[i]
  {
    var n := |blocks| - 1;
    var front := blocks[..n];
    JoinLength(0, size, blocks);
    JoinLength(0, size, front);
    assert Join(blocks) == Join(front) + blocks[n];
    if i < n {
      JoinSlice(front, size, i);
      SliceOfFront(Join(front), blocks[n], size, n, i);
    }
  }

  /** Cutting bytes into blocks and laying these out again gives the bytes. */
  lemma {:induction false} JoinOfSplit(bytes: seq<Byte>, size: nat, n: nat)
    requires |bytes| == Start(n, size)
    ensures Join(Split(bytes, size, n)) == bytes
    decreases n
  {
    if n > 0 {
      var cut := Start(n - 1, size);
      JoinOfSplit(bytes[..cut], size, n - 1);
      SplitOfFront(bytes[..cut], bytes[cut..], size, n - 1);
      assert bytes == bytes[..cut] + bytes[cut..];
    }
  }

  lemma SplitOfFront(x: seq<Byte>, y: seq<Byte>, size: nat, n: nat)
    requires |x| == Start(n, size) && |x + y| == Start(n + 1, size)
    ensures Split(x + y, size, n + 1) == Split(x, size, n) + [y]
  {
    forall i: nat | i < n
      ensures Split(x + y, size, n + 1)[i] == Split(x, size, n)[i]
    {
      SliceOfFront(x, y, size, n, i);
    }
    assert Slice(x + y, size, n + 1, n) == y;
  }

  lemma JoinThree(x: seq<seq<Byte>>, y: seq<seq<Byte>>, z: seq<seq<Byte>>)
    ensures Join(x + y + z) == Join(x) + Join(y) + Join(z)
  {
    JoinConcat(x + y, z);
    JoinConcat(x, y);
  }

  lemma PatchMiddle(x: seq<Byte>, y: seq<Byte>, z: seq<Byte>, y': seq<Byte>)
    requires |y'| == |y|
    ensures Patch(x + y + z, |x|, y') == x + y' + z
  {
  }

  lemma SameLength(x: seq<seq<Byte>>, y: seq<seq<Byte>>, size: nat)
    requires SizedBlocks(x, size) && SizedBlocks(y, size) && |x| == |y|
    ensures |Join(x)| == |Join(y)|
  {
    JoinLength(0, size, x);
    JoinLength(0, size, y);
  }

  lemma ReplaceMiddle(x: seq<seq<Byte>>, y: seq<seq<Byte>>, z: seq<seq<Byte>>, y': seq<seq<Byte>>, at: nat)
    requires |Join(y)| == |Join(y')| && |Join(x)| == at
    ensures |Join(x + y + z)| >= at + |Join(y')|
    ensures Join(x + y' + z) == Patch(Join(x + y + z), at, Join(y'))
  {
    JoinThree(x, y, z);
    JoinThree(x, y', z);
    PatchMiddle(Join(x), Join(y), Join(z), Join(y'));
  }

  lemma FrontEnds(blocks: seq<seq<Byte>>, size: nat, at: nat)
    requires SizedBlocks(blocks, size) && at <= |blocks|
    ensures |Join(blocks[..at])| == Start(at, size)
  {
    JoinLength(0, size, blocks[..at]);
  }

  /** The blocks after one write of `data` from block `start` on. */
  function Overwrite(blocks: seq<seq<Byte>>, start: nat, data: seq<seq<Byte>>): (d: seq<seq<Byte>>)
    requires start + |data| <= |blocks|
    ensures |d| == |blocks|
  {
    blocks[..start] + data + blocks[start + |data|..]
  }

  lemma Reassembled(blocks: seq<seq<Byte>>, at: nat, after: nat)
    requires at <= after <= |blocks|
    ensures blocks[..at] + blocks[at..after] + blocks[after..] == blocks
  {
  }

  lemma JoinReplacedIn(blocks: seq<seq<Byte>>, size: nat, x: seq<seq<Byte>>, y: seq<seq<Byte>>, z: seq<seq<Byte>>,
                       data: seq<seq<Byte>>, start: nat, replaced: seq<seq<Byte>>)
    requires blocks == x + y + z && replaced == x + data + z && |Join(x)| == start
    requires SizedBlocks(y, size) && SizedBlocks(data, size) && |y| == |data|
    ensures start + |Join(data)| <= |Join(blocks)|
    ensures Join(replaced) == Patch(Join(blocks), start, Join(data))
  {
    SameLength(y, data, size);
    ReplaceMiddle(x, y, z, data, start);
  }

  /** Overwriting blocks is one patch of the bytes, at the offset of a merged write. */
  lemma OverwriteIsPatch(blocks: seq<seq<Byte>>, size: nat, at: nat, data: seq<seq<Byte>>)
    requires SizedBlocks(blocks, size) && SizedBlocks(data, size) && at + |data| <= |blocks|
    ensures Start(at, size) + |Join(data)| <= |Join(blocks)|
    ensures Join(Overwrite(blocks, at, data)) == Patch(Join(blocks), Start(at, size), Join(data))
  {
    var after := at + |data|;
    FrontEnds(blocks, size, at);
    Reassembled(blocks, at, after);
    JoinReplacedIn(blocks, size, blocks[..at], blocks[at..after], blocks[after..], data, Start(at, size),
                   Overwrite(blocks, at, data));
  }

  // ---------- A single write among blocks ----------

  /** What a write of `content` at `offset` leaves of the mapping. A write that is not wholly inside
      it faults, and none of it counts as having reached the disk. */
  function Landed(bytes: seq<Byte>, offset: int, content: seq<Byte>): (d: seq<Byte>)
    ensures |d| == |bytes|
  {
    if 0 <= offset && offset + |content| <= |bytes| then Patch(bytes, offset, content) else bytes
  }

  predicate Exact(block: nat, size: nat) {
    SingleOffset(block, size) == Start(block, size)
  }

  /** write2Disk2 seen on blocks: an exact offset replaces one block; a wrapped one lands wherever it lands. */
  function WriteBlock(blocks: seq<seq<Byte>>, size: nat, at: nat, content: seq<Byte>): (d: seq<seq<Byte>>)
    requires at < |blocks|
    ensures |d| == |blocks|
  {
    if Exact(at, size) then blocks[at := content] else Scattered(blocks, size, SingleOffset(at, size), content)
  }

  function Scattered(blocks: seq<seq<Byte>>, size: nat, offset: int, content: seq<Byte>): (d: seq<seq<Byte>>)
    ensures |d| == |blocks|
  {
    var bytes := Landed(Join(blocks), offset, content);
    if |bytes| == Start(|blocks|, size) then Split(bytes, size, |blocks|) else blocks
  }

  lemma ExactWrite(blocks: seq<seq<Byte>>, size: nat, at: nat, content: seq<Byte>)
    requires SizedBlocks(blocks, size) && |content| == size && at < |blocks|
    ensures Start(at, size) + size <= |Join(blocks)|
    ensures Join(blocks[at := content]) == Patch(Join(blocks), Start(at, size), content)
  {
    var data := [content];
    assert data[..0] == [] && Join(data) == content;
    assert blocks[at := content] == Overwrite(blocks, at, data);
    OverwriteIsPatch(blocks, size, at, data);
  }

  lemma ScatteredWrite(blocks: seq<seq<Byte>>, size: nat, offset: int, content: seq<Byte>)
    requires SizedBlocks(blocks, size)
    ensures SizedBlocks(Scattered(blocks, size, offset, content), size)
    ensures Join(Scattered(blocks, size, offset, content)) == Landed(Join(blocks), offset, content)
  {
    JoinLength(0, size, blocks);
    JoinOfSplit(Landed(Join(blocks), offset, content), size, |blocks|);
  }

  /** For a whole block on a disk of whole blocks, exactly the bytes at the single offset are replaced. */
  lemma WriteBlockIsSingleWrite(blocks: seq<seq<Byte>>, size: nat, at: nat, content: seq<Byte>, offset: int)
    requires SizedBlocks(blocks, size) && |content| == size && at < |blocks| && offset == SingleOffset(at, size)
    ensures SizedBlocks(WriteBlock(blocks, size, at, content), size)
    ensures Join(WriteBlock(blocks, size, at, content)) == Landed(Join(blocks), offset, content)
  {
    if Exact(at, size) {
      ExactWrite(blocks, size, at, content);
    } else {
      ScatteredWrite(blocks, size, offset, content);
    }
  }

  /** A wrapped write never reaches the block it was meant for. */
  lemma ScatteredMisses(blocks: seq<seq<Byte>>, size: nat, at: nat, content: seq<Byte>)
    requires SizedBlocks(blocks, size) && |content| == size < INT_LIMIT && at < |blocks| && !Exact(at, size)
    ensures WriteBlock(blocks, size, at, content)[at] == blocks[at]
  {
    var offset, bytes := SingleOffset(at, size), Join(blocks);
    JoinSlice(blocks, size, at);
    if 0 <= offset && offset + size <= |bytes| {
      OffsetsAgreeIff(at, size);
      InRun(0, size, |blocks|, at);
      PatchElsewhere(bytes, offset, content, Start(at, size), Start(at, size) + size);
    }
  }

  // ---------- A run of consecutive blocks ----------

  /** What the write paths look at in a buffer. */
  datatype Slot = Slot(valid: bool, dirty: bool, content: seq<Byte>)

  /** Every buffer is one block and the run lies on the disk. */
  ghost predicate OnDisk(disk: seq<Byte>, first: nat, size: nat, slots: seq<Slot>) {
    && (forall i :: 0 <= i < |slots| ==> |slots[i].content| == size)
    && Start(first + |slots|, size) <= |disk|
  }

  /** Moreover every single offset is exact. */
  ghost predicate Fits(disk: seq<Byte>, first: nat, size: nat, slots: seq<Slot>) {
    && OnDisk(disk, first, size, slots)
    && (|slots| > 0 ==> Start(first + |slots| - 1, size) < INT_LIMIT)
  }

  function Contents(slots: seq<Slot>): (blocks: seq<seq<Byte>>)
    ensures |blocks| == |slots|
  {
    seq(|slots|, i requires 0 <= i < |slots| => slots[i].content)
  }

  ghost function Merged(disk: seq<Byte>, first: nat, size: nat, slots: seq<Slot>): (d: seq<Byte>)
    requires OnDisk(disk, first, size, slots)
    ensures |d| == |disk|
  {
    JoinLength(first, size, Contents(slots));
    Patch(disk, Start(first, size), Join(Contents(slots)))
  }

  /** One buffer by itself; a clean or invalid one is skipped. */
  function Single(disk: seq<Byte>, offset: int, slot: Slot): (d: seq<Byte>)
    requires 0 <= offset && offset + |slot.content| <= |disk|
    ensures |d| == |disk|
  {
    if slot.valid && slot.dirty then Patch(disk, offset, slot.content) else disk
  }

  ghost function Singles(disk: seq<Byte>, first: nat, size: nat, slots: seq<Slot>): (d: seq<Byte>)
    requires Fits(disk, first, size, slots)
    ensures |d| == |disk|
    decreases |slots|
  {
    if slots == [] then disk else
      var n := |slots| - 1;
      FitsShorter(disk, first, size, slots);
      Single(Singles(disk, first, size, slots[..n]), SingleOffset(first + n, size), slots[n])
  }

  lemma OnDiskShorter(disk: seq<Byte>, first: nat, size: nat, slots: seq<Slot>)
    requires OnDisk(disk, first, size, slots) && |slots| > 0
    ensures OnDisk(disk, first, size, slots[..|slots| - 1])
    ensures Start(first + |slots| - 1, size) + size == Start(first + |slots|, size)
  {
  }

  lemma FitsShorter(disk: seq<Byte>, first: nat, size: nat, slots: seq<Slot>)
    requires Fits(disk, first, size, slots) && |slots| > 0
    ensures Fits(disk, first, size, slots[..|slots| - 1])
    ensures SingleOffset(first + |slots| - 1, size) == Start(first + |slots| - 1, size)
    ensures Start(first + |slots| - 1, size) + size == Start(first + |slots|, size)
  {
    var n := |slots| - 1;
    if n > 0 {
      StartsGrow(first + n - 1, first + n, size);
    }
  }

  /** One more buffer in a merged write is one more patch at its own block. */
  lemma MergedExtends(disk: seq<Byte>, first: nat, size: nat, slots: seq<Slot>)
    requires OnDisk(disk, first, size, slots) && |slots| > 0
    requires OnDisk(disk, first, size, slots[..|slots| - 1])
    requires Start(first + |slots| - 1, size) + size <= |disk|
    ensures Merged(disk, first, size, slots)
         == Patch(Merged(disk, first, size, slots[..|slots| - 1]), Start(first + |slots| - 1, size),
                  slots[|slots| - 1].content)
  {
    var n := |slots| - 1;
    assert Contents(slots)[..n] == Contents(slots[..n]);
    JoinLength(first, size, Contents(slots[..n]));
    JoinLength(first, size, Contents(slots));
    PatchOfPatch(disk, Start(first, size), Join(Contents(slots[..n])), slots[n].content);
  }

  /** The bytes of the block that buffer `i` of the run belongs to. */
  ghost function BlockOf(d: seq<Byte>, first: nat, size: nat, n: nat, i: nat): seq<Byte>
    requires i < n && Start(first + n, size) <= |d|
  {
    InRun(first, size, n, i);
    d[Start(first + i, size)..Start(first + i, size) + size]
  }

  lemma MergedElsewhere(disk: seq<Byte>, first: nat, size: nat, slots: seq<Slot>, lo: nat, hi: nat)
    requires OnDisk(disk, first, size, slots) && lo <= hi <= |disk|
    requires hi <= Start(first, size) || Start(first + |slots|, size) <= lo
    ensures Merged(disk, first, size, slots)[lo..hi] == disk[lo..hi]
  {
    JoinLength(first, size, Contents(slots));
    PatchElsewhere(disk, Start(first, size), Join(Contents(slots)), lo, hi);
  }

  lemma MergedLast(disk: seq<Byte>, first: nat, size: nat, slots: seq<Slot>)
    requires OnDisk(disk, first, size, slots) && |slots| > 0
    ensures BlockOf(Merged(disk, first, size, slots), first, size, |slots|, |slots| - 1) == slots[|slots| - 1].content
  {
    OnDiskShorter(disk, first, size, slots);
    MergedExtends(disk, first, size, slots);
  }

  lemma MergedEarlier(disk: seq<Byte>, first: nat, size: nat, slots: seq<Slot>, i: nat)
    requires OnDisk(disk, first, size, slots) && i < |slots| - 1
    requires OnDisk(disk, first, size, slots[..|slots| - 1])
    ensures BlockOf(Merged(disk, first, size, slots), first, size, |slots|, i)
         == BlockOf(Merged(disk, first, size, slots[..|slots| - 1]), first, size, |slots| - 1, i)
  {
    var n := |slots| - 1;
    OnDiskShorter(disk, first, size, slots);
    MergedExtends(disk, first, size, slots);
    InRun(first, size, n, i);
    PatchElsewhere(Merged(disk, first, size, slots[..n]), Start(first + n, size), slots[n].content,
                   Start(first + i, size), Start(first + i, size) + size);
  }

  /** Merging writes every block of the run; with MergedElsewhere, no byte outside it. */
  lemma {:induction false} MergedBlocks(disk: seq<Byte>, first: nat, size: nat, slots: seq<Slot>, i: nat)
    requires OnDisk(disk, first, size, slots) && i < |slots|
    ensures BlockOf(Merged(disk, first, size, slots), first, size, |slots|, i) == slots[i].content
    decreases |slots|
  {
    var n := |slots| - 1;
    OnDiskShorter(disk, first, size, slots);
    if i < n {
      MergedBlocks(disk, first, size, slots[..n], i);
      MergedEarlier(disk, first, size, slots, i);
    } else {
      MergedLast(disk, first, size, slots);
    }
  }

  lemma {:induction false} SinglesElsewhere(disk: seq<Byte>, first: nat, size: nat, slots: seq<Slot>, lo: nat, hi: nat)
    requires Fits(disk, first, size, slots) && lo <= hi <= |disk|
    requires hi <= Start(first, size) || Start(first + |slots|, size) <= lo
    ensures Singles(disk, first, size, slots)[lo..hi] == disk[lo..hi]
    decreases |slots|
  {
    if |slots| > 0 {
      var n := |slots| - 1;
      FitsShorter(disk, first, size, slots);
      InRun(first, size, n + 1, n);
      SinglesElsewhere(disk, first, size, slots[..n], lo, hi);
      if slots[n].valid && slots[n].dirty {
        PatchElsewhere(Singles(disk, first, size, slots[..n]), Start(first + n, size), slots[n].content, lo, hi);
      }
    }
  }

  /** The last single write, at its own offset. */
  lemma SinglesExtend(disk: seq<Byte>, first: nat, size: nat, slots: seq<Slot>)
    requires Fits(disk, first, size, slots) && |slots| > 0
    requires Fits(disk, first, size, slots[..|slots| - 1])
    requires Start(first + |slots| - 1, size) + size <= |disk|
    ensures var n := |slots| - 1;
      var d := Singles(disk, first, size, slots[..n]);
      Singles(disk, first, size, slots)
      == if slots[n].valid && slots[n].dirty then Patch(d, Start(first + n, size), slots[n].content) else d
  {
    FitsShorter(disk, first, size, slots);
  }

  lemma SinglesLast(disk: seq<Byte>, first: nat, size: nat, slots: seq<Slot>, d: seq<Byte>, n: nat, at: nat)
    requires Fits(disk, first, size, slots) && |slots| == n + 1
    requires at == Start(first + n, size) && at + size <= |disk|
    requires d == Singles(disk, first, size, slots)
    ensures d[at..at + size] == if slots[n].valid && slots[n].dirty then slots[n].content else disk[at..at + size]
  {
    FitsShorter(disk, first, size, slots);
    SinglesExtend(disk, first, size, slots);
    if !(slots[n].valid && slots[n].dirty) {
      SinglesElsewhere(disk, first, size, slots[..n], at, at + size);
    }
  }

  lemma SinglesEarlier(disk: seq<Byte>, first: nat, size: nat, slots: seq<Slot>, i: nat)
    requires Fits(disk, first, size, slots) && i < |slots| - 1
    requires Fits(disk, first, size, slots[..|slots| - 1])
    ensures BlockOf(Singles(disk, first, size, slots), first, size, |slots|, i)
         == BlockOf(Singles(disk, first, size, slots[..|slots| - 1]), first, size, |slots| - 1, i)
  {
    var n := |slots| - 1;
    FitsShorter(disk, first, size, slots);
    InRun(first, size, n, i);
    if slots[n].valid && slots[n].dirty {
      PatchElsewhere(Singles(disk, first, size, slots[..n]), Start(first + n, size), slots[n].content,
                     Start(first + i, size), Start(first + i, size) + size);
    }
  }

  /** What single writes leave in each block of the run. */
  lemma {:induction false} SinglesBlocks(disk: seq<Byte>, first: nat, size: nat, slots: seq<Slot>, i: nat)
    requires Fits(disk, first, size, slots) && i < |slots|
    ensures BlockOf(Singles(disk, first, size, slots), first, size, |slots|, i)
         == if slots[i].valid && slots[i].dirty then slots[i].content else BlockOf(disk, first, size, |slots|, i)
    decreases |slots|
  {
    var n := |slots| - 1;
    if i < n {
      FitsShorter(disk, first, size, slots);
      SinglesBlocks(disk, first, size, slots[..n], i);
      SinglesEarlier(disk, first, size, slots, i);
    } else {
      InRun(first, size, |slots|, n);
      SinglesLast(disk, first, size, slots, Singles(disk, first, size, slots), n, Start(first + n, size));
    }
  }

  // ---------- One merged write against single writes ----------

  /** Buffers the single path skips hold what the disk already holds. */
  ghost predicate SkippedAreSynced(disk: seq<Byte>, first: nat, size: nat, slots: seq<Slot>)
    requires Start(first + |slots|, size) <= |disk|
  {
    forall i :: 0 <= i < |slots| && !(slots[i].valid && slots[i].dirty)
      ==> slots[i].content == BlockOf(disk, first, size, |slots|, i)
  }

  lemma SyncedShorter(disk: seq<Byte>, first: nat, size: nat, slots: seq<Slot>)
    requires Fits(disk, first, size, slots) && |slots| > 0
    requires Fits(disk, first, size, slots[..|slots| - 1])
    requires SkippedAreSynced(disk, first, size, slots)
    ensures SkippedAreSynced(disk, first, size, slots[..|slots| - 1])
  {
    var n := |slots| - 1;
    forall i | 0 <= i < n && !(slots[..n][i].valid && slots[..n][i].dirty)
      ensures slots[..n][i].content == BlockOf(disk, first, size, n, i)
    {
      assert slots[i].content == BlockOf(disk, first, size, |slots|, i);
    }
  }

  /** Writing a synced block again after single writes elsewhere changes nothing. */
  /** The last slot, if skipped, has the bytes that the other single writes have left in its block. */
  lemma SyncedLastIsThere(disk: seq<Byte>, first: nat, size: nat, slots: seq<Slot>)
    requires Fits(disk, first, size, slots) && |slots| > 0
    requires Fits(disk, first, size, slots[..|slots| - 1])
    requires SkippedAreSynced(disk, first, size, slots)
    requires Start(first + |slots| - 1, size) + size <= |disk|
    requires !(slots[|slots| - 1].valid && slots[|slots| - 1].dirty)
    ensures var n, at := |slots| - 1, Start(first + |slots| - 1, size);
      && |Singles(disk, first, size, slots[..n])| == |disk| && |slots[n].content| == size
      && Singles(disk, first, size, slots[..n])[at..at + size] == slots[n].content
  {
    var n := |slots| - 1;
    FitsShorter(disk, first, size, slots);
    SinglesElsewhere(disk, first, size, slots[..n], Start(first + n, size), Start(first + n, size) + size);
    assert slots[n].content == BlockOf(disk, first, size, |slots|, n);
  }

  lemma SkipIsPatch(disk: seq<Byte>, first: nat, size: nat, slots: seq<Slot>)
    requires Fits(disk, first, size, slots) && |slots| > 0
    requires Fits(disk, first, size, slots[..|slots| - 1])
    requires SkippedAreSynced(disk, first, size, slots)
    requires Start(first + |slots| - 1, size) + size <= |disk|
    ensures Singles(disk, first, size, slots)
         == Patch(Singles(disk, first, size, slots[..|slots| - 1]), Start(first + |slots| - 1, size),
                  slots[|slots| - 1].content)
  {
    var n := |slots| - 1;
    FitsShorter(disk, first, size, slots);
    if !(slots[n].valid && slots[n].dirty) {
      SyncedLastIsThere(disk, first, size, slots);
      PatchWithSame(Singles(disk, first, size, slots[..n]), Start(first + n, size), slots[n].content);
    }
  }

  lemma {:induction false} SyncedSinglesAreMerged(disk: seq<Byte>, first: nat, size: nat, slots: seq<Slot>)
    requires Fits(disk, first, size, slots) && SkippedAreSynced(disk, first, size, slots)
    ensures Singles(disk, first, size, slots) == Merged(disk, first, size, slots)
    decreases |slots|
  {
    if |slots| == 0 {
      PatchWithSame(disk, Start(first, size), []);
    } else {
      FitsShorter(disk, first, size, slots);
      SyncedShorter(disk, first, size, slots);
      SyncedSinglesAreMerged(disk, first, size, slots[..|slots| - 1]);
      MergedExtends(disk, first, size, slots);
      SkipIsPatch(disk, first, size, slots);
    }
  }

  /** Merging is the same as writing one by one exactly when every skipped buffer is synced. */
  lemma MergedIsSinglesIff(disk: seq<Byte>, first: nat, size: nat, slots: seq<Slot>)
    requires Fits(disk, first, size, slots)
    ensures Singles(disk, first, size, slots) == Merged(disk, first, size, slots)
       <==> SkippedAreSynced(disk, first, size, slots)
  {
    if SkippedAreSynced(disk, first, size, slots) {
      SyncedSinglesAreMerged(disk, first, size, slots);
    }
    if Singles(disk, first, size, slots) == Merged(disk, first, size, slots) {
      forall i | 0 <= i < |slots| && !(slots[i].valid && slots[i].dirty)
        ensures slots[i].content == BlockOf(disk, first, size, |slots|, i)
      {
        SinglesBlocks(disk, first, size, slots, i);
        MergedBlocks(disk, first, size, slots, i);
      }
    }
  }
}
