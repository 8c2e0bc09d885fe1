/** The buffers of shared/memory_buffer_structures.h and the two write paths of delayed_write/disk_write.c. */
module DiskWrite {
  import opened DiskBytes
  import opened CacheMachine

  class MemoryBuffer {
    ghost const index: nat
    const block: nat
    const blockSize: nat
    var valid: bool
    var dirty: bool
    var beingWritten: bool
    var requests: nat
    var locked: bool
    var content: Content

    /** createNewMemoryBuffer, filled and marked as os_read and os_write do on a miss. */
    constructor (block: nat, blockSize: nat, content: Content, dirty: bool, ghost index: nat)
      ensures this.index == index && this.blockSize == blockSize
      ensures Snapshot() == Buffer(block, true, dirty, false, 0, false, content)
    {
      this.index := index;
      this.block := block;
      this.blockSize := blockSize;
      this.valid, this.dirty, this.beingWritten, this.requests, this.locked := true, dirty, false, 0, false;
      this.content := content;
    }

    /** The part of os_write that overwrites a cached buffer, under its lock. */
    method Overwrite(data: Content)
      requires !locked
      modifies this
      ensures Snapshot() == old(Snapshot()).(content := data, valid := true, dirty := true, beingWritten := false)
    {
      locked := true;
      beingWritten := true;
      content := data;
      valid := true;
      dirty := true;
      beingWritten := false;
      locked := false;
    }

    /** What deleteMemoryBuffer leaves of an evicted buffer, once it is flushed. */
    method Invalidate()
      modifies this
      ensures Snapshot() == old(Snapshot()).(valid := false, content := [])
    {
      valid := false;
      content := [];
    }

    /** The polling thread marks a buffer that joins the batch. */
    method Mark()
      modifies this
      ensures Snapshot() == old(Snapshot()).(beingWritten := true, requests := old(requests) + 1)
    {
      beingWritten := true;
      requests := requests + 1;
    }

    /** A write path takes the lock, and one request off the count. */
    method Lock()
      requires !locked
      modifies this
      ensures Snapshot() == Taken(old(Snapshot()))
    {
      locked := true;
      if requests > 0 {
        requests := requests - 1;
      }
      beingWritten := true;
    }

    /** A write path that has written the buffer cleans and unlocks it. */
    method Release()
      modifies this
      ensures Snapshot() == old(Snapshot()).(dirty := false, beingWritten := false, locked := false)
    {
      dirty := false;
      beingWritten := false;
      locked := false;
    }

    function Snapshot(): Buffer
      reads this
    {
      Buffer(block, valid, dirty, beingWritten, requests, locked, content)
    }
  }

  /** A buffer header after a write path has locked it. */
  function Taken(b: Buffer): Buffer {
    b.(locked := true, beingWritten := true, requests := if b.requests > 0 then b.requests - 1 else b.requests)
  }

  /** The header after the same path has written and released it. */
  function Flushed(b: Buffer): Buffer {
    Taken(b).(dirty := false, beingWritten := false, locked := false)
  }

  method Copy(disk: array<Byte>, at: nat, bytes: seq<Byte>)
    requires at + |bytes| <= disk.Length
    modifies disk
    ensures disk[..] == Patch(old(disk[..]), at, bytes)
  {
    for i := 0 to |bytes|
      invariant disk[..at] == old(disk[..at]) && disk[at..at + i] == bytes[..i]
      invariant disk[at + |bytes|..] == old(disk[at + |bytes|..])
    {
      disk[at + i] := bytes[i];
    }
    assert disk[..] == disk[..at] + disk[at..at + |bytes|] + disk[at + |bytes|..];
  }

  /** One buffer by itself, as an eviction writes its victim. A clean or invalid buffer is skipped with
      its request count untouched. */
  method WriteSingle(disk: array<Byte>, b: MemoryBuffer) returns (ret: int)
    requires (b.valid ==> |b.content| == b.blockSize) && !b.locked
    requires b.valid && b.dirty ==>
      0 <= SingleOffset(b.block, b.blockSize) && SingleOffset(b.block, b.blockSize) + b.blockSize <= disk.Length
    modifies disk, b
    ensures !old(b.valid) ==> ret == 0
    ensures old(b.valid) && !old(b.dirty) ==> ret == -2
    ensures old(b.valid) && old(b.dirty) ==>
      && b.Snapshot() == Flushed(old(b.Snapshot()))
      && disk[..] == Single(old(disk[..]), SingleOffset(b.block, b.blockSize), AsSlot(old(b.Snapshot())))
    ensures !(old(b.valid) && old(b.dirty)) ==>
      b.Snapshot() == old(b.Snapshot()).(beingWritten := false) && disk[..] == old(disk[..])
  {
    if !b.valid {
      b.beingWritten := false;
      return 0;
    }
    if !b.dirty || !b.valid {
      b.beingWritten := false;
      return -2;
    }
    b.Lock();
    var offset := WrapInt(b.block * b.blockSize);
    OffsetsAgreeIff(b.block, b.blockSize);
    Copy(disk, offset, b.content);
    b.Release();
    ret := 0;  // unset in the source, and read by nobody
  }

  function AsSlot(b: Buffer): Slot {
    Slot(b.valid, b.dirty, b.content)
  }

  ghost function ContentsOf(buffers: seq<MemoryBuffer>): (contents: seq<Content>)
    reads buffers
    ensures |contents| == |buffers|
  {
    seq(|buffers|, i requires 0 <= i < |buffers| reads buffers => buffers[i].content)
  }

  ghost predicate DistinctBuffers(buffers: seq<MemoryBuffer>) {
    forall i, j :: 0 <= i < j < |buffers| ==> buffers[i] != buffers[j]
  }

  /** A launched batch: lock all, copy all into one buffer, write it at once, release all. */
  method WriteMerged(disk: array<Byte>, buffers: seq<MemoryBuffer>)
    requires |buffers| > 0 && DistinctBuffers(buffers)
    requires forall i :: 0 <= i < |buffers| ==> !buffers[i].locked
    requires Start(buffers[0].block, buffers[0].blockSize) + |Join(ContentsOf(buffers))| <= disk.Length
    modifies disk, buffers
    ensures disk[..] == Patch(old(disk[..]), Start(buffers[0].block, buffers[0].blockSize),
                              old(Join(ContentsOf(buffers))))
    ensures forall i :: 0 <= i < |buffers| ==> buffers[i].Snapshot() == Flushed(old(buffers[i].Snapshot()))
  {
    var start := buffers[0].block * buffers[0].blockSize;
    StartIsProduct(buffers[0].block, buffers[0].blockSize);
    LockAll(buffers);
    assert ContentsOf(buffers) == old(ContentsOf(buffers));
    var merged := Gather(buffers);
    Copy(disk, start, merged[..]);
    ReleaseAll(buffers);
  }

  method LockAll(buffers: seq<MemoryBuffer>)
    requires DistinctBuffers(buffers)
    requires forall i :: 0 <= i < |buffers| ==> !buffers[i].locked
    modifies buffers
    ensures forall i :: 0 <= i < |buffers| ==> buffers[i].Snapshot() == Taken(old(buffers[i].Snapshot()))
  {
    for i := 0 to |buffers|
      invariant forall j :: 0 <= j < i ==> buffers[j].Snapshot() == Taken(old(buffers[j].Snapshot()))
      invariant forall j :: i <= j < |buffers| ==> unchanged(buffers[j])
    {
      buffers[i].Lock();
    }
  }

  lemma {:induction false} JoinPrefix(blocks: seq<Content>, n: nat)
    requires n < |blocks|
    ensures Join(blocks[..n + 1]) == Join(blocks[..n]) + blocks[n]
    ensures |Join(blocks[..n + 1])| <= |Join(blocks)|
    decreases |blocks|
  {
    var last := |blocks| - 1;
    assert blocks[..n + 1][..n] == blocks[..n];
    if n < last {
      JoinPrefix(blocks[..last], n);
      assert blocks[..last][..n + 1] == blocks[..n + 1];
    } else {
      assert blocks[..n + 1] == blocks;
    }
  }

  /** The contents one after another in a fresh buffer, each at the running offset. */
  method Gather(buffers: seq<MemoryBuffer>) returns (merged: array<Byte>)
    ensures fresh(merged) && merged[..] == Join(ContentsOf(buffers))
  {
    ghost var contents := ContentsOf(buffers);
    var size := 0;
    for i := 0 to |buffers|
      invariant size == |Join(contents[..i])|
    {
      size := size + |buffers[i].content|;
      JoinPrefix(contents, i);
    }
    assert contents[..|buffers|] == contents;
    merged := new Byte[size];
    var offset := 0;
    for i := 0 to |buffers|
      modifies merged
      invariant contents == ContentsOf(buffers)
      invariant offset == |Join(contents[..i])| <= size
      invariant merged[..offset] == Join(contents[..i])
    {
      JoinPrefix(contents, i);
      Copy(merged, offset, buffers[i].content);
      assert merged[..offset + |buffers[i].content|] == merged[..offset] + buffers[i].content;
      offset := offset + |buffers[i].content|;
    }
    assert merged[..] == merged[..offset];
  }

  method ReleaseAll(buffers: seq<MemoryBuffer>)
    requires DistinctBuffers(buffers)
    modifies buffers
    ensures forall i :: 0 <= i < |buffers| ==>
      buffers[i].Snapshot() == old(buffers[i].Snapshot()).(dirty := false, beingWritten := false, locked := false)
  {
    for i := 0 to |buffers|
      invariant forall j :: 0 <= j < i ==>
        buffers[j].Snapshot() == old(buffers[j].Snapshot()).(dirty := false, beingWritten := false, locked := false)
      invariant forall j :: i <= j < |buffers| ==> unchanged(buffers[j])
    {
      buffers[i].Release();
    }
  }
}
