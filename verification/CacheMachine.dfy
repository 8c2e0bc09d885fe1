/** The write-back cache and its batching flusher as a step machine: one application thread
    (buffer.c, shared/memory_buffer.c), one polling thread (delayed_write/thread_pool.c) and any
    number of flusher threads (delayed_write/disk_write.c) over shared buffers. */
module CacheMachine {
  import opened DiskBytes

  type Content = seq<Byte>

  /** `manageable` bounds the cache, `maxLength` the batch, `threads` the permits of the pool. */
  datatype Config = Config(manageable: nat, maxLength: nat, threads: nat) {
    ghost predicate Valid() {
      maxLength > 0
    }
  }

  /** A memory buffer and its header. An evicted buffer stays in the heap, since the queue may
      still point to it. */
  datatype Buffer = Buffer(block: nat, valid: bool, dirty: bool, beingWritten: bool, requests: nat, locked: bool,
                           content: Content)

  /** A flusher locks its buffers one by one, copies them, writes them to the disk in one piece,
      and then cleans and releases them one by one; `next` counts the locks taken or released. */
  datatype Phase = Locking | Writing(data: seq<Content>) | Releasing
  datatype Flusher = Flusher(bufs: seq<nat>, phase: Phase, next: nat) {
    predicate Finished() {
      phase == Releasing && next == |bufs|
    }
  }

  /** What the application thread is in the middle of. */
  datatype App = Idle | Evicting(victim: nat, incoming: nat) | Enqueueing(id: nat)

  /** `misplaced` remembers that an eviction has written at a wrapped offset. */
  datatype State = State(
    disk: seq<Content>,
    blockSize: nat,
    misplaced: bool,
    heap: seq<Buffer>,
    cache: map<nat, nat>,
    policy: seq<nat>,
    queue: multiset<nat>,
    batch: seq<nat>,
    running: seq<Flusher>,
    permits: nat,
    idleFlushes: nat,
    app: App)

  datatype Step =
    | ReadStep(block: nat, order: seq<nat>)
    | WriteStep(block: nat, data: Content, order: seq<nat>)
    | EvictStep(order: seq<nat>)
    | EnqueueStep
    | IdleStep
    | PickStep(id: nat)
    | WaitStep
    | LockStep(f: nat)
    | CopyStep(f: nat)
    | WriteOutStep(f: nat)
    | ReleaseStep(f: nat)

  predicate Cached(s: State, id: nat)
    requires id < |s.heap|
  {
    s.heap[id].block in s.cache && s.cache[s.heap[id].block] == id
  }

  /** The content of a block as os_read would deliver it. */
  function Visible(s: State, block: nat): Content
    requires block < |s.disk|
    requires block in s.cache ==> s.cache[block] < |s.heap|
  {
    if block in s.cache then s.heap[s.cache[block]].content else s.disk[block]
  }

  // ---------- The application thread ----------

  /** The policy deque after an access to `id`; which position it gets is the policy's business. */
  ghost predicate Touched(policy: seq<nat>, id: nat, order: seq<nat>) {
    multiset(order) == multiset(policy)[id := 1]
  }

  predicate ShouldEvict(c: Config, s: State) {
    c.manageable <= |s.cache|
  }

  function Put(s: State, id: nat, order: seq<nat>): State
    requires id < |s.heap|
  {
    s.(cache := s.cache[s.heap[id].block := id], policy := order)
  }

  /** A miss has made buffer `fresh'`: it is cached at once, or waits for an eviction. */
  function Admit(c: Config, s: State, fresh': Buffer, order: seq<nat>): State {
    var id := |s.heap|;
    var s1 := s.(heap := s.heap + [fresh']);
    if ShouldEvict(c, s) && |s.policy| > 0 then
      s1.(app := Evicting(s.policy[0], id))
    else
      Put(s1, id, order).(app := if fresh'.dirty then Enqueueing(id) else Idle)
  }

  ghost predicate AdmitOrder(c: Config, s: State, order: seq<nat>) {
    (ShouldEvict(c, s) && |s.policy| > 0) || Touched(s.policy, |s.heap|, order)
  }

  function ReadNext(c: Config, s: State, block: nat, order: seq<nat>): State
    requires block < |s.disk|
  {
    if block in s.cache then s.(policy := order)
    else Admit(c, s, Buffer(block, true, false, false, 0, false, s.disk[block]), order)
  }

  function WriteNext(c: Config, s: State, block: nat, data: Content, order: seq<nat>): State
    requires block in s.cache ==> s.cache[block] < |s.heap|
  {
    if block in s.cache then
      var id := s.cache[block];
      s.(policy := order,
         heap := s.heap[id := s.heap[id].(content := data, valid := true, dirty := true, beingWritten := false)],
         app := Enqueueing(id))
    else Admit(c, s, Buffer(block, true, true, false, 0, false, data), order)
  }

  /** What an eviction does once its busy wait has ended: flush if dirty, invalidate, unmap. The flush
      is a single write, at the offset that the source computes. */
  function Evicted(s: State, victim: nat): State
    requires victim < |s.heap| && s.heap[victim].block < |s.disk|
  {
    var b := s.heap[victim];
    s.(disk := if b.dirty then WriteBlock(s.disk, s.blockSize, b.block, b.content) else s.disk,
       misplaced := s.misplaced || (b.dirty && !Exact(b.block, s.blockSize)),
       heap := s.heap[victim := b.(dirty := false, valid := false, content := [])],
       cache := s.cache - {b.block})
  }

  function EvictNext(s: State, order: seq<nat>): State
    requires s.app.Evicting? && s.app.victim < |s.heap| && s.app.incoming < |s.heap|
    requires s.heap[s.app.victim].block < |s.disk|
  {
    var s1 := Put(Evicted(s, s.app.victim), s.app.incoming, order);
    s1.(app := if s.heap[s.app.incoming].dirty then Enqueueing(s.app.incoming) else Idle)
  }

  /** ThreadPoolAddQueue2 */
  function EnqueueNext(s: State): State
    requires s.app.Enqueueing?
  {
    s.(queue := s.queue + multiset{s.app.id}, app := Idle)
  }

  // ---------- The polling thread ----------

  function Append(s: State, id: nat): State
    requires id < |s.heap|
  {
    var b := s.heap[id];
    s.(batch := s.batch + [id],
       heap := s.heap[id := b.(beingWritten := true, requests := b.requests + 1)])
  }

  function Launch(s: State): State {
    s.(running := s.running + [Flusher(s.batch, Locking, 0)], batch := [])
  }

  function TakePermit(s: State): State
    requires s.permits > 0
  {
    s.(permits := s.permits - 1)
  }

  /** A picked buffer joins the batch, or is dropped as equal to its last, or the batch is launched.
      The permit of the pick is kept by a launch and given back otherwise. */
  function Take(c: Config, s: State, id: nat): State
    requires id < |s.heap| && s.permits > 0
    requires |s.batch| > 0 ==> s.batch[|s.batch| - 1] < |s.heap|
  {
    if |s.batch| == 0 then Append(s, id)
    else
      var last := s.heap[s.batch[|s.batch| - 1]].block;
      var block := s.heap[id].block;
      if |s.batch| + 1 >= c.maxLength then
        if last + 1 == block then TakePermit(Launch(Append(s, id)))
        else if last == block then s
        else TakePermit(Append(Launch(s), id))
      else
        if last + 1 == block then Append(s, id)
        else if last == block then s
        else TakePermit(Append(Launch(s), id))
  }

  predicate Skipped(b: Buffer) {
    !b.valid || b.beingWritten || !b.dirty
  }

  function PickNext(c: Config, s: State, id: nat): State
    requires id < |s.heap| && s.permits > 0
    requires |s.batch| > 0 ==> s.batch[|s.batch| - 1] < |s.heap|
  {
    var s1 := s.(queue := s.queue - multiset{id});
    if Skipped(s.heap[id]) then s1 else Take(c, s1, id)
  }

  function IdleNext(s: State): State {
    if |s.batch| > 0 then Launch(s).(idleFlushes := s.idleFlushes + 1) else s
  }

  function WaitNext(s: State): State {
    if |s.running| > 0 then s.(running := s.running[1..], permits := s.permits + 1) else s
  }

  // ---------- The flusher threads ----------

  function WithFlusher(s: State, f: nat, flusher: Flusher): State
    requires f < |s.running|
  {
    s.(running := s.running[f := flusher])
  }

  function LockNext(s: State, f: nat): State
    requires f < |s.running| && s.running[f].next < |s.running[f].bufs|
    requires s.running[f].bufs[s.running[f].next] < |s.heap|
  {
    var flusher := s.running[f];
    var id := flusher.bufs[flusher.next];
    var b := s.heap[id];
    var requests := if b.requests > 0 then b.requests - 1 else b.requests;
    WithFlusher(s, f, flusher.(next := flusher.next + 1))
    .(heap := s.heap[id := b.(locked := true, requests := requests, beingWritten := true)])
  }

  function CopyNext(s: State, f: nat): State
    requires f < |s.running| && forall i | 0 <= i < |s.running[f].bufs| :: s.running[f].bufs[i] < |s.heap|
  {
    var flusher := s.running[f];
    var data := seq(|flusher.bufs|, i requires 0 <= i < |flusher.bufs| => s.heap[flusher.bufs[i]].content);
    WithFlusher(s, f, flusher.(phase := Writing(data)))
  }

  function WriteOutNext(s: State, f: nat): State
    requires f < |s.running| && s.running[f].phase.Writing?
    requires |s.running[f].bufs| > 0 && s.running[f].bufs[0] < |s.heap|
    requires s.heap[s.running[f].bufs[0]].block + |s.running[f].phase.data| <= |s.disk|
  {
    var flusher := s.running[f];
    WithFlusher(s, f, flusher.(phase := Releasing, next := 0))
    .(disk := Overwrite(s.disk, s.heap[flusher.bufs[0]].block, flusher.phase.data))
  }

  function ReleaseNext(s: State, f: nat): State
    requires f < |s.running| && s.running[f].next < |s.running[f].bufs|
    requires s.running[f].bufs[s.running[f].next] < |s.heap|
  {
    var flusher := s.running[f];
    var id := flusher.bufs[flusher.next];
    WithFlusher(s, f, flusher.(next := flusher.next + 1))
    .(heap := s.heap[id := s.heap[id].(dirty := false, beingWritten := false, locked := false)])
  }

  // ---------- The machine ----------

  ghost predicate Init(c: Config, s: State) {
    && s.heap == [] && s.cache == map[] && s.policy == [] && s.queue == multiset{} && s.batch == []
    && s.running == [] && s.permits == c.threads && s.idleFlushes == 0 && s.app == Idle
    && SizedBlocks(s.disk, s.blockSize) && !s.misplaced
  }

  /** The references a step follows are in range; the invariant implies it. */
  ghost predicate InRange(s: State, step: Step) {
    match step
    case ReadStep(block, order) => block in s.cache ==> s.cache[block] < |s.heap|
    case WriteStep(block, data, order) => block in s.cache ==> s.cache[block] < |s.heap|
    case EvictStep(order) =>
      s.app.Evicting? ==> s.app.victim < |s.heap| && s.app.incoming < |s.heap| && s.heap[s.app.victim].block < |s.disk|
    case PickStep(id) => id in s.queue ==> id < |s.heap| && (|s.batch| > 0 ==> s.batch[|s.batch| - 1] < |s.heap|)
    case LockStep(f) => f < |s.running| ==> NextInRange(s, s.running[f])
    case CopyStep(f) => f < |s.running| ==> forall i | 0 <= i < |s.running[f].bufs| :: s.running[f].bufs[i] < |s.heap|
    case WriteOutStep(f) => f < |s.running| && s.running[f].phase.Writing? ==>
        && |s.running[f].bufs| > 0 && s.running[f].bufs[0] < |s.heap|
        && s.heap[s.running[f].bufs[0]].block + |s.running[f].phase.data| <= |s.disk|
    case ReleaseStep(f) => f < |s.running| ==> NextInRange(s, s.running[f])
    case _ => true
  }

  predicate NextInRange(s: State, f: Flusher) {
    f.next <= |f.bufs| && (f.next < |f.bufs| ==> f.bufs[f.next] < |s.heap|)
  }

  /** When a step can be taken: a lock must be free, a busy wait over, a joined thread finished. */
  ghost predicate Enabled(c: Config, s: State, step: Step) {
    InRange(s, step) &&
    match step
    case ReadStep(block, order) =>
      && s.app == Idle && block < |s.disk|
      && (if block in s.cache then Touched(s.policy, s.cache[block], order) else AdmitOrder(c, s, order))
    case WriteStep(block, data, order) =>
      && s.app == Idle && block < |s.disk| && |data| == s.blockSize
      && (if block in s.cache then !s.heap[s.cache[block]].locked && Touched(s.policy, s.cache[block], order)
          else AdmitOrder(c, s, order))
    case EvictStep(order) =>
      && s.app.Evicting?
      && !s.heap[s.app.victim].beingWritten && s.heap[s.app.victim].requests == 0
      && multiset(order) == multiset(s.policy)[s.app.victim := 0][s.app.incoming := 1]
    case EnqueueStep => s.app.Enqueueing?
    case IdleStep => s.queue == multiset{}
    case PickStep(id) => id in s.queue && s.permits > 0 && (Skipped(s.heap[id]) || !s.heap[id].locked)
    case WaitStep => s.queue != multiset{} && s.permits == 0 && (|s.running| > 0 ==> s.running[0].Finished())
    case LockStep(f) =>
      && f < |s.running| && s.running[f].phase == Locking && s.running[f].next < |s.running[f].bufs|
      && !s.heap[s.running[f].bufs[s.running[f].next]].locked
    case CopyStep(f) => f < |s.running| && s.running[f].phase == Locking && s.running[f].next == |s.running[f].bufs|
    case WriteOutStep(f) => f < |s.running| && s.running[f].phase.Writing?
    case ReleaseStep(f) => f < |s.running| && s.running[f].phase == Releasing && s.running[f].next < |s.running[f].bufs|
  }

  ghost function Next(c: Config, s: State, step: Step): State
    requires Enabled(c, s, step)
  {
    match step
    case ReadStep(block, order) => ReadNext(c, s, block, order)
    case WriteStep(block, data, order) => WriteNext(c, s, block, data, order)
    case EvictStep(order) => EvictNext(s, order)
    case EnqueueStep => EnqueueNext(s)
    case IdleStep => IdleNext(s)
    case PickStep(id) => PickNext(c, s, id)
    case WaitStep => WaitNext(s)
    case LockStep(f) => LockNext(s, f)
    case CopyStep(f) => CopyNext(s, f)
    case WriteOutStep(f) => WriteOutNext(s, f)
    case ReleaseStep(f) => ReleaseNext(s, f)
  }
}
