/** Whole runs of the buffer cache against a plain map from places to bytes. */
module CacheRuns {
  import opened LinkedLists
  import opened BufferPool
  import opened BufferCache

  datatype Op = Get(block: int, dev: int) | Store(b: int, bytes: Sector) | Put(b: int)

  datatype Write = Write(place: Place, bytes: Sector)

  /** The plain map: every store goes straight to its place. */
  function Replay(view: Disk, log: seq<Write>): Disk
    decreases |log|
  {
    if log == [] then view
    else Replay(view, log[..|log| - 1])[log[|log| - 1].place := log[|log| - 1].bytes]
  }

  // ----- What an operation does ---------------------------------------------------------------------------

  predicate IsPinned(pool: seq<Buffer>, b: int) {
    0 <= b < |pool| && pool[b].count > 0
  }

  /** A caller may request a block that exists when a buffer is to be had, store into a pinned buffer that
      holds a block, and put a pinned buffer. */
  ghost predicate Allowed(pool: seq<Buffer>, view: Disk, devices: set<int>, op: Op) {
    match op
    case Get(block, dev) =>
      dev in devices && PlaceOf(dev, block) in view && RoomFor(pool, dev, block)
    case Store(b, bytes) => IsPinned(pool, b) && pool[b].dev != NODEV
    case Put(b) => IsPinned(pool, b)
  }

  /** What the operation logs: an allowed store, at the place that its buffer holds. */
  ghost function Entry(pool: seq<Buffer>, view: Disk, devices: set<int>, op: Op): seq<Write> {
    if op.Store? && Allowed(pool, view, devices, op) then [Write(pool[op.b].Spot(), op.bytes)] else []
  }

  /** The operation has led from `pool` to `pool'`, the plain map before it being `view`.  A request returns
      the buffer it pinned, which shows the bytes that the plain map has for the block. */
  ghost predicate Performed(pool: seq<Buffer>, view: Disk, devices: set<int>, op: Op, result: int, pool': seq<Buffer>) {
    if !Allowed(pool, view, devices, op) then pool' == pool && result == NULL
    else match op
      case Get(block, dev) =>
        Got(pool, pool', result, dev, block) && PlaceOf(dev, block) in view && pool'[result].buff == view[PlaceOf(dev, block)]
      case Store(b, bytes) => result == NULL && pool' == pool[b := pool[b].(dirty := true, buff := bytes)]
      case Put(b) => result == NULL && pool' == pool[b := pool[b].(count := pool[b].count - 1)]
  }

  /** One operation; what is not allowed is not done. */
  method Perform(c: Cache, op: Op) returns (result: int)
    requires c.Valid()
    modifies c
    ensures c.Valid() && Performed(old(c.pool), old(c.view), c.devices, op, result, c.pool)
    ensures c.view == Replay(old(c.view), Entry(old(c.pool), old(c.view), c.devices, op))
  {
    result := NULL;
    match op
    case Get(block, dev) =>
      c.FreeMeans();
      if dev in c.devices && PlaceOf(dev, block) in c.disk {
        var b := c.FindBuffer(block, dev);
        if b != NULL || c.lruBuff != NULL {
          result := c.GetBlock(block, dev);
        }
      }
    case Store(b, bytes) =>
      if 0 <= b < |c.pool| && c.pool[b].count > 0 && c.pool[b].dev != NODEV {
        ghost var view, w := c.view, Write(c.pool[b].Spot(), bytes);
        assert Replay(view, [w]) == Replay(view, [])[w.place := bytes];
        c.Modify(b, bytes);
      }
    case Put(b) =>
      if 0 <= b < |c.pool| && c.pool[b].count > 0 {
        c.PutBlock(b);
      }
  }

  // ----- Whole runs ------------------------------------------------------------------------------------------

  /** What the first operations of a run log; `trace` holds the pool before each. */
  ghost function LogOf(trace: seq<seq<Buffer>>, view: Disk, devices: set<int>, ops: seq<Op>): seq<Write>
    requires |trace| >= |ops|
    decreases |ops|
  {
    if ops == [] then []
    else
      var n := |ops| - 1;
      LogOf(trace, view, devices, ops[..n]) + Entry(trace[n], view, devices, ops[n])
  }

  /** The plain map before operation `k`. */
  ghost function ViewAt(trace: seq<seq<Buffer>>, view: Disk, devices: set<int>, ops: seq<Op>, k: nat): Disk
    requires k <= |ops| <= |trace|
  {
    Replay(view, LogOf(trace, view, devices, ops[..k]))
  }

  ghost predicate StepAt(trace: seq<seq<Buffer>>, view: Disk, devices: set<int>, ops: seq<Op>, results: seq<int>, k: nat)
    requires k < |ops| == |results| == |trace| - 1
  {
    Performed(trace[k], ViewAt(trace, view, devices, ops, k), devices, ops[k], results[k], trace[k + 1])
  }

  /** The pools of `trace` are what the operations lead through, each with its result; `view` is the plain
      map at the start. */
  ghost predicate IsRun(trace: seq<seq<Buffer>>, view: Disk, devices: set<int>, ops: seq<Op>, results: seq<int>) {
    && |ops| == |results| == |trace| - 1
    && forall k :: 0 <= k < |ops| ==> StepAt(trace, view, devices, ops, results, k)
  }

  lemma ReplayAppend(view: Disk, log: seq<Write>, more: seq<Write>)
    requires |more| <= 1
    ensures Replay(view, log + more) == Replay(Replay(view, log), more)
  {
    if |more| == 1 {
      assert (log + more)[..|log|] == log && more[..0] == [];
    } else {
      assert log + more == log;
    }
  }

  /** Which stores are allowed does not depend on the bytes of the plain map. */
  lemma EntryAlways(pool: seq<Buffer>, view: Disk, view': Disk, devices: set<int>, op: Op)
    ensures Entry(pool, view, devices, op) == Entry(pool, view', devices, op)
  {
  }

  lemma {:induction false} LogOfPrefix(trace: seq<seq<Buffer>>, trace': seq<seq<Buffer>>, view: Disk, devices: set<int>, ops: seq<Op>)
    requires |ops| <= |trace| && trace <= trace'
    ensures LogOf(trace', view, devices, ops) == LogOf(trace, view, devices, ops)
    decreases |ops|
  {
    if ops != [] { LogOfPrefix(trace, trace', view, devices, ops[..|ops| - 1]); }
  }

  /** What comes later does not change the plain map before it. */
  lemma ViewAtSame(trace: seq<seq<Buffer>>, view: Disk, devices: set<int>, ops: seq<Op>, op: Op, pool: seq<Buffer>, k: nat)
    requires k <= |ops| <= |trace|
    ensures ViewAt(trace + [pool], view, devices, ops + [op], k) == ViewAt(trace, view, devices, ops, k)
  {
    assert (ops + [op])[..k] == ops[..k];
    LogOfPrefix(trace, trace + [pool], view, devices, ops[..k]);
  }

  lemma ViewAtNext(trace: seq<seq<Buffer>>, view: Disk, devices: set<int>, ops: seq<Op>, op: Op, pool: seq<Buffer>)
    requires |trace| == |ops| + 1
    ensures ViewAt(trace + [pool], view, devices, ops + [op], |ops| + 1)
      == Replay(ViewAt(trace, view, devices, ops, |ops|), Entry(trace[|ops|], ViewAt(trace, view, devices, ops, |ops|), devices, op))
  {
    var n, trace', ops' := |ops|, trace + [pool], ops + [op];
    assert ops'[..n + 1] == ops' && ops'[..n] == ops && ops[..n] == ops;
    LogOfPrefix(trace, trace', view, devices, ops);
    EntryAlways(trace[n], view, ViewAt(trace, view, devices, ops, n), devices, op);
    ReplayAppend(view, LogOf(trace, view, devices, ops), Entry(trace[n], view, devices, op));
  }

  lemma StepAtSame(trace: seq<seq<Buffer>>, view: Disk, devices: set<int>, ops: seq<Op>, results: seq<int>,
                   op: Op, result: int, pool: seq<Buffer>, k: nat)
    requires k < |ops| == |results| == |trace| - 1 && StepAt(trace, view, devices, ops, results, k)
    ensures StepAt(trace + [pool], view, devices, ops + [op], results + [result], k)
  {
    ViewAtSame(trace, view, devices, ops, op, pool, k);
  }

  /** A run with one operation more. */
  lemma RunMore(trace: seq<seq<Buffer>>, view: Disk, devices: set<int>, ops: seq<Op>, results: seq<int>,
                op: Op, result: int, pool: seq<Buffer>)
    requires IsRun(trace, view, devices, ops, results)
    requires Performed(trace[|ops|], ViewAt(trace, view, devices, ops, |ops|), devices, op, result, pool)
    ensures IsRun(trace + [pool], view, devices, ops + [op], results + [result])
    ensures ViewAt(trace + [pool], view, devices, ops + [op], |ops| + 1)
      == Replay(ViewAt(trace, view, devices, ops, |ops|), Entry(trace[|ops|], ViewAt(trace, view, devices, ops, |ops|), devices, op))
  {
    ViewAtSame(trace, view, devices, ops, op, pool, |ops|);
    forall k | 0 <= k < |ops| + 1 ensures StepAt(trace + [pool], view, devices, ops + [op], results + [result], k) {
      if k < |ops| { StepAtSame(trace, view, devices, ops, results, op, result, pool, k); }
    }
    ViewAtNext(trace, view, devices, ops, op, pool);
  }

  /** The run has led to the pool and the plain map that `c` now stands for. */
  ghost predicate Along(c: Cache, trace: seq<seq<Buffer>>, view: Disk, pool0: seq<Buffer>, ops: seq<Op>, results: seq<int>)
    reads c
  {
    && c.Valid() && IsRun(trace, view, c.devices, ops, results)
    && trace[0] == pool0 && trace[|ops|] == c.pool && c.view == ViewAt(trace, view, c.devices, ops, |ops|)
  }

  /** One operation more. */
  method PerformNext(c: Cache, op: Op, ghost trace: seq<seq<Buffer>>, ghost view: Disk, ghost pool0: seq<Buffer>,
                     ghost ops: seq<Op>, results: seq<int>)
    returns (result: int)
    requires Along(c, trace, view, pool0, ops, results)
    modifies c
    ensures Along(c, trace + [c.pool], view, pool0, ops + [op], results + [result])
  {
    result := Perform(c, op);
    RunMore(trace, view, c.devices, ops, results, op, result, c.pool);
  }

  /** Over every run, what a reader finds through the cache is what the plain map holds once every store that
      was allowed has been made in it, in order: no store is lost, whatever is evicted.  Each request shows the
      bytes that the plain map has at that point of the run. */
  method Run(c: Cache, ops: seq<Op>) returns (results: seq<int>, ghost trace: seq<seq<Buffer>>)
    requires c.Valid()
    modifies c
    ensures c.Valid() && IsRun(trace, old(c.view), c.devices, ops, results)
    ensures trace[0] == old(c.pool) && trace[|ops|] == c.pool
    ensures c.view == Replay(old(c.view), LogOf(trace, old(c.view), c.devices, ops))
  {
    results, trace := [], [c.pool];
    ghost var view, pool0, done := c.view, c.pool, [];
    var i := 0;
    while i < |ops|
      invariant 0 <= i <= |ops| && done == ops[..i]
      invariant Along(c, trace, view, pool0, done, results)
    {
      var result := PerformNext(c, ops[i], trace, view, pool0, done, results);
      results, trace, done := results + [result], trace + [c.pool], done + [ops[i]];
      i := i + 1;
    }
    assert done == ops && ops[..|ops|] == ops;
  }

  // ----- What every run keeps ---------------------------------------------------------------------------------

  /** Buffer `b` is pinned, for the block of that label. */
  ghost predicate PinnedFor(pool: seq<Buffer>, b: int, dev: int, block: int) {
    IsPinned(pool, b) && pool[b].dev == dev && pool[b].blockNum == block && dev != NODEV
  }

  /** A buffer pinned before a run and not put during it keeps its label, which is what lets the block group
      descriptors be used in place for ever. */
  lemma {:induction false} PinnedStays(trace: seq<seq<Buffer>>, view: Disk, devices: set<int>, ops: seq<Op>, results: seq<int>,
                                       b: int, dev: int, block: int, k: nat)
    requires IsRun(trace, view, devices, ops, results) && PinnedFor(trace[0], b, dev, block) && Put(b) !in ops && k <= |ops|
    ensures PinnedFor(trace[k], b, dev, block)
    decreases k
  {
    if k > 0 {
      PinnedStays(trace, view, devices, ops, results, b, dev, block, k - 1);
      assert StepAt(trace, view, devices, ops, results, k - 1);
    }
  }

  /** Such a buffer shows the bytes of its block. */
  lemma PinnedShows(c: Cache, b: int, dev: int, block: int)
    requires c.Valid() && PinnedFor(c.pool, b, dev, block)
    ensures PlaceOf(dev, block) in c.view && c.view[PlaceOf(dev, block)] == c.pool[b].buff
  {
    HolderIs(c.pool, c.disk, b);
  }

  /** The pins that buffer `b` has gained less those it has lost. */
  ghost function Balance(trace: seq<seq<Buffer>>, ops: seq<Op>, results: seq<int>, b: int): int
    requires |ops| <= |results| && |ops| <= |trace|
    decreases |ops|
  {
    if ops == [] then 0
    else
      var n := |ops| - 1;
      Balance(trace, ops[..n], results, b)
        + (if ops[n].Get? && results[n] == b then 1 else if ops[n] == Put(b) && IsPinned(trace[n], b) then -1 else 0)
  }

  /** Pins are conserved: a buffer has those it had, one more for each request that returned it, and one less
      for each time it was put. */
  lemma {:induction false} PinsConserved(trace: seq<seq<Buffer>>, view: Disk, devices: set<int>, ops: seq<Op>, results: seq<int>, b: int, k: nat)
    requires IsRun(trace, view, devices, ops, results) && 0 <= b < |trace[0]| && k <= |ops|
    ensures |trace[k]| == |trace[0]| && trace[k][b].count == trace[0][b].count + Balance(trace, ops[..k], results, b)
    decreases k
  {
    if k > 0 {
      PinsConserved(trace, view, devices, ops, results, b, k - 1);
      assert StepAt(trace, view, devices, ops, results, k - 1);
      assert ops[..k][..k - 1] == ops[..k - 1];
    }
  }

  // ----- Which buffer is evicted ------------------------------------------------------------------------------

  /** No buffer has that label. */
  ghost predicate Uncached(pool: seq<Buffer>, dev: int, block: int) {
    forall h :: 0 <= h < |pool| ==> !(pool[h].dev == dev && pool[h].blockNum == block)
  }

  /** The blocks of a device that are there to be read, each once, and in no buffer. */
  ghost predicate AllMissing(pool: seq<Buffer>, view: Disk, dev: int, blocks: seq<int>) {
    && (forall i, j :: 0 <= i < j < |blocks| ==> blocks[i] != blocks[j])
    && forall i :: 0 <= i < |blocks| ==> Place(dev % 256, blocks[i]) in view && Uncached(pool, dev, blocks[i])
  }

  /** Once the first of them is in a buffer, the others are still missing. */
  lemma OthersMissing(pool: seq<Buffer>, pool': seq<Buffer>, view: Disk, dev: int, blocks: seq<int>, r: int)
    requires AllMissing(pool, view, dev, blocks) && blocks != []
    requires |pool'| == |pool| && forall h :: 0 <= h < |pool| && h != r ==> pool'[h] == pool[h]
    requires 0 <= r < |pool| && pool'[r].blockNum == blocks[0]
    ensures AllMissing(pool', view, dev, blocks[1..])
  {
    forall i | 0 <= i < |blocks[1..]| ensures Uncached(pool', dev, blocks[1..][i]) {
      assert blocks[1..][i] == blocks[i + 1] && Uncached(pool, dev, blocks[i + 1]);
    }
  }

  /** A miss takes the head of the free list. */
  method Miss(c: Cache, dev: int, block: int) returns (r: int)
    requires c.Valid() && dev in c.devices && Place(dev % 256, block) in c.view && Uncached(c.pool, dev, block) && c.free != []
    modifies c
    ensures c.Valid() && c.view == old(c.view)
    ensures r == old(c.free)[0] && c.free == old(c.free)[1..]
    ensures 0 <= r < |c.pool| == |old(c.pool)| && c.pool[r].dev == dev && c.pool[r].blockNum == block
    ensures forall h :: 0 <= h < |c.pool| && h != r ==> c.pool[h] == old(c.pool)[h]
  {
    c.FreeMeans();
    r := c.GetBlock(block, dev);
  }

  /** Blocks that are in no buffer, requested one after the other: each request evicts the buffer that stands first
      on the free list, so the buffers are evicted in the order of that list. */
  method MissAll(c: Cache, dev: int, blocks: seq<int>) returns (rs: seq<int>)
    requires c.Valid() && dev in c.devices && AllMissing(c.pool, c.view, dev, blocks) && |blocks| <= |c.free|
    modifies c
    ensures c.Valid() && c.view == old(c.view)
    ensures rs == old(c.free)[..|blocks|] && c.free == old(c.free)[|blocks|..]
  {
    rs := [];
    var rest := blocks;
    while rest != []
      invariant c.Valid() && c.view == old(c.view) && |rs| + |rest| == |blocks| && rs + c.free == old(c.free)
      invariant AllMissing(c.pool, c.view, dev, rest)
      decreases |rest|
    {
      ghost var pool, free := c.pool, c.free;
      var r := Miss(c, dev, rest[0]);
      OthersMissing(pool, c.pool, c.view, dev, rest, r);
      assert rs + free == (rs + [r]) + c.free;
      rs, rest := rs + [r], rest[1..];
    }
  }

  /** A buffer put for the last time is the one that the next miss evicts, unless it is a directory's. */
  method PutThenMiss(c: Cache, b: int, dev: int, block: int) returns (r: int)
    requires c.Valid() && 0 <= b < |c.pool| && c.pool[b].count == 1 && c.pool[b].flags != 1
    requires dev in c.devices && Place(dev % 256, block) in c.view && Uncached(c.pool, dev, block)
    modifies c
    ensures c.Valid() && r == b && c.free == old(c.free)
  {
    ghost var pool := c.pool;
    c.PutBlock(b);
    UncachedStill(pool, c.pool, b, dev, block);
    r := Miss(c, dev, block);
  }

  lemma UncachedStill(pool: seq<Buffer>, pool': seq<Buffer>, b: int, dev: int, block: int)
    requires 0 <= b < |pool| && pool[b].count > 0 && Uncached(pool, dev, block) && pool' == pool[b := pool[b].(count := pool[b].count - 1)]
    ensures Uncached(pool', dev, block)
  {
  }

  /** A directory's buffer put for the last time is evicted only when every buffer that was free before it has been. */
  method PutDirectoryThenMiss(c: Cache, b: int, dev: int, blocks: seq<int>) returns (rs: seq<int>)
    requires c.Valid() && 0 <= b < |c.pool| && c.pool[b].count == 1 && c.pool[b].flags == 1
    requires dev in c.devices && AllMissing(c.pool, c.view, dev, blocks) && |blocks| == |c.free| + 1
    modifies c
    ensures c.Valid() && rs == old(c.free) + [b] && c.free == []
  {
    ghost var pool := c.pool;
    c.PutBlock(b);
    forall i | 0 <= i < |blocks| ensures Uncached(c.pool, dev, blocks[i]) {
      UncachedStill(pool, c.pool, b, dev, blocks[i]);
    }
    rs := MissAll(c, dev, blocks);
  }
}
