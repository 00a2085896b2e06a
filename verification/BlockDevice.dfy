/** Byte streams over the buffer cache: bdev_read and bdev_write. */
module BlockDevice {
  import opened Memory
  import opened BufferPool
  import opened BufferCache

  /** The byte at position `a` of a device seen as one flat stream. */
  function ByteAt(view: Disk, dev: int, a: int): Byte
    requires PlaceOf(dev, a / BLOCK_SIZE) in view
  {
    view[PlaceOf(dev, a / BLOCK_SIZE)][a % BLOCK_SIZE]
  }

  /** Every block that [pos, pos + count) touches exists. */
  ghost predicate OnDevice(view: Disk, dev: int, pos: int, count: int) {
    forall k :: pos / BLOCK_SIZE <= k && k * BLOCK_SIZE < pos + count ==> PlaceOf(dev, k) in view
  }

  /** Every buffer has as many pins as before, and those that are pinned have the same labels. */
  ghost predicate SamePins(pool: seq<Buffer>, pool': seq<Buffer>) {
    && |pool| == |pool'|
    && forall b :: 0 <= b < |pool| ==>
      && pool[b].count == pool'[b].count
      && (pool[b].count > 0 ==> pool[b].dev == pool'[b].dev && pool[b].blockNum == pool'[b].blockNum)
  }

  lemma SamePinsOn(pool: seq<Buffer>, pool': seq<Buffer>, pool'': seq<Buffer>)
    requires SamePins(pool, pool') && SamePins(pool', pool'')
    ensures SamePins(pool, pool'')
  {
  }

  /** For every block that [pos, pos + count) touches a buffer is to be had. */
  ghost predicate RoomForAll(pool: seq<Buffer>, dev: int, pos: int, count: int) {
    forall k {:trigger RoomFor(pool, dev, k)} :: pos / BLOCK_SIZE <= k && k * BLOCK_SIZE < pos + count ==> RoomFor(pool, dev, k)
  }

  lemma RoomStays(pool: seq<Buffer>, pool': seq<Buffer>, dev: int, block: int)
    requires SamePins(pool, pool') && RoomFor(pool, dev, block)
    ensures RoomFor(pool', dev, block)
  {
    if SomeFree(pool) {
      var b :| 0 <= b < |pool| && pool[b].count == 0;
      assert pool'[b].count == 0;
    } else {
      var h := Holder(pool, PlaceOf(dev, block));
      assert pool[h].count > 0;
      assert pool'[h].Holds(PlaceOf(dev, block));
    }
  }

  /** The two functions take no account of the offset when they fit a request to a sector: they stay inside
      the buffer exactly when the position is a sector boundary or the request ends in its sector. */
  predicate StaysInBuffers(pos: int, count: int) {
    count <= 0 || pos % BLOCK_SIZE == 0 || pos % BLOCK_SIZE + count <= BLOCK_SIZE
  }

  /** A buffer pinned for a block, perhaps changed, and put. */
  lemma PinsBalance(pool0: seq<Buffer>, pool1: seq<Buffer>, pool2: seq<Buffer>, b: int, dev: int, block: int)
    requires Got(pool0, pool1, b, dev, block) && |pool2| == |pool1|
    requires forall a :: 0 <= a < |pool1| ==>
      && pool2[a].count == (if a == b then pool1[b].count - 1 else pool1[a].count)
      && (pool1[a].count > 0 ==> pool2[a].dev == pool1[a].dev && pool2[a].blockNum == pool1[a].blockNum)
    ensures SamePins(pool0, pool2)
  {
  }

  /** Position `a` lies `offset` bytes into block `block`. */
  lemma Locate(a: int, block: int, offset: int)
    requires a == block * BLOCK_SIZE + offset && 0 <= offset < BLOCK_SIZE
    ensures a / BLOCK_SIZE == block && a % BLOCK_SIZE == offset
  {
  }

  /** The inner loop of bdev_read: bytes of buffer `bh`, from `offset` on, to dest[at..at + chars]. */
  method CopyOut(c: Cache, bh: int, offset: int, dest: array<Byte>, at: int, chars: int)
    requires 0 <= bh < |c.pool| && 0 <= offset && 0 <= chars && offset + chars <= BLOCK_SIZE
    requires 0 <= at && at + chars <= dest.Length
    modifies dest
    ensures forall k :: at <= k < at + chars ==> dest[k] == c.pool[bh].buff[offset + (k - at)]
    ensures forall k :: 0 <= k < dest.Length && !(at <= k < at + chars) ==> dest[k] == old(dest[k])
  {
    var i := 0;
    while i < chars
      invariant 0 <= i <= chars
      invariant forall k :: at <= k < at + i ==> dest[k] == c.pool[bh].buff[offset + (k - at)]
      invariant forall k :: 0 <= k < dest.Length && !(at <= k < at + i) ==> dest[k] == old(dest[k])
    {
      dest[at + i] := c.pool[bh].buff[offset + i];
      i := i + 1;
    }
  }

  /** One turn of the outer loop of bdev_read. */
  method ReadSector(c: Cache, dev: int, block: int, offset: int, dest: array<Byte>, at: int, chars: int)
    requires c.Valid() && RoomFor(c.pool, dev, block) && dev in c.devices && PlaceOf(dev, block) in c.view
    requires 0 <= offset && 0 <= chars && offset + chars <= BLOCK_SIZE && 0 <= at && at + chars <= dest.Length
    modifies c, dest
    ensures c.Valid() && c.view == old(c.view) && SamePins(old(c.pool), c.pool)
    ensures forall k :: at <= k < at + chars ==> dest[..][k] == c.view[PlaceOf(dev, block)][offset + (k - at)]
    ensures forall k :: 0 <= k < dest.Length && !(at <= k < at + chars) ==> dest[..][k] == old(dest[..])[k]
  {
    ghost var pool0 := c.pool;
    var bh := c.GetBlock(block, dev);
    ghost var pool1 := c.pool;
    CopyOut(c, bh, offset, dest, at, chars);
    c.PutBlock(bh);
    PinsBalance(pool0, pool1, c.pool, bh, dev, block);
  }

  /** The byte at position `a` of the device is `v`. */
  ghost predicate ReadsAs(view: Disk, dev: int, a: int, v: Byte) {
    PlaceOf(dev, a / BLOCK_SIZE) in view && v == ByteAt(view, dev, a)
  }

  /** dest[..n] holds the bytes of the device from `pos` on. */
  ghost predicate Holds(view: Disk, dev: int, pos: int, dest: seq<Byte>, n: int) {
    n <= |dest| && forall k :: 0 <= k < n ==> ReadsAs(view, dev, pos + k, dest[k])
  }

  /** What that says of a single byte. */
  lemma HoldsMeans(view: Disk, dev: int, pos: int, dest: seq<Byte>, n: int, k: int)
    requires Holds(view, dev, pos, dest, n) && 0 <= k < n
    ensures var place := Place(dev % 256, (pos + k) / 512); place in view && dest[k] == view[place][(pos + k) % 512]
  {
    assert ReadsAs(view, dev, pos + k, dest[k]);
  }

  lemma HoldsMore(view: Disk, dev: int, pos: int, before: seq<Byte>, dest: seq<Byte>, n: int, block: int, offset: int, chars: int)
    requires 0 <= n && Holds(view, dev, pos, before, n) && |before| == |dest| && n + chars <= |dest|
    requires forall k :: 0 <= k < n ==> dest[k] == before[k]
    requires PlaceOf(dev, block) in view && pos + n == block * BLOCK_SIZE + offset
    requires 0 <= offset && 0 <= chars && offset + chars <= BLOCK_SIZE
    requires forall k :: n <= k < n + chars ==> dest[k] == view[PlaceOf(dev, block)][offset + (k - n)]
    ensures Holds(view, dev, pos, dest, n + chars)
  {
    forall k | 0 <= k < n + chars ensures ReadsAs(view, dev, pos + k, dest[k]) {
      if k < n { assert dest[k] == before[k]; } else { Locate(pos + k, block, offset + (k - n)); }
    }
  }

  /** The arithmetic of the two outer loops, after `done` bytes with `left` to go. */
  ghost predicate Progress(pos: int, count: int, block: int, offset: int, done: int, left: int, newPos: int) {
    && 0 <= done && done + left == (if count > 0 then count else left) && (count > 0 ==> left >= 0)
    && (count <= 0 ==> done == 0 && left == count)
    && (if left <= 0 then StaysInBuffers(pos, count)
        else block * BLOCK_SIZE + offset == pos + done && offset == (if done == 0 then pos % BLOCK_SIZE else 0)
             && (done > 0 ==> pos % BLOCK_SIZE == 0 && done % BLOCK_SIZE == 0))
    && newPos == U32(pos + done)
  }

  lemma NextBlock(pos: int, count: int, block: int, offset: int, done: int, left: int, newPos: int)
    requires Progress(pos, count, block, offset, done, left, newPos) && left > 0 && 0 <= pos
    ensures 0 <= offset < BLOCK_SIZE && pos / BLOCK_SIZE <= block && block * BLOCK_SIZE < pos + count
    ensures var chars := if left < BLOCK_SIZE then left else BLOCK_SIZE;
      if offset + chars > BLOCK_SIZE then !StaysInBuffers(pos, count)
      else Progress(pos, count, block + 1, 0, done + chars, left - chars, U32(newPos + chars))
  {
    var chars := if left < BLOCK_SIZE then left else BLOCK_SIZE;
    WrapsOnce(pos + done, chars);
    assert pos == pos / BLOCK_SIZE * BLOCK_SIZE + pos % BLOCK_SIZE;
    if done > 0 {
      assert done == done / BLOCK_SIZE * BLOCK_SIZE;
    }
  }

  lemma WrapsOnce(x: int, y: int)
    ensures U32(U32(x) + y) == U32(x + y)
  {
  }

  /** A whole sector from position 1: already the first turn would copy up to byte 513 of a buffer of 512. */
  lemma ShiftedSectorOverruns()
    ensures Progress(1, BLOCK_SIZE, 0, 1, 0, BLOCK_SIZE, 1)
    ensures !StaysInBuffers(1, BLOCK_SIZE)
  {
    NextBlock(1, BLOCK_SIZE, 0, 1, 0, BLOCK_SIZE, 1);
  }

  /** What bdev_read has done to dest after `n` bytes. */
  ghost predicate ReadSoFar(view: Disk, dev: int, pos: int, dest0: seq<Byte>, dest: seq<Byte>, n: int) {
    && |dest| == |dest0| && 0 <= n && Holds(view, dev, pos, dest, n)
    && forall k :: n <= k < |dest| ==> dest[k] == dest0[k]
  }

  /** What that says of a single byte of dest. */
  lemma ReadMeans(view: Disk, dev: int, pos: int, dest0: seq<Byte>, dest: seq<Byte>, n: int, k: int)
    requires ReadSoFar(view, dev, pos, dest0, dest, n) && 0 <= k < |dest|
    ensures |dest| == |dest0|
    ensures var place := Place(dev % 256, (pos + k) / 512);
      if k < n then place in view && dest[k] == view[place][(pos + k) % 512] else dest[k] == dest0[k]
  {
    if k < n { HoldsMeans(view, dev, pos, dest, n, k); }
  }

  lemma ReadMore(view: Disk, dev: int, pos: int, dest0: seq<Byte>, before: seq<Byte>, dest: seq<Byte>, n: int,
                 block: int, offset: int, chars: int)
    requires ReadSoFar(view, dev, pos, dest0, before, n) && |before| == |dest| && n + chars <= |dest|
    requires forall k :: 0 <= k < |dest| && !(n <= k < n + chars) ==> dest[k] == before[k]
    requires PlaceOf(dev, block) in view && pos + n == block * BLOCK_SIZE + offset
    requires 0 <= offset && 0 <= chars && offset + chars <= BLOCK_SIZE
    requires forall k :: n <= k < n + chars ==> dest[k] == view[PlaceOf(dev, block)][offset + (k - n)]
    ensures ReadSoFar(view, dev, pos, dest0, dest, n + chars)
  {
    HoldsMore(view, dev, pos, before, dest, n, block, offset, chars);
  }

  /** One turn of the outer loop of bdev_read, seen over the whole of the request. */
  method ReadOnwards(c: Cache, dev: int, block: int, offset: int, dest: array<Byte>, at: int, chars: int,
                     ghost dest0: seq<Byte>, ghost pool0: seq<Buffer>, ghost pos: int)
    requires c.Valid() && dev in c.devices && PlaceOf(dev, block) in c.view
    requires RoomFor(pool0, dev, block) && SamePins(pool0, c.pool)
    requires 0 <= offset && 0 <= chars && offset + chars <= BLOCK_SIZE && 0 <= at && at + chars <= dest.Length
    requires ReadSoFar(c.view, dev, pos, dest0, dest[..], at) && pos + at == block * BLOCK_SIZE + offset
    modifies c, dest
    ensures c.Valid() && c.view == old(c.view) && SamePins(pool0, c.pool)
    ensures ReadSoFar(c.view, dev, pos, dest0, dest[..], at + chars)
  {
    ghost var before, pool1 := dest[..], c.pool;
    RoomStays(pool0, c.pool, dev, block);
    ReadSector(c, dev, block, offset, dest, at, chars);
    SamePinsOn(pool0, pool1, c.pool);
    ReadMore(c.view, dev, pos, dest0, before, dest[..], at, block, offset, chars);
  }

  /** Reads into dest; `ok` is false when the copy would leave the buffer, where the original's behaviour
      is undefined. */
  method BdevRead(c: Cache, dev: int, dest: array<Byte>, count: int, pos: int)
    returns (ok: bool, read: int, newPos: int)
    requires c.Valid() && dev in c.devices && RoomForAll(c.pool, dev, pos, count)
    requires 0 <= pos < WORD && count <= dest.Length && OnDevice(c.view, dev, pos, count)
    modifies c, dest
    ensures c.Valid() && c.view == old(c.view) && SamePins(old(c.pool), c.pool)
    ensures ok <==> count <= 0 || pos % 512 == 0 || pos % 512 + count <= 512
    ensures ok ==> read == (if count > 0 then count else 0) && newPos == (pos + read) % 0x1_0000_0000
    ensures ok ==> ReadSoFar(c.view, dev, pos, old(dest[..]), dest[..], read)
  {
    var block, offset := pos / BLOCK_SIZE, pos % BLOCK_SIZE;
    var left := count;
    ok, read, newPos := true, 0, pos;
    while left > 0
      invariant c.Valid() && c.view == old(c.view) && SamePins(old(c.pool), c.pool)
      invariant Progress(pos, count, block, offset, read, left, newPos)
      invariant ReadSoFar(c.view, dev, pos, old(dest[..]), dest[..], read)
      decreases left
    {
      var chars := if left < BLOCK_SIZE then left else BLOCK_SIZE;
      NextBlock(pos, count, block, offset, read, left, newPos);
      if offset + chars > BLOCK_SIZE {
        ok := false;
        return;
      }
      ReadOnwards(c, dev, block, offset, dest, read, chars, old(dest[..]), old(c.pool), pos);
      offset := 0;
      block := block + 1;
      newPos := U32(newPos + chars);
      read := read + chars;
      left := left - chars;
    }
  }

  // ----- bdev_write -----------------------------------------------------------------------------------

  /** `s` with `bytes` written over it from `offset` on. */
  function Patched(s: Sector, offset: int, bytes: seq<Byte>): Sector
    requires 0 <= offset && offset + |bytes| <= BLOCK_SIZE
  {
    s[..offset] + bytes + s[offset + |bytes|..]
  }

  lemma PatchOneMore(s: Sector, offset: int, bytes: seq<Byte>, b: Byte)
    requires 0 <= offset && offset + |bytes| < BLOCK_SIZE
    ensures Patched(s, offset, bytes + [b]) == Patched(s, offset, bytes)[offset + |bytes| := b]
  {
  }

  /** Buffer `bh` and its block hold what they held in `pool` and `view`, with `bytes` written from `offset` on. */
  ghost predicate PatchedIn(c: Cache, bh: int, offset: int, bytes: seq<Byte>, b0: Buffer, pool: seq<Buffer>, view: Disk)
    requires 0 <= bh < |pool| && 0 <= offset && offset + |bytes| <= BLOCK_SIZE
    reads c
  {
    && c.pool == pool[bh := b0.(buff := Patched(b0.buff, offset, bytes))]
    && c.view == view[b0.Spot() := Patched(b0.buff, offset, bytes)]
  }

  /** One byte of the inner loop of bdev_write. */
  method CopyByte(c: Cache, bh: int, at: int, b: Byte, ghost offset: int, ghost bytes: seq<Byte>, ghost b0: Buffer, ghost pool: seq<Buffer>, ghost view: Disk)
    requires c.Valid() && 0 <= bh < |pool| && b0.count > 0 && b0.dev != NODEV && b0.dirty
    requires 0 <= offset && at == offset + |bytes| < BLOCK_SIZE && PatchedIn(c, bh, offset, bytes, b0, pool, view)
    modifies c`pool, c`view
    ensures c.Valid() && PatchedIn(c, bh, offset, bytes + [b], b0, pool, view)
  {
    PatchOneMore(b0.buff, offset, bytes, b);
    c.Modify(bh, c.pool[bh].buff[at := b]);
  }

  /** The inner loop of bdev_write: src[at..at + chars] to buffer `bh`, from `offset` on. */
  method CopyIn(c: Cache, bh: int, offset: int, src: seq<Byte>, at: int, chars: int)
    requires c.Valid() && 0 <= bh < |c.pool| && c.pool[bh].count > 0 && c.pool[bh].dev != NODEV && c.pool[bh].dirty
    requires 0 <= offset && 0 <= chars && offset + chars <= BLOCK_SIZE && 0 <= at && at + chars <= |src|
    requires c.pool[bh].Spot() in c.view && c.view[c.pool[bh].Spot()] == c.pool[bh].buff
    modifies c`pool, c`view
    ensures c.Valid() && PatchedIn(c, bh, offset, src[at..at + chars], old(c.pool)[bh], old(c.pool), old(c.view))
  {
    ghost var pool0, view0 := c.pool, c.view;
    ghost var b0 := pool0[bh];
    PatchNothing(c, bh, offset, src, at);
    var i := 0;
    while i < chars
      invariant 0 <= i <= chars && c.Valid() && PatchedIn(c, bh, offset, src[at..at + i], b0, pool0, view0)
    {
      CopyByte(c, bh, offset + i, src[at + i], offset, src[at..at + i], b0, pool0, view0);
      SliceMore(src, at, i);
      i := i + 1;
    }
  }

  lemma PatchNothing(c: Cache, bh: int, offset: int, src: seq<Byte>, at: int)
    requires 0 <= bh < |c.pool| && 0 <= offset <= BLOCK_SIZE && 0 <= at <= |src|
    requires c.pool[bh].Spot() in c.view && c.view[c.pool[bh].Spot()] == c.pool[bh].buff
    ensures PatchedIn(c, bh, offset, src[at..at + 0], c.pool[bh], c.pool, c.view)
  {
    assert Patched(c.pool[bh].buff, offset, src[at..at + 0]) == c.pool[bh].buff;
  }

  lemma SliceMore(src: seq<Byte>, at: int, i: int)
    requires 0 <= at && 0 <= i && at + i < |src|
    ensures src[at..at + i] + [src[at + i]] == src[at..at + i + 1] == src[at..at + (i + 1)]
  {
  }

  /** The dirty mark and the inner loop of bdev_write. */
  method ChangeBuffer(c: Cache, bh: int, offset: int, src: seq<Byte>, at: int, chars: int)
    requires c.Valid() && 0 <= bh < |c.pool| && c.pool[bh].count > 0 && c.pool[bh].dev != NODEV
    requires 0 <= offset && 0 <= chars && offset + chars <= BLOCK_SIZE && 0 <= at && at + chars <= |src|
    modifies c`pool, c`view
    ensures c.Valid() && PatchedIn(c, bh, offset, src[at..at + chars], old(c.pool)[bh].(dirty := true), old(c.pool), old(c.view))
  {
    ghost var pool0, view0 := c.pool, c.view;
    HolderIs(c.pool, c.disk, bh);
    c.Modify(bh, c.pool[bh].buff);
    CopyIn(c, bh, offset, src, at, chars);
  }

  /** One turn of the outer loop of bdev_write. */
  method WriteSector(c: Cache, dev: int, block: int, offset: int, src: seq<Byte>, at: int, chars: int)
    requires c.Valid() && RoomFor(c.pool, dev, block) && dev in c.devices && PlaceOf(dev, block) in c.view
    requires 0 <= offset && 0 <= chars && offset + chars <= BLOCK_SIZE && 0 <= at && at + chars <= |src|
    modifies c
    ensures c.Valid() && SamePins(old(c.pool), c.pool)
    ensures c.view == old(c.view)[PlaceOf(dev, block) :=
      Patched(old(c.view)[PlaceOf(dev, block)], offset, src[at..at + chars])]
  {
    ghost var pool0, view0 := c.pool, c.view;
    var bh := c.GetBlock(block, dev);
    ghost var pool1 := c.pool;
    ChangeBuffer(c, bh, offset, src, at, chars);
    c.PutBlock(bh);
    PinsBalance(pool0, pool1, c.pool, bh, dev, block);
  }

  /** The byte at `i` of place `p` once src[..n] has been written to the device from `pos` on. */
  function Expected(view: Disk, dev: int, pos: int, src: seq<Byte>, n: int, p: Place, i: int): Byte
    requires p in view && 0 <= i < BLOCK_SIZE && n <= |src|
  {
    var a := p.block * BLOCK_SIZE + i;
    if p.minor == Minor(dev) && pos <= a < pos + n then src[a - pos] else view[p][i]
  }

  /** `view` is `view0` with src[..n] written to the device from `pos` on, and nothing else changed. */
  ghost predicate Written(view0: Disk, view: Disk, dev: int, pos: int, src: seq<Byte>, n: int) {
    && 0 <= n <= |src| && view.Keys == view0.Keys
    && forall p, i {:trigger Expected(view0, dev, pos, src, n, p, i)} :: p in view0 && 0 <= i < BLOCK_SIZE ==>
      view[p][i] == Expected(view0, dev, pos, src, n, p, i)
  }

  /** What that says of byte `i` of a block: written if it belongs to the device and to the range, else as it was. */
  lemma WrittenMeans(view0: Disk, view: Disk, dev: int, pos: int, src: seq<Byte>, n: int, minor: int, block: int, i: int)
    requires Written(view0, view, dev, pos, src, n) && Place(minor, block) in view0 && 0 <= i < 512
    ensures Place(minor, block) in view
    ensures var a := block * 512 + i;
      view[Place(minor, block)][i] ==
        if minor == dev % 256 && pos <= a < pos + n then src[a - pos] else view0[Place(minor, block)][i]
  {
    assert view[Place(minor, block)][i] == Expected(view0, dev, pos, src, n, Place(minor, block), i);
  }

  lemma WrittenMore(view0: Disk, before: Disk, view: Disk, dev: int, pos: int, src: seq<Byte>, n: int,
                    block: int, offset: int, chars: int)
    requires Written(view0, before, dev, pos, src, n) && n + chars <= |src| && 0 <= chars
    requires PlaceOf(dev, block) in before && pos + n == block * BLOCK_SIZE + offset
    requires 0 <= offset && offset + chars <= BLOCK_SIZE
    requires view == before[PlaceOf(dev, block) := Patched(before[PlaceOf(dev, block)], offset, src[n..n + chars])]
    ensures Written(view0, view, dev, pos, src, n + chars)
  {
    forall p, i | p in view0 && 0 <= i < BLOCK_SIZE
      ensures view[p][i] == Expected(view0, dev, pos, src, n + chars, p, i)
    {
      assert before[p][i] == Expected(view0, dev, pos, src, n, p, i);
    }
  }

  /** That turn, seen over the whole of the request. */
  method WriteOnwards(c: Cache, dev: int, block: int, offset: int, src: seq<Byte>, at: int, chars: int,
                      ghost view0: Disk, ghost pool0: seq<Buffer>, ghost pos: int)
    requires c.Valid() && dev in c.devices && PlaceOf(dev, block) in c.view
    requires RoomFor(pool0, dev, block) && SamePins(pool0, c.pool)
    requires 0 <= offset && 0 <= chars && offset + chars <= BLOCK_SIZE && 0 <= at && at + chars <= |src|
    requires Written(view0, c.view, dev, pos, src, at) && pos + at == block * BLOCK_SIZE + offset
    modifies c
    ensures c.Valid() && SamePins(pool0, c.pool)
    ensures Written(view0, c.view, dev, pos, src, at + chars)
  {
    ghost var before, pool1 := c.view, c.pool;
    RoomStays(pool0, c.pool, dev, block);
    WriteSector(c, dev, block, offset, src, at, chars);
    SamePinsOn(pool0, pool1, c.pool);
    WrittenMore(view0, before, c.view, dev, pos, src, at, block, offset, chars);
  }

  /** Writes from src; `ok` is false when the copy would leave the buffer, as in BdevRead. */
  method BdevWrite(c: Cache, dev: int, src: seq<Byte>, count: int, pos: int)
    returns (ok: bool, written: int, newPos: int)
    requires c.Valid() && dev in c.devices && RoomForAll(c.pool, dev, pos, count)
    requires 0 <= pos < WORD && count <= |src| && OnDevice(c.view, dev, pos, count)
    modifies c
    ensures c.Valid() && SamePins(old(c.pool), c.pool)
    ensures ok <==> count <= 0 || pos % 512 == 0 || pos % 512 + count <= 512
    ensures ok ==> written == (if count > 0 then count else 0) && newPos == (pos + written) % 0x1_0000_0000
    ensures ok ==> Written(old(c.view), c.view, dev, pos, src, written)
  {
    var block, offset := pos / BLOCK_SIZE, pos % BLOCK_SIZE;
    var left := count;
    ok, written, newPos := true, 0, pos;
    while left > 0
      invariant c.Valid() && SamePins(old(c.pool), c.pool)
      invariant Progress(pos, count, block, offset, written, left, newPos)
      invariant Written(old(c.view), c.view, dev, pos, src, written)
      decreases left
    {
      var chars := if left < BLOCK_SIZE then left else BLOCK_SIZE;
      NextBlock(pos, count, block, offset, written, left, newPos);
      if offset + chars > BLOCK_SIZE {
        ok := false;
        return;
      }
      WriteOnwards(c, dev, block, offset, src, written, chars, old(c.view), old(c.pool), pos);
      offset := 0;
      block := block + 1;
      newPos := U32(newPos + chars);
      written := written + chars;
      left := left - chars;
    }
  }

  /** What has been written is what a read of the same range then finds. */
  lemma WrittenIsRead(view0: Disk, view: Disk, dev: int, pos: int, src: seq<Byte>, dest: seq<Byte>, n: int)
    requires 0 <= pos && Written(view0, view, dev, pos, src, n) && Holds(view, dev, pos, dest, n)
    ensures dest[..n] == src[..n]
  {
    forall k | 0 <= k < n ensures dest[k] == src[k] {
      assert ReadsAs(view, dev, pos + k, dest[k]);
      var p, i := PlaceOf(dev, (pos + k) / BLOCK_SIZE), (pos + k) % BLOCK_SIZE;
      assert view[p][i] == Expected(view0, dev, pos, src, n, p, i);
    }
  }
}
