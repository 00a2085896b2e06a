/** ext2_lookup on its device: the directory walk through the buffer cache. */
module Ext2Lookup {
  import opened Memory
  import opened Options
  import opened BufferPool
  import opened BufferCache
  import opened BlockDevice
  import opened Ext2Address
  import opened Ext2Directory

  /** What ext2.c keeps of a filesystem: its figures, the inode tables of its block groups, and its device. */
  datatype Filesystem = Filesystem(g: Geometry, tables: seq<nat>, dev: int) {

    /** A block has few enough sectors for an eight-bit counter. */
    predicate Valid() {
      g.Regular() && g.blockSize / BLOCK_SIZE < 256
    }

    /** The group of the inode is described, and its table is on the device. */
    ghost predicate Has(view: Disk, inode: nat) {
      && inode > 0 && g.Regular() && 0 <= g.BgOfInode(inode) < |tables|
      && g.Fits(inode, Table(inode)) && PlaceOf(dev, g.InodePosition(inode, Table(inode)) / BLOCK_SIZE) in view
    }

    function Table(inode: nat): nat
      requires g.inodesPerGroup > 0 && 0 <= g.BgOfInode(inode) < |tables|
    {
      tables[g.BgOfInode(inode)]
    }

    /** `bytes` is the inode as it lies on the device. */
    ghost predicate IsInode(view: Disk, inode: nat, bytes: seq<Byte>) {
      Has(view, inode) && |bytes| == INODE_BYTES
      && Holds(view, dev, g.InodePosition(inode, Table(inode)), bytes, INODE_BYTES)
    }

    /** `s` is the given sector of the device. */
    ghost predicate IsSector(view: Disk, sector: int, s: Sector) {
      PlaceOf(dev, sector) in view && view[PlaceOf(dev, sector)] == s
    }

    /** `sectors` is the given block of the device. */
    ghost predicate IsBlock(view: Disk, block: nat, sectors: seq<Sector>) {
      && |sectors| == g.blockSize / BLOCK_SIZE
      && forall k {:trigger sectors[k]} :: 0 <= k < |sectors| ==> IsSector(view, SectorOfBlock(block, k), sectors[k])
    }

    function SectorOfBlock(block: nat, k: nat): int {
      U32(g.AddrOfBlock(block) + k)
    }

    /** The sector in which an inode lies. */
    function SectorOfInode(inode: nat): int {
      if g.inodesPerGroup > 0 && 0 <= g.BgOfInode(inode) < |tables| then g.InodePosition(inode, Table(inode)) / BLOCK_SIZE else 0
    }

    /** What the device holds in the blocks listed in `contents`. */
    ghost predicate Contains(view: Disk, contents: map<nat, seq<Sector>>) {
      forall block :: block in contents ==> IsBlock(view, block, contents[block])
    }
  }

  function DirectBlocks(inode: seq<Byte>): (blocks: seq<nat>)
    requires |inode| == INODE_BYTES
    ensures |blocks| == DIRECT_BLOCKS
  {
    seq(DIRECT_BLOCKS, i requires 0 <= i < DIRECT_BLOCKS => Field(inode, 40 + 4 * i, 4))
  }

  /** The direct blocks of an inode, byte by byte: four bytes each, from offset 40 on. */
  lemma DirectBlocksAt(inode: seq<Byte>, i: nat)
    requires |inode| == 128 && i < 12
    ensures |DirectBlocks(inode)| == 12
    ensures DirectBlocks(inode)[i] ==
      inode[40 + 4 * i] as int + 256 * (inode[41 + 4 * i] as int + 256 * (inode[42 + 4 * i] as int + 256 * (inode[43 + 4 * i] as int)))
  {
    FieldOfFour(inode, 40 + 4 * i);
  }

  /** An inode as it lies on the device: inode `k` of a group, from 0, at the `k`-th place of the group's table. */
  lemma InodeIsThere(fs: Filesystem, view: Disk, group: nat, k: nat, bytes: seq<Byte>, j: nat)
    requires k < fs.g.inodesPerGroup && group * fs.g.inodesPerGroup + 1 + k <= 0xFFFF_FFFF && j < 128
    requires fs.IsInode(view, group * fs.g.inodesPerGroup + 1 + k, bytes)
    ensures group < |fs.tables| && |bytes| == 128
    ensures var at := fs.tables[group] * fs.g.blockSize + k * fs.g.inodeSize + j; var place := Place(fs.dev % 256, at / 512);
      place in view && bytes[j] == view[place][at % 512]
  {
    var inode := group * fs.g.inodesPerGroup + 1 + k;
    InodesAreNumbered(fs.g, group, k, fs.Table(inode));
    HoldsMeans(view, fs.dev, fs.g.InodePosition(inode, fs.Table(inode)), bytes, 128, j);
  }

  /** A block as it lies on the device: its sectors, one after the other, from its number times the sectors of a block. */
  lemma BlockIsThere(fs: Filesystem, view: Disk, block: nat, sectors: seq<Sector>, k: nat)
    requires fs.IsBlock(view, block, sectors) && k < |sectors|
    requires 0 <= fs.g.blockSize / 512 * block && fs.g.blockSize / 512 * block + k <= 0xFFFF_FFFF
    ensures |sectors| == fs.g.blockSize / 512
    ensures var place := Place(fs.dev % 256, fs.g.blockSize / 512 * block + k); place in view && view[place] == sectors[k]
  {
    assert fs.IsSector(view, fs.SectorOfBlock(block, k), sectors[k]);
  }

  // ----- Pins ----------------------------------------------------------------------------------------------------

  /** The pins are as before but for one more on some buffer. */
  ghost predicate OnePinMore(pool: seq<Buffer>, pool': seq<Buffer>) {
    |pool| == |pool'| && exists b :: 0 <= b < |pool| && PinnedMore(pool, pool', b)
  }

  ghost predicate PinnedMore(pool: seq<Buffer>, pool': seq<Buffer>, b: int)
    requires |pool| == |pool'|
  {
    forall a :: 0 <= a < |pool| ==> pool'[a].count == pool[a].count + if a == b then 1 else 0
  }

  /** A walk that ends for want of size leaves one buffer pinned; any other gives back every pin. */
  ghost predicate PinsAfter(r: Walk, pool: seq<Buffer>, pool': seq<Buffer>) {
    if r.Gone? then OnePinMore(pool, pool') else SamePins(pool, pool')
  }

  lemma PinsAdd(r: Walk, pool: seq<Buffer>, pool': seq<Buffer>, pool'': seq<Buffer>)
    requires SamePins(pool, pool') && PinsAfter(r, pool', pool'')
    ensures PinsAfter(r, pool, pool'')
  {
    if r.Gone? {
      var b :| 0 <= b < |pool'| && PinnedMore(pool', pool'', b);
      assert PinnedMore(pool, pool'', b);
    }
  }

  lemma PinsDiffer(pool: seq<Buffer>, pool': seq<Buffer>)
    ensures !(OnePinMore(pool, pool') && SamePins(pool, pool'))
  {
    if OnePinMore(pool, pool') {
      var b :| 0 <= b < |pool| && PinnedMore(pool, pool', b);
      assert pool'[b].count == pool[b].count + 1;
    }
  }

  // ----- Room ----------------------------------------------------------------------------------------------------

  ghost predicate TwoFree(pool: seq<Buffer>) {
    exists a, b :: 0 <= a < b < |pool| && pool[a].count == 0 && pool[b].count == 0
  }

  /** The block is in a buffer that is pinned. */
  ghost predicate Resident(pool: seq<Buffer>, dev: int, block: int) {
    exists b :: 0 <= b < |pool| && pool[b].count > 0 && pool[b].Holds(PlaceOf(dev, block))
  }

  /** A buffer is to be had for block `x` and, while that is pinned, one for block `y`. */
  ghost predicate RoomForBoth(pool: seq<Buffer>, dev: int, x: int, y: int) {
    && RoomFor(pool, dev, x)
    && (PlaceOf(dev, x) == PlaceOf(dev, y) || TwoFree(pool) || Resident(pool, dev, y) || (SomeFree(pool) && Resident(pool, dev, x)))
  }

  lemma RoomAfterPin(pool: seq<Buffer>, disk: Disk, pool': seq<Buffer>, b: int, dev: int, x: int, y: int)
    requires RoomForBoth(pool, dev, x, y) && Got(pool, pool', b, dev, x) && dev != NODEV && Coherent(pool', disk)
    ensures RoomFor(pool', dev, y)
  {
    if PlaceOf(dev, x) == PlaceOf(dev, y) {
      assert pool'[b].Holds(PlaceOf(dev, y));
    } else if TwoFree(pool) {
      var c, d :| 0 <= c < d < |pool| && pool[c].count == 0 && pool[d].count == 0;
      assert pool'[if c == b then d else c].count == 0;
    } else if Resident(pool, dev, y) {
      var h :| 0 <= h < |pool| && pool[h].count > 0 && pool[h].Holds(PlaceOf(dev, y));
      assert pool'[h].Holds(PlaceOf(dev, y));
    } else {
      var h :| 0 <= h < |pool| && pool[h].count > 0 && pool[h].Holds(PlaceOf(dev, x));
      var f :| 0 <= f < |pool| && pool[f].count == 0;
      assert pool'[h].Holds(PlaceOf(dev, x)) && pool'[b].Holds(PlaceOf(dev, x));
      assert Clash(pool'[h], pool'[b]);
      assert h == b;
      assert pool'[f].count == 0;
    }
  }

  lemma RoomForBothStays(pool: seq<Buffer>, pool': seq<Buffer>, dev: int, x: int, y: int)
    requires SamePins(pool, pool') && RoomForBoth(pool, dev, x, y)
    ensures RoomForBoth(pool', dev, x, y)
  {
    RoomStays(pool, pool', dev, x);
    ResidentStays(pool, pool', dev, x);
    ResidentStays(pool, pool', dev, y);
    if TwoFree(pool) {
      var c, d :| 0 <= c < d < |pool| && pool[c].count == 0 && pool[d].count == 0;
      assert pool'[c].count == 0 && pool'[d].count == 0;
    }
    if SomeFree(pool) {
      var f :| 0 <= f < |pool| && pool[f].count == 0;
      assert pool'[f].count == 0;
    }
  }

  lemma ResidentStays(pool: seq<Buffer>, pool': seq<Buffer>, dev: int, x: int)
    requires SamePins(pool, pool')
    ensures Resident(pool, dev, x) ==> Resident(pool', dev, x)
  {
    if Resident(pool, dev, x) {
      var h :| 0 <= h < |pool| && pool[h].count > 0 && pool[h].Holds(PlaceOf(dev, x));
      assert pool'[h].count > 0 && pool'[h].Holds(PlaceOf(dev, x));
    }
  }

  /** A buffer is to be had for sector `x` of a directory and, while that is pinned, for the inode of any entry. */
  ghost predicate SectorRoom(pool: seq<Buffer>, fs: Filesystem, x: int, all: seq<Entry>) {
    && RoomFor(pool, fs.dev, x)
    && forall e <- all :: e.inode != SKIP_DIR ==> RoomForBoth(pool, fs.dev, x, fs.SectorOfInode(e.inode))
  }

  lemma SectorRoomStays(pool: seq<Buffer>, pool': seq<Buffer>, fs: Filesystem, x: int, all: seq<Entry>)
    requires SamePins(pool, pool') && SectorRoom(pool, fs, x, all)
    ensures SectorRoom(pool', fs, x, all)
  {
    RoomStays(pool, pool', fs.dev, x);
    forall e <- all | e.inode != SKIP_DIR ensures RoomForBoth(pool', fs.dev, x, fs.SectorOfInode(e.inode)) {
      RoomForBothStays(pool, pool', fs.dev, x, fs.SectorOfInode(e.inode));
    }
  }

  /** That is so for every sector of the directory. */
  ghost predicate Roomy(pool: seq<Buffer>, fs: Filesystem, contents: map<nat, seq<Sector>>, all: seq<Entry>) {
    forall block, k {:trigger fs.SectorOfBlock(block, k)} :: block in contents && 0 <= k < |contents[block]| ==>
      SectorRoom(pool, fs, fs.SectorOfBlock(block, k), all)
  }

  // ----- The walk --------------------------------------------------------------------------------------------------

  /** put_block(read_inode(...)). */
  method CopyOfInode(c: Cache, fs: Filesystem, inode: nat) returns (bytes: seq<Byte>)
    requires c.Valid() && fs.Valid() && fs.dev in c.devices && fs.Has(c.view, inode)
    requires RoomFor(c.pool, fs.dev, fs.SectorOfInode(inode))
    modifies c
    ensures c.Valid() && c.view == old(c.view) && SamePins(old(c.pool), c.pool)
    ensures fs.IsInode(c.view, inode, bytes)
  {
    ghost var pool0 := c.pool;
    var bh;
    bytes, bh := ReadInode(c, fs.g, inode, fs.Table(inode), fs.dev);
    ghost var pool1 := c.pool;
    c.PutBlock(bh);
    PinsBalance(pool0, pool1, c.pool, bh, fs.dev, fs.SectorOfInode(inode));
  }

  /** The filesystem has every inode that the entries name. */
  ghost predicate Names(fs: Filesystem, view: Disk, devices: set<int>, all: seq<Entry>) {
    && fs.Valid() && fs.dev in devices
    && forall e <- all :: e.inode != SKIP_DIR ==> fs.Has(view, e.inode)
  }

  /** The end of a walk over the sector in buffer `bh`: one that has found the name reads the inode, and one
      that has run out of size leaves the buffer pinned. */
  method Leave(c: Cache, fs: Filesystem, r: Walk, bh: int, sector: int, ghost pool0: seq<Buffer>) returns (inode: seq<Byte>)
    requires c.Valid() && fs.Valid() && fs.dev in c.devices && Got(pool0, c.pool, bh, fs.dev, sector)
    requires r.Found? ==> fs.Has(c.view, r.inode) && RoomForBoth(pool0, fs.dev, sector, fs.SectorOfInode(r.inode))
    modifies c
    ensures c.Valid() && c.view == old(c.view) && PinsAfter(r, pool0, c.pool)
    ensures r.Found? ==> fs.IsInode(c.view, r.inode, inode)
  {
    inode := [];
    ghost var pool1 := c.pool;
    if r.Gone? {
      assert PinnedMore(pool0, pool1, bh);
      return;
    }
    if r.Found? {
      RoomAfterPin(pool0, c.disk, pool1, bh, fs.dev, sector, fs.SectorOfInode(r.inode));
      inode := CopyOfInode(c, fs, r.inode);
    }
    c.PutBlock(bh);
    PinsBalance(pool0, pool1, c.pool, bh, fs.dev, sector);
  }

  /** One sector: a walk that finds the name also reads the inode, and one that runs out of size returns
      without putting the buffer. */
  method WalkCached(c: Cache, fs: Filesystem, sector: int, filename: seq<int>, len: nat, size: nat, budget: int,
                    ghost s: Sector, ghost done: seq<Entry>, ghost rest: seq<Entry>)
    returns (r: Walk, inode: seq<Byte>)
    requires c.Valid() && Walkable(s, 0) && Names(fs, c.view, c.devices, done + Visible(s, 0) + rest)
    requires fs.IsSector(c.view, sector, s) && SectorRoom(c.pool, fs, sector, done + Visible(s, 0) + rest)
    requires 0 < len <= |filename| && WalkedThrough(Continue(size), [], done, [], budget, filename[..len])
    modifies c
    ensures c.Valid() && c.view == old(c.view) && PinsAfter(r, old(c.pool), c.pool)
    ensures WalkedThrough(r, [], if r.Continue? then done + Visible(s, 0) else done + Visible(s, 0) + rest, [], budget, filename[..len])
    ensures r.Found? ==> fs.IsInode(c.view, r.inode, inode)
  {
    ghost var pool0, all := c.pool, done + Visible(s, 0) + rest;
    var bh := c.GetBlock(sector, fs.dev);
    r := WalkNextSector(c.pool[bh].buff, filename, len, size, budget, done, rest);
    if !r.Continue? {
      WalkEnds(all, r, budget, filename[..len]);
    }
    inode := Leave(c, fs, r, bh, sector, pool0);
  }

  /** The same, in terms of all entries of the directory, with the pins compared to those at its start. */
  method WalkNextCached(c: Cache, fs: Filesystem, block: nat, k: nat, filename: seq<int>, len: nat, size: nat, budget: int,
                        ghost contents: map<nat, seq<Sector>>, ghost done: seq<Entry>, ghost all: seq<Entry>, ghost pool0: seq<Buffer>)
    returns (r: Walk, inode: seq<Byte>)
    requires c.Valid() && SamePins(pool0, c.pool) && Names(fs, c.view, c.devices, all) && Roomy(pool0, fs, contents, all)
    requires block in contents && k < |contents[block]| && fs.IsBlock(c.view, block, contents[block])
    requires Walkable(contents[block][k], 0) && done + Visible(contents[block][k], 0) <= all
    requires 0 < len <= |filename| && WalkedThrough(Continue(size), [], done, [], budget, filename[..len])
    modifies c
    ensures c.Valid() && c.view == old(c.view) && PinsAfter(r, pool0, c.pool)
    ensures WalkedThrough(r, [], if r.Continue? then done + Visible(contents[block][k], 0) else all, [], budget, filename[..len])
    ensures r.Found? ==> fs.IsInode(c.view, r.inode, inode)
  {
    ghost var s := contents[block][k];
    ghost var pool1, rest := c.pool, all[|done + Visible(s, 0)|..];
    assert all == done + Visible(s, 0) + rest;
    var sector := fs.SectorOfBlock(block, k);
    SectorRoomStays(pool0, pool1, fs, sector, all);
    r, inode := WalkCached(c, fs, sector, filename, len, size, budget, s, done, rest);
    PinsAdd(r, pool0, pool1, c.pool);
  }

  lemma TurnOf(all: seq<Entry>, done: seq<Entry>, here: seq<Entry>, later: seq<Entry>)
    requires done + (here + later) <= all
    ensures done + here <= all && done + here + later == done + (here + later)
  {
  }

  /** The loop over the sectors of one block. */
  method WalkBlock(c: Cache, fs: Filesystem, block: nat, filename: seq<int>, len: nat, size: nat, budget: int,
                   ghost contents: map<nat, seq<Sector>>, ghost seen: seq<Entry>, ghost all: seq<Entry>, ghost pool0: seq<Buffer>)
    returns (r: Walk, inode: seq<Byte>)
    requires c.Valid() && SamePins(pool0, c.pool) && Names(fs, c.view, c.devices, all) && Roomy(pool0, fs, contents, all)
    requires block in contents && fs.IsBlock(c.view, block, contents[block])
    requires AllWalkable(contents[block]) && seen + VisibleIn(contents[block]) <= all
    requires 0 < len <= |filename| && WalkedThrough(Continue(size), [], seen, [], budget, filename[..len])
    modifies c
    ensures c.Valid() && c.view == old(c.view) && PinsAfter(r, pool0, c.pool)
    ensures WalkedThrough(r, [], if r.Continue? then seen + VisibleIn(contents[block]) else all, [], budget, filename[..len])
    ensures r.Found? ==> fs.IsInode(c.view, r.inode, inode)
  {
    r, inode := Continue(size), [];
    ghost var sectors := contents[block];
    ghost var done, view, whole := seen, c.view, seen + VisibleIn(sectors);
    for k := 0 to fs.g.blockSize / BLOCK_SIZE
      invariant whole == done + VisibleIn(sectors[k..])
      invariant c.Valid() && c.view == view && SamePins(pool0, c.pool)
      invariant r.Continue? && WalkedThrough(r, [], done, [], budget, filename[..len])
    {
      ghost var here, later := Visible(sectors[k], 0), VisibleIn(sectors[k + 1..]);
      assert sectors[k..][1..] == sectors[k + 1..];
      TurnOf(all, done, here, later);
      r, inode := WalkNextCached(c, fs, block, k, filename, len, r.size, budget, contents, done, all, pool0);
      if !r.Continue? {
        return;
      }
      done := done + here;
    }
    assert whole == done + [] == done;
  }

  /** How a walk over the whole directory ends. */
  ghost predicate Ended(r: Walk, inode: seq<Byte>, fs: Filesystem, view: Disk, all: seq<Entry>, budget: int, name: seq<int>) {
    match r
    case Found(number) =>
      && (exists k: nat :: FoundAt(all, budget, name, k) && all[k].inode == number)
      && fs.IsInode(view, number, inode)
    case Gone => Missed(all, budget, name) && !Exhausted(all, budget, name)
    case Continue(_) => Missed(all, budget, name) && Exhausted(all, budget, name)
  }

  /** The walk has gone through the blocks before `rest` in vain. */
  ghost predicate Underway(c: Cache, fs: Filesystem, contents: map<nat, seq<Sector>>, pool0: seq<Buffer>, view: Disk,
                           r: Walk, seen: seq<Entry>, rest: seq<nat>, all: seq<Entry>, budget: int, name: seq<int>)
    reads c
  {
    && c.Valid() && c.view == view && SamePins(pool0, c.pool)
    && Names(fs, view, c.devices, all) && Roomy(pool0, fs, contents, all) && fs.Contains(view, contents)
    && Readable(rest, contents) && all == seen + Listing(rest, contents)
    && r.Continue? && WalkedThrough(r, [], seen, [], budget, name)
  }

  /** One turn of the loop over the direct blocks. */
  method WalkNextBlock(c: Cache, fs: Filesystem, block: nat, filename: seq<int>, len: nat, walk: Walk, budget: int,
                       ghost contents: map<nat, seq<Sector>>, ghost seen: seq<Entry>, ghost rest: seq<nat>, ghost all: seq<Entry>,
                       ghost pool0: seq<Buffer>, ghost view: Disk)
    returns (r: Walk, inode: seq<Byte>, ghost more: seq<Entry>)
    requires 0 < len <= |filename| && rest != [] && block == rest[0] != 0
    requires Underway(c, fs, contents, pool0, view, walk, seen, rest, all, budget, filename[..len])
    modifies c
    ensures if r.Continue? then Underway(c, fs, contents, pool0, view, r, more, rest[1..], all, budget, filename[..len])
            else Stopped(c, fs, pool0, view, r, inode, all, budget, filename[..len])
  {
    ghost var here, later := VisibleIn(contents[block]), Listing(rest[1..], contents);
    TurnOf(all, seen, here, later);
    r, inode := WalkBlock(c, fs, block, filename, len, walk.size, budget, contents, seen, all, pool0);
    if !r.Continue? {
      WalkEnds(all, r, budget, filename[..len]);
    }
    more := seen + here;
  }

  /** The walk is over. */
  ghost predicate Stopped(c: Cache, fs: Filesystem, pool0: seq<Buffer>, view: Disk, r: Walk, inode: seq<Byte>, all: seq<Entry>,
                          budget: int, name: seq<int>)
    reads c
  {
    c.Valid() && c.view == view && PinsAfter(r, pool0, c.pool) && Ended(r, inode, fs, view, all, budget, name)
  }

  lemma UnderwayStops(c: Cache, fs: Filesystem, contents: map<nat, seq<Sector>>, pool0: seq<Buffer>, view: Disk,
                      r: Walk, seen: seq<Entry>, rest: seq<nat>, all: seq<Entry>, budget: int, name: seq<int>)
    requires Underway(c, fs, contents, pool0, view, r, seen, rest, all, budget, name) && (rest == [] || rest[0] == 0)
    ensures Stopped(c, fs, pool0, view, r, [], all, budget, name)
  {
    NothingFound(all, r, seen, budget, name);
  }

  /** The loop over the direct blocks, to the first that is zero. */
  method WalkDirectory(c: Cache, fs: Filesystem, blocks: seq<nat>, filename: seq<int>, len: nat, budget: int,
                       ghost contents: map<nat, seq<Sector>>, ghost pool0: seq<Buffer>)
    returns (r: Walk, inode: seq<Byte>)
    requires |blocks| == DIRECT_BLOCKS && 0 < len <= |filename| && Readable(blocks, contents)
    requires c.Valid() && SamePins(pool0, c.pool) && fs.Contains(c.view, contents)
    requires var all := Listing(blocks, contents); Names(fs, c.view, c.devices, all) && Roomy(pool0, fs, contents, all)
    modifies c
    ensures Stopped(c, fs, pool0, old(c.view), r, inode, Listing(blocks, contents), budget, filename[..len])
  {
    r, inode := Continue(0), [];
    ghost var all, seen, rest, view := Listing(blocks, contents), [], blocks, c.view;
    for n := 0 to DIRECT_BLOCKS
      invariant rest == blocks[n..] && inode == []
      invariant Underway(c, fs, contents, pool0, view, r, seen, rest, all, budget, filename[..len])
    {
      if blocks[n] == 0 {
        UnderwayStops(c, fs, contents, pool0, view, r, seen, rest, all, budget, filename[..len]);
        return;
      }
      var walk, found;
      ghost var more;
      walk, found, more := WalkNextBlock(c, fs, blocks[n], filename, len, r, budget, contents, seen, rest, all, pool0, view);
      r := walk;
      if !r.Continue? {
        inode := found;
        return;
      }
      seen, rest := more, rest[1..];
    }
    UnderwayStops(c, fs, contents, pool0, view, r, seen, rest, all, budget, filename[..len]);
  }

  lemma EndedMeans(r: Walk, inode: seq<Byte>, fs: Filesystem, view: Disk, all: seq<Entry>, budget: int, name: seq<int>)
    requires Ended(r, inode, fs, view, all, budget, name)
    ensures r.Gone? <==> RunsOut(all, budget, name)
  {
    if r.Gone? { OutOfSize(all, budget, name); }
  }

  /** What a lookup fills in of the inode it was given. */
  datatype Target = Target(number: nat, size: nat, permissions: nat)

  /** The inode of the directory, which is `ino`. */
  method ReadDirectory(c: Cache, fs: Filesystem, dir: nat, ghost ino: seq<Byte>) returns (inode: seq<Byte>)
    requires c.Valid() && fs.Valid() && fs.dev in c.devices && fs.IsInode(c.view, dir, ino)
    requires RoomFor(c.pool, fs.dev, fs.SectorOfInode(dir))
    modifies c
    ensures c.Valid() && c.view == old(c.view) && SamePins(old(c.pool), c.pool)
    ensures inode == ino
  {
    inode := CopyOfInode(c, fs, dir);
    SameBytes(c.view, fs.dev, fs.g.InodePosition(dir, fs.Table(dir)), inode, ino);
  }

  /** The answer to a lookup: nothing when no reached entry has the name; otherwise the inode of the first
      entry that has it, as it lies on the device. */
  ghost predicate Answers(r: Option<Target>, fs: Filesystem, view: Disk, all: seq<Entry>, budget: int, name: seq<int>) {
    match r
    case None => Missed(all, budget, name)
    case Some(t) =>
      && (exists k: nat :: FoundAt(all, budget, name, k) && all[k].inode == t.number)
      && (exists bytes :: fs.IsInode(view, t.number, bytes) && t.size == SizeLow(bytes) && t.permissions == Permissions(bytes))
  }

  /** A lookup succeeds exactly when some entry in use has the name and the entries before it come to no more than the
      directory's size; it then gives the inode of the first with that name, with the size and the permissions that lie on
      the device. */
  lemma AnswersExactly(r: Option<Target>, fs: Filesystem, view: Disk, all: seq<Entry>, budget: int, name: seq<int>)
    requires Answers(r, fs, view, all, budget, name)
    ensures r.Some? <==> exists k ::
      (&& 0 <= k < |all| && all[k].inode != 0 && all[k].name == name
       && forall j :: 0 < j <= k ==> TotalSize(all[..j]) <= budget)
    ensures r.Some? ==> exists k ::
      (&& 0 <= k < |all| && all[k].inode == r.value.number && all[k].name == name
       && forall j :: 0 <= j < k ==> all[j].inode == 0 || all[j].name != name)
    ensures r.Some? ==> exists bytes ::
      (&& fs.IsInode(view, r.value.number, bytes) && r.value.permissions == bytes[0] as int + 256 * (bytes[1] as int)
       && r.value.size == bytes[4] as int + 256 * (bytes[5] as int + 256 * (bytes[6] as int + 256 * (bytes[7] as int))))
  {
    if r.Some? {
      var k: nat :| FoundAt(all, budget, name, k) && all[k].inode == r.value.number;
      forall j | 0 <= j < k ensures all[j].inode == 0 || all[j].name != name { assert !Matches(all[j], name); }
      var bytes :| fs.IsInode(view, r.value.number, bytes) && r.value.size == SizeLow(bytes) && r.value.permissions == Permissions(bytes);
      InodeFields(bytes);
    } else {
      forall k | 0 <= k < |all| && all[k].inode != 0 && all[k].name == name
        ensures exists j :: 0 < j <= k && TotalSize(all[..j]) > budget
      {
        assert Matches(all[k], name) && !Reached(all, budget, k);
      }
    }
  }

  /** ext2_lookup of the first `len` characters of a file name in directory `dir`, whose inode is `ino` and
      whose blocks hold `contents`.  Every pin is given back, if and only if the walk does not run out of the
      directory's size; if it does, one buffer stays pinned. */
  method Lookup(c: Cache, fs: Filesystem, dir: nat, filename: seq<int>, len: nat,
                ghost ino: seq<Byte>, ghost contents: map<nat, seq<Sector>>)
    returns (r: Option<Target>)
    requires c.Valid() && fs.IsInode(c.view, dir, ino) && len <= |filename| && RoomFor(c.pool, fs.dev, fs.SectorOfInode(dir))
    requires Readable(DirectBlocks(ino), contents) && fs.Contains(c.view, contents)
    requires var all := Listing(DirectBlocks(ino), contents);
      Names(fs, c.view, c.devices, all) && Roomy(c.pool, fs, contents, all)
    modifies c
    ensures c.Valid() && c.view == old(c.view)
    ensures var all, name, budget := Listing(DirectBlocks(ino), contents), filename[..len], SizeLow(ino);
      var searched := len != 0 && Permissions(ino) != 0;
      && (if searched then Answers(r, fs, c.view, all, budget, name) else r.None?)
      && (OnePinMore(old(c.pool), c.pool) <==> searched && RunsOut(all, budget, name))
      && (SamePins(old(c.pool), c.pool) <==> !(searched && RunsOut(all, budget, name)))
  {
    ghost var pool0, all := c.pool, Listing(DirectBlocks(ino), contents);
    var inode := ReadDirectory(c, fs, dir, ino);
    if len == 0 || Permissions(inode) == 0 {
      PinsDiffer(pool0, c.pool);
      return None;
    }
    var walk, found := WalkDirectory(c, fs, DirectBlocks(inode), filename, len, SizeLow(inode), contents, pool0);
    PinsDiffer(pool0, c.pool);
    EndedMeans(walk, found, fs, c.view, all, SizeLow(inode), filename[..len]);
    r := if walk.Found? then Some(Target(walk.inode, SizeLow(found), Permissions(found))) else None;
  }

  lemma SameBytes(view: Disk, dev: int, pos: int, a: seq<Byte>, b: seq<Byte>)
    requires |a| == |b| && Holds(view, dev, pos, a, |a|) && Holds(view, dev, pos, b, |b|)
    ensures a == b
  {
    forall k | 0 <= k < |a| ensures a[k] == b[k] {
      assert ReadsAs(view, dev, pos + k, a[k]) && ReadsAs(view, dev, pos + k, b[k]);
    }
  }
}
