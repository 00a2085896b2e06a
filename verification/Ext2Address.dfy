/** Where an ext2 inode lies on its device: the address macros, and the two functions that use them. */
module Ext2Address {
  import opened Arithmetic
  import opened Memory
  import opened Bits
  import opened BufferPool
  import opened BufferCache
  import opened BlockDevice

  const INODE_BYTES := 128  // the size of the inode structure that the kernel copies
  const SIZE_LOW := 4       // the offset of its size field

  /** The figures of a filesystem, from its superblock. */
  datatype Geometry = Geometry(blockSize: nat, inodeSize: nat, inodesPerGroup: nat) {

    /** The block size is 1024 shifted left; the inode size is a power of two from 128 to the block size. */
    ghost predicate Valid() {
      && inodesPerGroup > 0
      && (exists k: nat :: blockSize == 1024 * Pow2(k))
      && (exists j: nat :: inodeSize == INODE_BYTES * Pow2(j))
      && inodeSize <= blockSize
    }

    /** What that makes of them: blocks hold a whole number of inodes, and of sectors. */
    predicate Regular() {
      && inodesPerGroup > 0 && inodeSize > 0 && blockSize >= 1024 && blockSize % BLOCK_SIZE == 0
      && InodesPerBlock() > 0 && InodesPerBlock() * inodeSize == blockSize
      && (inodeSize == 128 || inodeSize == 256 || inodeSize % BLOCK_SIZE == 0)
    }

    function InodesPerBlock(): nat
      requires inodeSize > 0
    {
      blockSize / inodeSize
    }

    // The macros, as they expand.

    function BgOfInode(inode: nat): int
      requires inodesPerGroup > 0
    {
      U32(inode - 1) / inodesPerGroup
    }

    function InodeIndex(inode: nat): (i: nat)
      requires inodesPerGroup > 0
    {
      U32(inode - 1) % inodesPerGroup
    }

    function BlockOfInode(index: nat): nat
      requires blockSize > 0
    {
      U32(index * inodeSize) / blockSize
    }

    function AddrOfBlock(block: nat): nat {
      U32((blockSize / BLOCK_SIZE) * block)
    }

    /** ADDR_OF_BLOCK(table + block) leaves its argument unparenthesised: only `table` is multiplied. */
    function RealInodeBlock(inode: nat, table: nat): nat
      requires inodesPerGroup > 0 && blockSize > 0 && inodeSize > 0 && InodesPerBlock() > 0
    {
      U32((blockSize / BLOCK_SIZE) * table + BlockOfInode(InodeIndex(inode))
          + inodeSize * (InodeIndex(inode) % InodesPerBlock()) / BLOCK_SIZE)
    }

    function InodeOffset(inode: nat): nat
      requires inodesPerGroup > 0 && inodeSize > 0 && InodesPerBlock() > 0
    {
      inodeSize * (InodeIndex(inode) % InodesPerBlock()) % BLOCK_SIZE
    }

    /** The sector that read_inode asks for. */
    function InodeSector(inode: nat, table: nat): nat
      requires inodesPerGroup > 0 && blockSize > 0 && inodeSize > 0 && InodesPerBlock() > 0
    {
      U32(AddrOfBlock(table + BlockOfInode(InodeIndex(inode)))
          + inodeSize * (InodeIndex(inode) % InodesPerBlock()) / BLOCK_SIZE)
    }

    /** Where the inode belongs: at its index in the table of its group. */
    function InodePosition(inode: nat, table: nat): nat
      requires inodesPerGroup > 0
    {
      table * blockSize + InodeIndex(inode) * inodeSize
    }

    /** The table ends before the 2^32nd byte of the table and the 2^32nd sector of the device. */
    predicate Fits(inode: nat, table: nat)
      requires inodesPerGroup > 0
    {
      InodeIndex(inode) * inodeSize < WORD && InodePosition(inode, table) / BLOCK_SIZE < WORD
    }
  }

  // ----- Powers of two ---------------------------------------------------------------------------------

  lemma {:induction false} PowersDivide(j: nat, k: nat)
    requires Pow2(j) <= Pow2(k)
    ensures j <= k && Pow2(k) == Pow2(k - j) * Pow2(j)
    decreases k
  {
    if j > k {
      PowersGrow(k, j);
    } else if j > 0 {
      PowersDivide(j - 1, k - 1);
    }
  }

  lemma {:induction false} PowersGrow(k: nat, j: nat)
    requires k < j
    ensures Pow2(k) < Pow2(j)
    decreases j
  {
    if k < j - 1 { PowersGrow(k, j - 1); }
  }

  lemma BlockHoldsInodes(blockSize: nat, inodeSize: nat, k: nat, j: nat)
    requires blockSize == 1024 * Pow2(k) && inodeSize == INODE_BYTES * Pow2(j) && inodeSize <= blockSize
    ensures blockSize / inodeSize > 0 && (blockSize / inodeSize) * inodeSize == blockSize
  {
    assert Pow2(k + 3) == 2 * Pow2(k + 2) == 4 * Pow2(k + 1) == 8 * Pow2(k);
    PowersDivide(j, k + 3);
    var d := Pow2(k + 3 - j);
    Associate(d, Pow2(j), INODE_BYTES);
    assert blockSize == d * inodeSize + 0;
    DivModUnique(d, 0, inodeSize);
  }

  lemma InodeFitsSectors(inodeSize: nat, j: nat)
    requires inodeSize == INODE_BYTES * Pow2(j)
    ensures inodeSize == 128 || inodeSize == 256 || inodeSize % BLOCK_SIZE == 0
  {
    if j >= 2 { assert Pow2(j) == 2 * Pow2(j - 1) == 4 * Pow2(j - 2); }
  }

  /** An inode size is 128, 256 or a multiple of 512, and divides the block size. */
  lemma InodeSizes(g: Geometry)
    requires g.Valid()
    ensures g.Regular()
  {
    var k: nat :| g.blockSize == 1024 * Pow2(k);
    var j: nat :| g.inodeSize == INODE_BYTES * Pow2(j);
    InodeFitsSectors(g.inodeSize, j);
    BlockHoldsInodes(g.blockSize, g.inodeSize, k, j);
  }

  // ----- Locating an inode ---------------------------------------------------------------------------------

  lemma PositionSplits(table: nat, index: nat, n: nat, s: nat, sectors: nat)
    requires n > 0 && s > 0 && n * s == sectors * BLOCK_SIZE
    ensures (index * s) / (sectors * BLOCK_SIZE) == index / n && 0 <= s * (index % n)
    ensures table * (sectors * BLOCK_SIZE) + index * s == (table + index / n) * (sectors * BLOCK_SIZE) + s * (index % n)
    ensures (table * (sectors * BLOCK_SIZE) + index * s) / BLOCK_SIZE == sectors * (table + index / n) + s * (index % n) / BLOCK_SIZE
  {
    ItemInBlock(index, n, s);
    Distribute(table, index / n, sectors * BLOCK_SIZE);
    SectorOf(sectors, table + index / n, s * (index % n));
  }

  lemma BlockOfInodeIs(g: Geometry, inode: nat, table: nat)
    requires g.Regular() && g.Fits(inode, table)
    ensures g.BlockOfInode(g.InodeIndex(inode)) == g.InodeIndex(inode) / g.InodesPerBlock()
  {
    ItemInBlock(g.InodeIndex(inode), g.InodesPerBlock(), g.inodeSize);
  }

  lemma AddrOfBlockIs(g: Geometry, sectors: nat, block: nat)
    requires g.blockSize == sectors * BLOCK_SIZE && sectors * block < WORD
    ensures g.AddrOfBlock(block) == sectors * block
  {
    MulMonotone(0, block, sectors);
  }

  /** Nothing wraps: the sector of an inode, and where it is, in plain arithmetic. */
  lemma InodeSectorIs(g: Geometry, inode: nat, table: nat)
    requires g.Regular() && g.Fits(inode, table)
    ensures var index := g.InodeIndex(inode); var block := g.BlockOfInode(index);
      var within := g.inodeSize * (index % g.InodesPerBlock()); var sectors := g.blockSize / BLOCK_SIZE;
      && g.InodeSector(inode, table) == sectors * (table + block) + within / BLOCK_SIZE < WORD
      && g.InodePosition(inode, table) == (table + block) * (sectors * BLOCK_SIZE) + within
  {
    var index, n := g.InodeIndex(inode), g.InodesPerBlock();
    var sectors := g.blockSize / BLOCK_SIZE;
    PositionSplits(table, index, n, g.inodeSize, sectors);
    BlockOfInodeIs(g, inode, table);
    AddrOfBlockIs(g, sectors, table + index / n);
  }

  /** The macros put an inode at its place in the table of its group, byte for byte. */
  lemma InodeLocated(g: Geometry, inode: nat, table: nat)
    requires g.Regular() && g.Fits(inode, table)
    ensures g.InodeSector(inode, table) * BLOCK_SIZE + g.InodeOffset(inode) == g.InodePosition(inode, table)
  {
    InodeSectorIs(g, inode, table);
    var index := g.InodeIndex(inode);
    SectorOf(g.blockSize / BLOCK_SIZE, table + g.BlockOfInode(index), g.inodeSize * (index % g.InodesPerBlock()));
  }

  /** A position `within` bytes into block `b`, in sectors. */
  lemma SectorOf(sectors: nat, b: nat, within: nat)
    ensures (sectors * b + within / BLOCK_SIZE) * BLOCK_SIZE + within % BLOCK_SIZE == b * (sectors * BLOCK_SIZE) + within
    ensures (b * (sectors * BLOCK_SIZE) + within) / BLOCK_SIZE == sectors * b + within / BLOCK_SIZE
  {
    assert b * (sectors * BLOCK_SIZE) == (sectors * b) * BLOCK_SIZE;
    DivModUnique(sectors * b + within / BLOCK_SIZE, within % BLOCK_SIZE, BLOCK_SIZE);
  }

  /** The 128 bytes copied never leave their sector. */
  lemma InodeStaysInSector(g: Geometry, inode: nat)
    requires g.Regular()
    ensures g.InodeOffset(inode) + INODE_BYTES <= BLOCK_SIZE
  {
    OffsetOf(g.inodeSize, g.InodeIndex(inode) % g.InodesPerBlock());
  }

  /** The offset of the `r`-th inode of a block in its sector. */
  lemma OffsetOf(inodeSize: nat, r: nat)
    requires inodeSize == 128 || inodeSize == 256 || inodeSize % BLOCK_SIZE == 0
    ensures 0 <= inodeSize * r % BLOCK_SIZE <= BLOCK_SIZE - INODE_BYTES
  {
    if inodeSize == 128 {
      DivModUnique(r / 4, (r % 4) * 128, BLOCK_SIZE);
    } else if inodeSize == 256 {
      DivModUnique(r / 2, (r % 2) * 256, BLOCK_SIZE);
    } else {
      var q := inodeSize / BLOCK_SIZE;
      Associate(r, q, BLOCK_SIZE);
      DivModUnique(r * q, 0, BLOCK_SIZE);
      assert inodeSize * r == (r * q) * BLOCK_SIZE + 0;
    }
  }

  /** Different inodes of a group never overlap. */
  lemma InodesApart(g: Geometry, a: nat, b: nat, table: nat)
    requires g.Regular() && g.inodeSize >= INODE_BYTES && g.InodeIndex(a) < g.InodeIndex(b)
    ensures g.InodePosition(a, table) + INODE_BYTES <= g.InodePosition(b, table)
  {
    MulMonotone(g.InodeIndex(a) + 1, g.InodeIndex(b), g.inodeSize);
    Distribute(g.InodeIndex(a), 1, g.inodeSize);
  }

  lemma LosesBlocks(sectors: nat, table: nat, block: nat, w: nat)
    requires sectors >= 2 && sectors * (table + block) + w < WORD
    ensures U32(sectors * table + block + w) == sectors * (table + block) + w <==> block == 0
  {
    Distribute(table, block, sectors);
    MulMonotone(2, sectors, block);
    MulMonotone(0, table, sectors);
  }

  /** The macro that change_file_size uses finds the inode's sector exactly when the inode lies in the first
      block of its table. */
  lemma RealInodeBlockExact(g: Geometry, inode: nat, table: nat)
    requires g.Regular() && g.Fits(inode, table)
    ensures g.RealInodeBlock(inode, table) == g.InodeSector(inode, table)
      <==> g.BlockOfInode(g.InodeIndex(inode)) == 0
  {
    InodeSectorIs(g, inode, table);
    var index := g.InodeIndex(inode);
    LosesBlocks(g.blockSize / BLOCK_SIZE, table, g.BlockOfInode(index),
                g.inodeSize * (index % g.InodesPerBlock()) / BLOCK_SIZE);
  }

  lemma NoWrap(sectors: nat, table: nat, block: nat, w: nat)
    requires sectors >= 1 && sectors * (table + block) + w < WORD
    ensures U32(sectors * table + block + w) == sectors * table + block + w
  {
    Distribute(table, block, sectors);
    MulMonotone(1, sectors, block);
    MulMonotone(0, table, sectors);
  }

  lemma RealInodeBlockIs(g: Geometry, inode: nat, table: nat)
    requires g.Regular() && g.Fits(inode, table)
    ensures var index := g.InodeIndex(inode);
      g.RealInodeBlock(inode, table) == g.blockSize / BLOCK_SIZE * table + g.BlockOfInode(index)
                                        + g.inodeSize * (index % g.InodesPerBlock()) / BLOCK_SIZE
  {
    InodeSectorIs(g, inode, table);
    var index := g.InodeIndex(inode);
    NoWrap(g.blockSize / BLOCK_SIZE, table, g.BlockOfInode(index), g.inodeSize * (index % g.InodesPerBlock()) / BLOCK_SIZE);
  }

  lemma MacroBytes(sectors: nat, table: nat, block: nat, within: nat)
    ensures (sectors * table + block + within / 512) * 512 + within % 512 == table * (sectors * 512) + block * 512 + within
  {
    SectorOf(sectors, table, within);
  }

  /** Where the macro of change_file_size puts inode `k` of a group: each block of the table before it counts for one
      sector only. */
  lemma MacroPlace(g: Geometry, group: nat, k: nat, table: nat)
    requires g.Regular() && k < g.inodesPerGroup && group * g.inodesPerGroup + 1 + k <= 0xFFFF_FFFF
    requires g.Fits(group * g.inodesPerGroup + 1 + k, table)
    ensures var inode := group * g.inodesPerGroup + 1 + k; var n := g.blockSize / g.inodeSize;
      g.RealInodeBlock(inode, table) * 512 + g.InodeOffset(inode) == table * g.blockSize + k / n * 512 + g.inodeSize * (k % n)
  {
    var inode, n := group * g.inodesPerGroup + 1 + k, g.InodesPerBlock();
    DivModUnique(group, k, g.inodesPerGroup);
    RealInodeBlockIs(g, inode, table);
    BlockOfInodeIs(g, inode, table);
    MulMonotone(0, k % n, g.inodeSize);
    MacroBytes(g.blockSize / BLOCK_SIZE, table, k / n, g.inodeSize * (k % n));
  }

  /** The ninth inode of a table of 128-byte inodes in 1 KiB blocks lies in the table's second block, sector 12
      of the device if the table starts in block 5; the macro finds sector 11. */
  lemma NinthInodeIsMissed()
    ensures var g := Geometry(1024, INODE_BYTES, 16);
      && g.Valid() && g.Fits(9, 5)
      && g.BlockOfInode(g.InodeIndex(9)) == 1 && g.InodeSector(9, 5) == 12 && g.RealInodeBlock(9, 5) == 11
  {
    assert 1024 == 1024 * Pow2(0) && INODE_BYTES == INODE_BYTES * Pow2(0);
  }

  /** For the geometries that ext2 has, whose sizes are powers of two: an inode lies where the macros say, with its
      128 bytes in one sector; inodes of a group never overlap; and the macro of change_file_size is right exactly
      for inodes in the first block of their table. */
  lemma PowerOfTwoGeometry(g: Geometry, inode: nat, other: nat, table: nat)
    requires g.Valid() && g.Fits(inode, table)
    ensures g.Regular()
    ensures g.InodeSector(inode, table) * BLOCK_SIZE + g.InodeOffset(inode) == g.InodePosition(inode, table)
    ensures g.InodeOffset(inode) + INODE_BYTES <= BLOCK_SIZE
    ensures g.InodeIndex(inode) < g.InodeIndex(other) ==> g.InodePosition(inode, table) + INODE_BYTES <= g.InodePosition(other, table)
    ensures g.RealInodeBlock(inode, table) == g.InodeSector(inode, table) <==> g.BlockOfInode(g.InodeIndex(inode)) == 0
  {
    InodeSizes(g);
    InodeLocated(g, inode, table);
    InodeStaysInSector(g, inode);
    if g.InodeIndex(inode) < g.InodeIndex(other) { InodesApart(g, inode, other, table); }
    RealInodeBlockExact(g, inode, table);
  }

  /** Inodes are numbered from 1, group after group: inode `k` of a group, from 0, is at the `k`-th place of its table. */
  lemma InodesAreNumbered(g: Geometry, group: nat, k: nat, table: nat)
    requires k < g.inodesPerGroup && group * g.inodesPerGroup + 1 + k <= 0xFFFF_FFFF
    ensures var inode := group * g.inodesPerGroup + 1 + k;
      g.BgOfInode(inode) == group && g.InodePosition(inode, table) == table * g.blockSize + k * g.inodeSize
  {
    DivModUnique(group, k, g.inodesPerGroup);
  }

  /** The place of an inode in numbers. */
  lemma InodePlace(g: Geometry, inode: nat, table: nat)
    requires g.inodesPerGroup > 0 && 0 < inode <= 0xFFFF_FFFF
    ensures g.InodePosition(inode, table) == table * g.blockSize + (inode - 1) % g.inodesPerGroup * g.inodeSize
    ensures g.BgOfInode(inode) == (inode - 1) / g.inodesPerGroup
  {
  }

  // ----- Reading an inode ------------------------------------------------------------------------

  /** read_inode: the 128 bytes of the inode, and the buffer they are in, left pinned. */
  method ReadInode(c: Cache, g: Geometry, inode: nat, table: nat, dev: int) returns (dest: seq<Byte>, bh: int)
    requires c.Valid() && dev in c.devices && g.Regular() && g.Fits(inode, table)
    requires PlaceOf(dev, g.InodePosition(inode, table) / BLOCK_SIZE) in c.view
    requires RoomFor(c.pool, dev, g.InodePosition(inode, table) / BLOCK_SIZE)
    modifies c
    ensures c.Valid() && c.view == old(c.view)
    ensures Got(old(c.pool), c.pool, bh, dev, g.InodePosition(inode, table) / BLOCK_SIZE)
    ensures |dest| == INODE_BYTES && Holds(c.view, dev, g.InodePosition(inode, table), dest, INODE_BYTES)
    ensures 0 < inode <= 0xFFFF_FFFF ==>
      Holds(c.view, dev, table * g.blockSize + (inode - 1) % g.inodesPerGroup * g.inodeSize, dest, 128)
  {
    if 0 < inode <= 0xFFFF_FFFF { InodePlace(g, inode, table); }
    var index := g.InodeIndex(inode);
    var blockOfInode := table + g.BlockOfInode(index);
    var sector := U32(g.AddrOfBlock(blockOfInode) + g.inodeSize * (index % g.InodesPerBlock()) / BLOCK_SIZE);
    InodeLocated(g, inode, table);
    InodeStaysInSector(g, inode);
    Locate(g.InodePosition(inode, table), sector, g.InodeOffset(inode));
    bh := c.GetBlock(sector, dev);
    dest := CopyInode(c.pool[bh].buff, g.InodeOffset(inode));
    SliceHolds(c.view, dev, sector, g.InodeOffset(inode), dest, g.InodePosition(inode, table));
  }

  /** The copying loop of read_inode. */
  method CopyInode(buff: Sector, offset: nat) returns (dest: seq<Byte>)
    requires offset + INODE_BYTES <= BLOCK_SIZE
    ensures dest == buff[offset..offset + INODE_BYTES]
  {
    dest := [];
    for i := 0 to INODE_BYTES
      invariant dest == buff[offset..offset + i]
    {
      dest := dest + [buff[i + offset]];
    }
  }

  lemma SliceHolds(view: Disk, dev: int, sector: nat, offset: nat, dest: seq<Byte>, pos: nat)
    requires PlaceOf(dev, sector) in view && offset + INODE_BYTES <= BLOCK_SIZE && pos == sector * BLOCK_SIZE + offset
    requires dest == view[PlaceOf(dev, sector)][offset..offset + INODE_BYTES]
    ensures Holds(view, dev, pos, dest, INODE_BYTES)
  {
    forall k | 0 <= k < INODE_BYTES ensures ReadsAs(view, dev, pos + k, dest[k]) {
      Locate(pos + k, sector, offset + k);
    }
  }

  // ----- The fields of an inode ------------------------------------------------------------------------------

  /** A 32-bit value in memory, low byte first. */
  function LittleEndian(v: nat): (s: seq<Byte>)
    ensures |s| == 4
  {
    [v % 256, (v / 256) % 256, (v / 65536) % 256, (v / 16777216) % 256]
  }

  function Field(bytes: seq<Byte>, at: nat, width: nat): nat
    requires at + width <= |bytes|
    decreases width
  {
    if width == 0 then 0 else bytes[at] + 256 * Field(bytes, at + 1, width - 1)
  }

  function Permissions(inode: seq<Byte>): nat
    requires |inode| == INODE_BYTES
  {
    Field(inode, 0, 2)
  }

  function SizeLow(inode: seq<Byte>): nat
    requires |inode| == INODE_BYTES
  {
    Field(inode, SIZE_LOW, 4)
  }

  /** The four digits of a 32-bit value to the base 256. */
  lemma Digits(v: nat)
    requires v < WORD
    ensures v == v % 256 + 256 * (v / 256 % 256 + 256 * (v / 65536 % 256 + 256 * (v / 16777216 % 256)))
  {
    var a, b, c := v / 256, v / 65536, v / 16777216;
    assert b == a / 256 && c == b / 256 && c < 256;
  }

  /** A field of four bytes in numbers. */
  lemma FieldOfFour(s: seq<Byte>, at: nat)
    requires at + 4 <= |s|
    ensures Field(s, at, 4) == s[at] as int + 256 * (s[at + 1] as int + 256 * (s[at + 2] as int + 256 * (s[at + 3] as int)))
  {
    assert Field(s, at + 3, 1) == s[at + 3] as int;
    assert Field(s, at + 2, 2) == s[at + 2] as int + 256 * Field(s, at + 3, 1);
    assert Field(s, at + 1, 3) == s[at + 1] as int + 256 * Field(s, at + 2, 2);
  }

  /** Where the fields of an inode are, byte by byte: the type and permissions at 0, the size at 4. */
  lemma InodeFields(inode: seq<Byte>)
    requires |inode| == 128
    ensures Permissions(inode) == inode[0] as int + 256 * (inode[1] as int)
    ensures SizeLow(inode) == inode[4] as int + 256 * (inode[5] as int + 256 * (inode[6] as int + 256 * (inode[7] as int)))
  {
    assert Field(inode, 1, 1) == inode[1] as int;
    FieldOfFour(inode, 4);
  }

  /** Reading a field is the inverse of storing it. */
  lemma StoredIsRead(v: nat)
    requires v < WORD
    ensures Field(LittleEndian(v), 0, 4) == v
  {
    FieldOfFour(LittleEndian(v), 0);
    Digits(v);
  }

  lemma {:induction false} SameField(s: seq<Byte>, a: nat, t: seq<Byte>, b: nat, width: nat)
    requires a + width <= |s| && b + width <= |t|
    requires s[a..a + width] == t[b..b + width]
    ensures Field(s, a, width) == Field(t, b, width)
    decreases width
  {
    if width > 0 {
      assert s[a] == s[a..a + width][0] == t[b..b + width][0] == t[b];
      assert s[a + 1..a + width] == s[a..a + width][1..] == t[b..b + width][1..] == t[b + 1..b + width];
      SameField(s, a + 1, t, b + 1, width - 1);
    }
  }

  // ----- Changing an inode ---------------------------------------------------------------------------------------

  /** change_file_size: the size field is stored where REAL_INODE_BLOCK and INODE_OFFSET put it, which is in
      the inode exactly when that lies in the first block of its table. */
  method ChangeFileSize(c: Cache, g: Geometry, inode: nat, table: nat, size: nat, dev: int)
    requires c.Valid() && dev in c.devices && g.Regular() && g.Fits(inode, table)
    requires RoomFor(c.pool, dev, g.RealInodeBlock(inode, table))
    requires PlaceOf(dev, g.RealInodeBlock(inode, table)) in c.view
    modifies c
    ensures c.Valid() && SamePins(old(c.pool), c.pool)
    ensures var pos := g.RealInodeBlock(inode, table) * BLOCK_SIZE + g.InodeOffset(inode) + SIZE_LOW;
      && Written(old(c.view), c.view, dev, pos, LittleEndian(size), 4)
      && (pos == g.InodePosition(inode, table) + SIZE_LOW <==> g.BlockOfInode(g.InodeIndex(inode)) == 0)
  {
    InodeStaysInSector(g, inode);
    InodeLocated(g, inode, table);
    RealInodeBlockExact(g, inode, table);
    var sector, offset := g.RealInodeBlock(inode, table), g.InodeOffset(inode) + SIZE_LOW;
    ghost var view0 := c.view;
    WriteSector(c, dev, sector, offset, LittleEndian(size), 0, 4);
    WrittenMore(view0, view0, c.view, dev, sector * BLOCK_SIZE + offset, LittleEndian(size), 0, sector, offset, 4);
  }

  /** The bytes from `pos` on, once four bytes have been written at `at`. */
  lemma ReadAfterWrite(view0: Disk, view: Disk, dev: int, at: int, src: seq<Byte>, pos: int, before: seq<Byte>, after: seq<Byte>, k: nat)
    requires |src| == 4 && Written(view0, view, dev, at, src, 4) && 0 <= pos && k < |before| == |after|
    requires Holds(view0, dev, pos, before, |before|) && Holds(view, dev, pos, after, |after|)
    ensures after[k] == if at <= pos + k < at + 4 then src[pos + k - at] else before[k]
  {
    assert ReadsAs(view0, dev, pos + k, before[k]) && ReadsAs(view, dev, pos + k, after[k]);
    var p, i := PlaceOf(dev, (pos + k) / BLOCK_SIZE), (pos + k) % BLOCK_SIZE;
    assert view[p][i] == Expected(view0, dev, at, src, 4, p, i);
  }

  /** Changing the size of a file and reading its inode back: the size read is the new one exactly when the inode
      lies in the first block of its table, or had that size before; no other field has changed. */
  method ChangeThenRead(c: Cache, g: Geometry, inode: nat, table: nat, size: nat, dev: int, ghost before: seq<Byte>)
    returns (after: seq<Byte>)
    requires c.Valid() && dev in c.devices && g.Regular() && g.Fits(inode, table) && size < WORD
    requires RoomFor(c.pool, dev, g.RealInodeBlock(inode, table)) && PlaceOf(dev, g.RealInodeBlock(inode, table)) in c.view
    requires RoomFor(c.pool, dev, g.InodePosition(inode, table) / BLOCK_SIZE)
    requires |before| == INODE_BYTES && Holds(c.view, dev, g.InodePosition(inode, table), before, INODE_BYTES)
    modifies c
    ensures c.Valid() && SamePins(old(c.pool), c.pool) && |after| == INODE_BYTES
    ensures SizeLow(after) == if g.BlockOfInode(g.InodeIndex(inode)) == 0 then size else SizeLow(before)
    ensures forall k :: 0 <= k < 128 && !(4 <= k < 8) ==> after[k] == before[k]
    ensures g.BlockOfInode(g.InodeIndex(inode)) == 0 ==>
      after[4] as int + 256 * (after[5] as int + 256 * (after[6] as int + 256 * (after[7] as int))) == size
  {
    ghost var pool0, view0, pos := c.pool, c.view, g.InodePosition(inode, table);
    assert ReadsAs(view0, dev, pos + 0, before[0]);
    ChangeFileSize(c, g, inode, table, size, dev);
    ghost var pool1, view1 := c.pool, c.view;
    RoomStays(pool0, pool1, dev, pos / BLOCK_SIZE);
    var bh;
    after, bh := ReadInode(c, g, inode, table, dev);
    ghost var pool2 := c.pool;
    c.PutBlock(bh);
    PinsBalance(pool1, pool2, c.pool, bh, dev, pos / BLOCK_SIZE);
    SamePinsOn(pool0, pool1, c.pool);
    SizeAfterChange(view0, view1, g, inode, table, size, dev, before, after);
    InodeFields(after);
  }

  lemma SizeAfterChange(view0: Disk, view: Disk, g: Geometry, inode: nat, table: nat, size: nat, dev: int, before: seq<Byte>, after: seq<Byte>)
    requires g.Regular() && g.Fits(inode, table) && size < WORD && |before| == |after| == INODE_BYTES
    requires Holds(view0, dev, g.InodePosition(inode, table), before, INODE_BYTES)
    requires Holds(view, dev, g.InodePosition(inode, table), after, INODE_BYTES)
    requires Written(view0, view, dev, g.RealInodeBlock(inode, table) * BLOCK_SIZE + g.InodeOffset(inode) + SIZE_LOW, LittleEndian(size), 4)
    ensures SizeLow(after) == if g.BlockOfInode(g.InodeIndex(inode)) == 0 then size else SizeLow(before)
    ensures forall k :: 0 <= k < INODE_BYTES && !(SIZE_LOW <= k < SIZE_LOW + 4) ==> after[k] == before[k]
  {
    InodeStaysInSector(g, inode);
    InodeLocated(g, inode, table);
    RealInodeBlockExact(g, inode, table);
    var pos, sector, stored := g.InodePosition(inode, table), g.InodeSector(inode, table), g.RealInodeBlock(inode, table);
    var src, offset := LittleEndian(size), g.InodeOffset(inode);
    BytesAfterChange(view0, view, sector, stored, offset, src, dev, before, after);
    if stored == sector {
      assert after[SIZE_LOW..SIZE_LOW + 4] == src[0..4];
      SameField(after, SIZE_LOW, src, 0, 4);
      StoredIsRead(size);
    } else {
      assert after[SIZE_LOW..SIZE_LOW + 4] == before[SIZE_LOW..SIZE_LOW + 4];
      SameField(after, SIZE_LOW, before, SIZE_LOW, 4);
    }
  }

  /** A field written at the same offset in another sector does not meet the inode. */
  lemma BytesAfterChange(view0: Disk, view: Disk, sector: nat, stored: nat, offset: nat, src: seq<Byte>, dev: int, before: seq<Byte>, after: seq<Byte>)
    requires offset + INODE_BYTES <= BLOCK_SIZE && |src| == 4 && |before| == |after| == INODE_BYTES
    requires Holds(view0, dev, sector * BLOCK_SIZE + offset, before, INODE_BYTES)
    requires Holds(view, dev, sector * BLOCK_SIZE + offset, after, INODE_BYTES)
    requires Written(view0, view, dev, stored * BLOCK_SIZE + offset + SIZE_LOW, src, 4)
    ensures forall k :: 0 <= k < INODE_BYTES ==>
      after[k] == if stored == sector && SIZE_LOW <= k < SIZE_LOW + 4 then src[k - SIZE_LOW] else before[k]
  {
    var pos, at := sector * BLOCK_SIZE + offset, stored * BLOCK_SIZE + offset + SIZE_LOW;
    forall k | 0 <= k < INODE_BYTES
      ensures after[k] == if stored == sector && SIZE_LOW <= k < SIZE_LOW + 4 then src[k - SIZE_LOW] else before[k]
    {
      ReadAfterWrite(view0, view, dev, at, src, pos, before, after, k);
      assert at <= pos + k < at + 4 ==> stored == sector;
    }
  }
}
