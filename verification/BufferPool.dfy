/** The block buffer cache: hash chains, a free list, pin counts and write-back.

    The buffers are numbered, and a pointer to a buffer is its number.  The cache is modelled as
    intended, with four named repairs:
      B1  eviction unlinks the victim from the chain it was in;
      B2  the last put_block brings the pin count to 0;
      B3  taking a buffer off the free list, and putting one on an empty free list, maintains both ends;
      B4  fresh buffers are zeroed: device 0 ("nodev"), no pins, not dirty. */
module BufferPool {

  const BLOCK_SIZE := 512
  const CHAINS := 256
  const MAX_BUFFER := 100
  const NODEV := 0
  const CLASS_DIR := 1

  type Byte = b: int | 0 <= b < 256
  type Sector = s: seq<Byte> | |s| == BLOCK_SIZE witness seq(BLOCK_SIZE, _ => 0)

  function Minor(dev: int): int { dev % 256 }

  /** Where a block is on disk: find_bdev looks a device up by its minor number only. */
  datatype Place = Place(minor: int, block: int)

  function PlaceOf(dev: int, block: int): Place { Place(Minor(dev), block) }

  type Disk = map<Place, Sector>

  datatype Buffer = Buffer(flags: int, blockNum: int, dirty: bool, dev: int, count: nat, buff: Sector) {
    function Spot(): Place { PlaceOf(dev, blockNum) }
    predicate Holds(p: Place) { dev != NODEV && Spot() == p }
  }

  function Hash(block: int): (c: int)
    ensures 0 <= c < CHAINS
  {
    block % CHAINS
  }

  /** The first buffer at or after `k` that holds `p`, or `|pool|`. */
  function Holder(pool: seq<Buffer>, p: Place, k: nat := 0): (h: nat)
    requires k <= |pool|
    ensures k <= h <= |pool|
    ensures h < |pool| ==> pool[h].Holds(p)
    ensures forall j {:trigger pool[j].Holds(p)} :: k <= j < h ==> !pool[j].Holds(p)
    decreases |pool| - k
  {
    if k == |pool| || pool[k].Holds(p) then k else Holder(pool, p, k + 1)
  }

  /** What a reader who goes through the cache finds at `p`. */
  function Cached(pool: seq<Buffer>, disk: Disk, p: Place): Sector
    requires p in disk
  {
    var h := Holder(pool, p);
    if h < |pool| then pool[h].buff else disk[p]
  }

  /** `view` is the disk overlaid with the buffers: the plain map from places to bytes that the two
      together stand for. */
  ghost predicate StandsFor(pool: seq<Buffer>, disk: Disk, view: Disk) {
    && view.Keys == disk.Keys
    && forall p {:trigger Cached(pool, disk, p)} :: p in disk ==> view[p] == Cached(pool, disk, p)
  }

  /** An unlabelled buffer is clean; what a labelled one holds is on disk, unless it is dirty. */
  ghost predicate Sound(b: Buffer, disk: Disk) {
    if b.dev == NODEV then !b.dirty
    else b.Spot() in disk && (b.dirty || disk[b.Spot()] == b.buff)
  }

  /** The device numbers in use: device 0 is none of them, and no two have the same minor number. */
  ghost predicate Distinguished(devices: set<int>) {
    NODEV !in devices && forall d, e :: d in devices && e in devices && Minor(d) == Minor(e) ==> d == e
  }

  ghost predicate Labelled(pool: seq<Buffer>, devices: set<int>) {
    forall b {:trigger pool[b]} :: 0 <= b < |pool| ==> pool[b].dev == NODEV || pool[b].dev in devices
  }

  predicate Clash(a: Buffer, b: Buffer) {
    a.dev != NODEV && b.Holds(a.Spot())
  }

  /** Every buffer is sound, and no two hold the same place. */
  ghost predicate Coherent(pool: seq<Buffer>, disk: Disk) {
    && (forall b {:trigger Sound(pool[b], disk)} :: 0 <= b < |pool| ==> Sound(pool[b], disk))
    && (forall a, b {:trigger Clash(pool[a], pool[b])} ::
        0 <= a < |pool| && 0 <= b < |pool| && a != b ==> !Clash(pool[a], pool[b]))
  }

  lemma HolderIs(pool: seq<Buffer>, disk: Disk, b: nat)
    requires Coherent(pool, disk) && b < |pool| && pool[b].dev != NODEV
    ensures Holder(pool, pool[b].Spot()) == b
    ensures pool[b].Spot() in disk && Cached(pool, disk, pool[b].Spot()) == pool[b].buff
  {
    var h := Holder(pool, pool[b].Spot());
    assert pool[b].Holds(pool[b].Spot());
    if h != b { assert Clash(pool[b], pool[h]); }
    assert Sound(pool[b], disk);
  }

  /** Buffer `b` after its bytes have been written to the disk. */
  function WrittenBack(disk: Disk, b: Buffer): Disk {
    if b.dirty then disk[b.Spot() := b.buff] else disk
  }

  /** `pool'` is `pool` but for the pins, the bytes and the dirty mark of buffer `b`. */
  ghost predicate SameLabels(pool: seq<Buffer>, pool': seq<Buffer>, b: nat) {
    && |pool| == |pool'| && b < |pool|
    && (forall a :: 0 <= a < |pool| && a != b ==> pool[a] == pool'[a])
    && pool[b].dev == pool'[b].dev && pool[b].blockNum == pool'[b].blockNum
  }

  lemma HolderSame(pool: seq<Buffer>, pool': seq<Buffer>, b: nat, p: Place)
    requires SameLabels(pool, pool', b)
    ensures Holder(pool, p) == Holder(pool', p)
  {
    var h, h' := Holder(pool, p), Holder(pool', p);
    if h < |pool| { assert pool'[h].Holds(p); }
    if h' < |pool| { assert pool[h'].Holds(p); }
  }

  lemma StaysCoherent(pool: seq<Buffer>, disk: Disk, pool': seq<Buffer>, disk': Disk, b: nat)
    requires Coherent(pool, disk) && SameLabels(pool, pool', b) && disk.Keys <= disk'.Keys
    requires forall p <- disk :: !pool[b].Holds(p) ==> disk'[p] == disk[p]
    requires Sound(pool'[b], disk')
    ensures Coherent(pool', disk')
  {
    forall a | 0 <= a < |pool'| ensures Sound(pool'[a], disk') {
      if a != b {
        assert Sound(pool[a], disk) && !Clash(pool[a], pool[b]);
      }
    }
    forall a, c | 0 <= a < |pool'| && 0 <= c < |pool'| && a != c ensures !Clash(pool'[a], pool'[c]) {
      assert !Clash(pool[a], pool[c]);
    }
  }

  lemma CachedAs(pool: seq<Buffer>, disk: Disk, pool': seq<Buffer>, disk': Disk, b: nat, p: Place)
    requires Coherent(pool, disk) && SameLabels(pool, pool', b) && p in disk && p in disk'
    requires !pool[b].Holds(p) ==> disk'[p] == disk[p]
    ensures Cached(pool', disk', p) == if pool[b].Holds(p) then pool'[b].buff else Cached(pool, disk, p)
  {
    HolderSame(pool, pool', b, p);
    if pool[b].Holds(p) { HolderIs(pool, disk, b); }
  }

  lemma StillStandsFor(pool: seq<Buffer>, disk: Disk, view: Disk, pool': seq<Buffer>, disk': Disk, b: nat)
    requires StandsFor(pool, disk, view)
    requires Coherent(pool, disk) && SameLabels(pool, pool', b) && disk.Keys == disk'.Keys
    requires forall p <- disk :: !pool[b].Holds(p) ==> disk'[p] == disk[p]
    requires pool'[b].buff == pool[b].buff
    ensures StandsFor(pool', disk', view)
  {
    forall p | p in disk' ensures view[p] == Cached(pool', disk', p) {
      CachedAs(pool, disk, pool', disk', b, p);
      if pool[b].Holds(p) { HolderIs(pool, disk, b); }
    }
  }

  lemma WriteBackKeeps(pool: seq<Buffer>, disk: Disk, view: Disk, b: nat)
    requires Coherent(pool, disk) && StandsFor(pool, disk, view) && b < |pool|
    ensures var pool' := pool[b := pool[b].(dirty := false)]; var disk' := WrittenBack(disk, pool[b]);
      Coherent(pool', disk') && StandsFor(pool', disk', view)
  {
    var pool', disk' := pool[b := pool[b].(dirty := false)], WrittenBack(disk, pool[b]);
    assert Sound(pool[b], disk);
    StaysCoherent(pool, disk, pool', disk', b);
    StillStandsFor(pool, disk, view, pool', disk', b);
  }

  /** Buffer `b` pinned once more, under a new label, with the bytes read from there. */
  function Relabelled(b: Buffer, dev: int, block: int, bytes: Sector): Buffer {
    b.(count := b.count + 1, blockNum := block, dev := dev, buff := bytes)
  }

  /** Giving a clean buffer a new label, and the bytes there, loses nothing: what it held is on disk. */
  lemma RelabelKeeps(pool: seq<Buffer>, disk: Disk, view: Disk, b: nat, dev: int, block: int)
    requires Coherent(pool, disk) && StandsFor(pool, disk, view) && b < |pool| && !pool[b].dirty
    requires dev != NODEV && PlaceOf(dev, block) in disk && Holder(pool, PlaceOf(dev, block)) == |pool|
    ensures var pool' := pool[b := Relabelled(pool[b], dev, block, disk[PlaceOf(dev, block)])];
      Coherent(pool', disk) && StandsFor(pool', disk, view)
  {
    var pool' := pool[b := Relabelled(pool[b], dev, block, disk[PlaceOf(dev, block)])];
    forall a | 0 <= a < |pool'| ensures Sound(pool'[a], disk) {
      assert Sound(pool[a], disk);
    }
    forall a, c | 0 <= a < |pool'| && 0 <= c < |pool'| && a != c ensures !Clash(pool'[a], pool'[c]) {
      assert !Clash(pool[a], pool[c]);
      assert !pool[a].Holds(PlaceOf(dev, block)) && !pool[c].Holds(PlaceOf(dev, block));
    }
    forall p | p in disk ensures view[p] == Cached(pool', disk, p) {
      RelabelCached(pool, disk, b, pool', p);
    }
  }

  lemma RelabelCached(pool: seq<Buffer>, disk: Disk, b: nat, pool': seq<Buffer>, p: Place)
    requires Coherent(pool, disk) && Coherent(pool', disk) && b < |pool| == |pool'|
    requires forall a :: 0 <= a < |pool| && a != b ==> pool[a] == pool'[a]
    requires !pool[b].dirty && pool'[b].dev != NODEV && pool'[b].Spot() in disk && pool'[b].buff == disk[pool'[b].Spot()]
    requires Holder(pool, pool'[b].Spot()) == |pool| && p in disk
    ensures Cached(pool', disk, p) == Cached(pool, disk, p)
  {
    var h, h' := Holder(pool, p), Holder(pool', p);
    if h == b {
      assert Sound(pool[b], disk);
      forall a | 0 <= a < |pool| && a != b ensures !pool'[a].Holds(p) { assert !Clash(pool[b], pool[a]); }
    } else if h < |pool| {
      assert pool'[h].Holds(p);
      HolderIs(pool', disk, h);
    } else {
      forall a | 0 <= a < |pool| && a != b ensures !pool'[a].Holds(p) { assert !pool[a].Holds(p); }
    }
  }

  /** Pin counts are no part of what the cache holds. */
  lemma CountKeeps(pool: seq<Buffer>, disk: Disk, view: Disk, b: nat, count: nat)
    requires Coherent(pool, disk) && StandsFor(pool, disk, view) && b < |pool|
    ensures var pool' := pool[b := pool[b].(count := count)];
      Coherent(pool', disk) && StandsFor(pool', disk, view)
  {
    var pool' := pool[b := pool[b].(count := count)];
    assert Sound(pool[b], disk);
    StaysCoherent(pool, disk, pool', disk, b);
    StillStandsFor(pool, disk, view, pool', disk, b);
  }

  /** Changing the bytes of a buffer marked dirty changes exactly the block it holds. */
  lemma ModifyKeeps(pool: seq<Buffer>, disk: Disk, view: Disk, b: nat, bytes: Sector)
    requires Coherent(pool, disk) && StandsFor(pool, disk, view) && b < |pool| && pool[b].dev != NODEV
    ensures var pool' := pool[b := pool[b].(dirty := true, buff := bytes)];
      Coherent(pool', disk) && StandsFor(pool', disk, view[pool[b].Spot() := bytes])
  {
    var pool' := pool[b := pool[b].(dirty := true, buff := bytes)];
    assert Sound(pool[b], disk);
    StaysCoherent(pool, disk, pool', disk, b);
    forall p | p in disk ensures view[pool[b].Spot() := bytes][p] == Cached(pool', disk, p) {
      CachedAs(pool, disk, pool', disk, b, p);
    }
  }
}
