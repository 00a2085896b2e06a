/** The buffer cache proper: get_block and put_block over hash chains and a free list. */
module BufferCache {
  import opened Sequences
  import opened LinkedLists
  import opened BufferPool

  ghost predicate InOwnChain(pool: seq<Buffer>, chains: seq<seq<int>>, b: nat)
    requires b < |pool| && |chains| == CHAINS
  {
    b in chains[Hash(pool[b].blockNum)]
  }

  /** Every buffer but `except` is in the chain of its block number, and in no other. */
  ghost predicate Hashed(pool: seq<Buffer>, chains: seq<seq<int>>, except: int := -1) {
    && |chains| == CHAINS
    && (forall b {:trigger InOwnChain(pool, chains, b)} :: 0 <= b < |pool| && b != except ==> InOwnChain(pool, chains, b))
    && (forall c, b {:trigger b in chains[c]} :: 0 <= c < CHAINS && b in chains[c] ==>
        0 <= b < |pool| && b != except && Hash(pool[b].blockNum) == c)
  }

  ghost predicate ChainsLinked(next: seq<int>, prev: seq<int>, heads: seq<int>, chains: seq<seq<int>>) {
    && |heads| == |chains| == CHAINS
    && forall c {:trigger Linked(next, prev, heads[c], chains[c])} ::
      0 <= c < CHAINS ==> Linked(next, prev, heads[c], chains[c])
  }

  /** The free list holds exactly the buffers without pins, but for `except`. */
  ghost predicate FreeExactly(pool: seq<Buffer>, free: seq<int>, except: int := -1) {
    && (forall b {:trigger b in free} :: 0 <= b < |pool| && b != except ==> (b in free <==> pool[b].count == 0))
    && (forall b <- free :: 0 <= b < |pool| && b != except)
  }

  ghost predicate FreeLinked(nextFree: seq<int>, prevFree: seq<int>, lru: int, mru: int, free: seq<int>) {
    && |nextFree| == |prevFree|
    && Linked(nextFree, prevFree, lru, free) && mru == At(free, |free| - 1)
    && forall b :: 0 <= b < |nextFree| && b !in free ==> nextFree[b] == NULL && prevFree[b] == NULL
  }

  /** Which chain a buffer is in depends on its block number only. */
  lemma HashedUpdate(pool: seq<Buffer>, chains: seq<seq<int>>, except: int, b: nat, v: Buffer)
    requires Hashed(pool, chains, except) && b < |pool| && (b == except || v.blockNum == pool[b].blockNum)
    ensures Hashed(pool[b := v], chains, except)
  {
    var pool' := pool[b := v];
    forall a | 0 <= a < |pool| && a != except ensures InOwnChain(pool', chains, a) {
      assert InOwnChain(pool, chains, a);
    }
  }

  lemma InitLinked(nx: seq<int>, pv: seq<int>, all: seq<int>)
    requires |nx| == |pv| == |all| == MAX_BUFFER
    requires forall j :: 0 <= j < MAX_BUFFER ==>
      all[j] == j && nx[j] == (if j + 1 < MAX_BUFFER then j + 1 else NULL) && pv[j] == j - 1
    ensures Linked(nx, pv, 0, all)
  {
    forall i | 0 <= i < |all| ensures Joined(nx, pv, all, i) {}
  }

  lemma UpdateTwice<T>(s: seq<T>, i: nat, x: T, y: T)
    requires i < |s|
    ensures s[i := x][i := y] == s[i := y]
  {
  }

  lemma FreeWithout(pool: seq<Buffer>, free: seq<int>, k: nat)
    requires FreeExactly(pool, free) && Distinct(free) && k < |free|
    ensures FreeExactly(pool, Without(free, k), free[k])
  {
    WithoutMembers(free, k);
  }

  lemma FreePinned(pool: seq<Buffer>, free: seq<int>, b: nat, v: Buffer)
    requires FreeExactly(pool, free, b) && b < |pool| && v.count > 0
    ensures FreeExactly(pool[b := v], free)
  {
    assert b !in free;
  }

  lemma FreeUpdate(pool: seq<Buffer>, free: seq<int>, b: nat, v: Buffer)
    requires FreeExactly(pool, free, b) && b < |pool|
    ensures FreeExactly(pool[b := v], free, b)
  {
  }

  lemma FreeModified(pool: seq<Buffer>, free: seq<int>, b: nat, bytes: Sector)
    requires FreeExactly(pool, free) && b < |pool|
    ensures FreeExactly(pool[b := pool[b].(dirty := true, buff := bytes)], free)
  {
  }

  lemma FreeRecounted(pool: seq<Buffer>, free: seq<int>, b: int, count: nat)
    requires FreeExactly(pool, free) && 0 <= b < |pool| && pool[b].count > 0 && count > 0
    ensures FreeExactly(pool[b := pool[b].(count := count)], free)
  {
    assert b !in free;
  }

  lemma FreePut(pool: seq<Buffer>, free: seq<int>, free': seq<int>, b: int)
    requires FreeExactly(pool, free) && 0 <= b < |pool| && pool[b].count > 0
    requires free' == [b] + free || free' == free + [b]
    ensures FreeExactly(pool[b := pool[b].(count := 0)], free')
  {
    assert b !in free;
  }

  lemma LabelOfHolder(pool: seq<Buffer>, devices: set<int>, b: nat, dev: int, block: int)
    requires Labelled(pool, devices) && Distinguished(devices) && dev in devices
    requires b < |pool| && pool[b].Holds(PlaceOf(dev, block))
    ensures pool[b].dev == dev && pool[b].blockNum == block
  {
  }

  /** A chain without a buffer labelled (`dev`, `block`) shows that no buffer holds that place. */
  lemma NotInChain(pool: seq<Buffer>, devices: set<int>, chains: seq<seq<int>>, block: int, dev: int)
    requires Labelled(pool, devices) && Distinguished(devices) && Hashed(pool, chains) && dev in devices
    requires forall b <- chains[Hash(block)] :: 0 <= b < |pool| && !(pool[b].blockNum == block && pool[b].dev == dev)
    ensures Holder(pool, PlaceOf(dev, block)) == |pool|
  {
    forall h | 0 <= h < |pool| ensures !pool[h].Holds(PlaceOf(dev, block)) {
      assert InOwnChain(pool, chains, h);
      if pool[h].Holds(PlaceOf(dev, block)) { LabelOfHolder(pool, devices, h, dev, block); }
    }
  }

  // ----- As written ------------------------------------------------------------------------------------

  /** Without repair B1, eviction never leaves the buffers in chains by block number: whatever chain the victim
      was in still leads to it, or it now leads to itself. */
  lemma EvictionAsWritten(pool: seq<Buffer>, next: seq<int>, prev: seq<int>, heads: seq<int>, chains: seq<seq<int>>, b: nat,
                          v: Buffer, next': seq<int>, prev': seq<int>, heads': seq<int>, chains': seq<seq<int>>)
    requires ChainsLinked(next, prev, heads, chains) && Hashed(pool, chains) && b < |pool| == |next| == |prev|
    requires heads' == heads[Hash(v.blockNum) := b] && next' == next[b := heads[Hash(v.blockNum)]]
    ensures !(ChainsLinked(next', prev', heads', chains') && Hashed(pool[b := v], chains'))
  {
    var c := Hash(pool[b].blockNum);
    var l := chains[c];
    assert InOwnChain(pool, chains, b) && Linked(next, prev, heads[c], l);
    var k :| 0 <= k < |l| && l[k] == b;
    if k > 0 {
      assert Joined(next, prev, l, k - 1) && l[k - 1] in l && l[k - 1] != b;
      if ChainsLinked(next', prev', heads', chains') && Hashed(pool[b := v], chains') {
        assert InOwnChain(pool[b := v], chains', l[k - 1]);
        assert Linked(next', prev', heads'[c], chains'[c]);
        SuccessorIsBehind(next', prev', heads'[c], chains'[c], l[k - 1]);
      }
    } else if ChainsLinked(next', prev', heads', chains') && Hashed(pool[b := v], chains') {
      assert Linked(next', prev', heads'[c], chains'[c]);
      HeadIsAlone(next', prev', heads'[c], chains'[c]);
    }
  }

  /** Without repair B3, taking a buffer off the free list leaves it a list exactly when the buffer was at neither end:
      the two ends are not maintained. */
  lemma UnlinkFreeAsWritten(nextFree: seq<int>, prevFree: seq<int>, lru: int, mru: int, free: seq<int>, k: nat)
    requires FreeLinked(nextFree, prevFree, lru, mru, free) && k < |free| && 0 <= free[k] < |nextFree|
    ensures var nf := NextWithout(nextFree, prevFree, free[k])[free[k] := NULL];
      var pf := PrevWithout(nextFree, prevFree, free[k])[free[k] := NULL];
      FreeLinked(nf, pf, lru, mru, Without(free, k)) <==> 0 < k < |free| - 1
  {
    var b, rest := free[k], Without(free, k);
    PointersInRange(nextFree, prevFree, lru, free, k);
    WithoutMembers(free, k);
    if 0 < k < |free| - 1 {
      UnlinkKeeps(nextFree, prevFree, lru, free, k);
      UnlinkedInside(nextFree, prevFree, lru, free, k);
    } else if k == 0 {
      assert lru == b && At(rest, 0) != b;
    } else {
      assert mru == b && At(rest, |rest| - 1) != b;
    }
  }

  lemma UnlinkedInside(nextFree: seq<int>, prevFree: seq<int>, lru: int, free: seq<int>, k: nat)
    requires |nextFree| == |prevFree| && Linked(nextFree, prevFree, lru, free) && 0 < k < |free| - 1 && 0 <= free[k] < |nextFree|
    requires forall b :: 0 <= b < |nextFree| && b !in free ==> nextFree[b] == NULL && prevFree[b] == NULL
    requires Linked(NextWithout(nextFree, prevFree, free[k]), PrevWithout(nextFree, prevFree, free[k]), lru, Without(free, k))
    ensures FreeLinked(NextWithout(nextFree, prevFree, free[k])[free[k] := NULL], PrevWithout(nextFree, prevFree, free[k])[free[k] := NULL],
                       lru, free[|free| - 1], Without(free, k))
  {
    var b, rest := free[k], Without(free, k);
    var nf, pf := NextWithout(nextFree, prevFree, b), PrevWithout(nextFree, prevFree, b);
    WithoutMembers(free, k);
    assert Joined(nextFree, prevFree, free, k) && free[k - 1] in free && free[k + 1] in free;
    LinksElsewhere(nf, pf, lru, rest, nf[b := NULL], pf[b := NULL]);
    assert rest[|rest| - 1] == free[|free| - 1];
  }

  /** The pins and the free list after put_block without repair B2, which counts down to 1 only. */
  function PutAsWritten(pool: seq<Buffer>, free: seq<int>, b: nat): (r: (seq<Buffer>, seq<int>))
    requires b < |pool|
  {
    if pool[b].count > 1 then (pool[b := pool[b].(count := pool[b].count - 1)], free)
    else (pool, if pool[b].flags == CLASS_DIR then free + [b] else [b] + free)
  }

  /** Without repair B2 the free list stays that of the buffers without pins exactly when this was not the last pin. */
  lemma PutAsWrittenExactly(pool: seq<Buffer>, free: seq<int>, b: nat)
    requires FreeExactly(pool, free) && b < |pool| && pool[b].count > 0
    ensures var r := PutAsWritten(pool, free, b); FreeExactly(r.0, r.1) <==> pool[b].count > 1
  {
    var r := PutAsWritten(pool, free, b);
    if pool[b].count > 1 {
      FreeRecounted(pool, free, b, pool[b].count - 1);
    } else {
      assert b in r.1;
    }
  }

  /** A request has pinned buffer `b` for the block, and changed no other.  A buffer that was pinned before
      keeps its label and its bytes. */
  ghost predicate Got(pool: seq<Buffer>, pool': seq<Buffer>, b: int, dev: int, block: int) {
    && 0 <= b < |pool'| == |pool| && pool' == pool[b := pool'[b]]
    && pool'[b].dev == dev && pool'[b].blockNum == block && pool'[b].count == pool[b].count + 1
    && (pool[b].count > 0 ==> pool'[b] == pool[b].(count := pool[b].count + 1))
  }

  /** `b` has left the free list, and the others stand in it as they did. */
  ghost predicate LeftFree(free: seq<int>, free': seq<int>, b: int) {
    exists k :: 0 <= k < |free| && free[k] == b && free' == free[..k] + free[k + 1..]
  }

  ghost predicate SomeFree(pool: seq<Buffer>) {
    exists b :: 0 <= b < |pool| && pool[b].count == 0
  }

  /** A buffer is to be had for the block: it is in one, or some buffer is not pinned. */
  ghost predicate RoomFor(pool: seq<Buffer>, dev: int, block: int) {
    Holder(pool, PlaceOf(dev, block)) < |pool| || SomeFree(pool)
  }

  lemma LabelledUpdate(pool: seq<Buffer>, devices: set<int>, b: nat, v: Buffer)
    requires Labelled(pool, devices) && b < |pool| && (v.dev == pool[b].dev || v.dev in devices)
    ensures Labelled(pool[b := v], devices)
  {
  }

  class Cache {
    var pool: seq<Buffer>
    var disk: Disk
    var buffHead: seq<int>
    var next: seq<int>
    var prev: seq<int>
    var lruBuff: int
    var mruBuff: int
    var nextFree: seq<int>
    var prevFree: seq<int>

    /** The buffers of each hash chain and of the free list, in order. */
    ghost var chains: seq<seq<int>>
    ghost var free: seq<int>

    /** The plain map from places to bytes that the cache and the disk together stand for. */
    ghost var view: Disk

    /** The numbers of the block devices. */
    const devices: set<int>

    ghost predicate Sized()
      reads this
    {
      |next| == |prev| == |nextFree| == |prevFree| == |pool|
    }

    ghost predicate Valid()
      reads this
    {
      && Sized()
      && ChainsLinked(next, prev, buffHead, chains) && Hashed(pool, chains)
      && FreeLinked(nextFree, prevFree, lruBuff, mruBuff, free) && FreeExactly(pool, free)
      && Coherent(pool, disk) && StandsFor(pool, disk, view)
      && Labelled(pool, devices) && Distinguished(devices)
    }

    lemma FreeMeans()
      requires Valid()
      ensures SomeFree(pool) <==> lruBuff != NULL
      ensures SomeFree(pool) <==> free != []
    {
      if free != [] {
        var b := free[0];
        assert b in free && lruBuff == b && 0 <= b < |pool| && pool[b].count == 0;
      } else {
        forall b | 0 <= b < |pool| ensures pool[b].count != 0 { assert b !in free; }
      }
    }

    /** init_buffer: every buffer zeroed (B4), in chain 0 and on the free list, in order. */
    constructor (disk: Disk, devices: set<int>)
      requires Distinguished(devices)
      ensures Valid() && view == disk && this.disk == disk && this.devices == devices
      ensures |pool| == |free| == 100
      ensures forall b :: 0 <= b < 100 ==> free[b] == b
      ensures forall b :: 0 <= b < 100 ==> pool[b].count == 0 && pool[b].dev == 0 && pool[b].flags == 0 && !pool[b].dirty
    {
      var fresh_ := Buffer(0, 0, false, NODEV, 0, seq(BLOCK_SIZE, _ => 0));
      var bufs, nx, pv := [fresh_], [NULL], [NULL];
      for i := 1 to MAX_BUFFER
        invariant |bufs| == |nx| == |pv| == i
        invariant forall j :: 0 <= j < i ==> bufs[j] == fresh_
        invariant forall j :: 0 <= j < i ==> nx[j] == (if j + 1 < i then j + 1 else NULL) && pv[j] == j - 1
      {
        bufs := bufs + [fresh_];
        nx := nx[i - 1 := i] + [NULL];
        pv := pv + [i - 1];
      }
      ghost var all := seq(MAX_BUFFER, j => j);
      InitLinked(nx, pv, all);
      forall b | 0 <= b < MAX_BUFFER ensures b in all { assert all[b] == b; }
      pool := bufs;
      buffHead := seq(CHAINS, c => if c == 0 then 0 else NULL);
      next, prev, nextFree, prevFree := nx, pv, nx, pv;
      lruBuff, mruBuff := 0, MAX_BUFFER - 1;
      this.disk, this.devices := disk, devices;
      chains := seq(CHAINS, c => if c == 0 then all else []);
      free := all;
      view := disk;
      new;
      assert forall b :: 0 <= b < |pool| ==> pool[b] == fresh_;
      forall c | 0 <= c < CHAINS ensures Linked(next, prev, buffHead[c], chains[c]) {}
      forall b | 0 <= b < |pool| ensures InOwnChain(pool, chains, b) {}
    }

    // ----- The free list -------------------------------------------------------------------------------

    /** Takes `b` off the free list (B3: at either end too). */
    method UnlinkFree(b: int, ghost k: nat)
      requires Sized() && FreeLinked(nextFree, prevFree, lruBuff, mruBuff, free) && k < |free| && free[k] == b
      modifies this`nextFree, this`prevFree, this`lruBuff, this`mruBuff, this`free
      ensures Sized() && FreeLinked(nextFree, prevFree, lruBuff, mruBuff, free)
      ensures free == Without(old(free), k)
    {
      ghost var l := free;
      PointersInRange(nextFree, prevFree, lruBuff, l, k);
      UnlinkKeeps(nextFree, prevFree, lruBuff, l, k);
      WithoutMembers(l, k);
      ghost var nf, pf := NextWithout(nextFree, prevFree, b), PrevWithout(nextFree, prevFree, b);
      var p, n := prevFree[b], nextFree[b];
      assert p == At(l, k - 1) && n == At(l, k + 1) by { assert Joined(nextFree, prevFree, l, k); }
      assert (k > 0 ==> l[k - 1] in l) && (k + 1 < |l| ==> l[k + 1] in l);
      if p != NULL {
        nextFree := nextFree[p := n];
      } else {
        lruBuff := n;  // repair B3
      }
      if n != NULL {
        prevFree := prevFree[n := p];
      } else {
        mruBuff := p;  // repair B3
      }
      nextFree := nextFree[b := NULL];
      prevFree := prevFree[b := NULL];
      free := Without(l, k);
      LinksElsewhere(nf, pf, lruBuff, free, nextFree, prevFree);
    }

    /** Puts `b` on the free list as the next victim, or, for a directory, as the last one. */
    method LinkFree(b: int, last: bool)
      requires Sized() && FreeLinked(nextFree, prevFree, lruBuff, mruBuff, free) && 0 <= b < |pool| && b !in free
      modifies this`nextFree, this`prevFree, this`lruBuff, this`mruBuff, this`free
      ensures Sized() && FreeLinked(nextFree, prevFree, lruBuff, mruBuff, free)
      ensures free == if last then old(free) + [b] else [b] + old(free)
    {
      ghost var l, nf, pf := free, nextFree, prevFree;
      if l != [] {
        PointersInRange(nextFree, prevFree, lruBuff, l, 0);
        PointersInRange(nextFree, prevFree, lruBuff, l, |l| - 1);
        assert l[0] in l && l[|l| - 1] in l;
      }
      if last {
        if mruBuff != NULL {
          nextFree := nextFree[mruBuff := b];
          prevFree := prevFree[b := mruBuff];
        } else {
          lruBuff := b;  // repair B3
        }
        mruBuff := b;
        PushBackKeeps(nf, pf, At(l, 0), l, b, nextFree, prevFree);
        free := l + [b];
      } else {
        if lruBuff != NULL {
          prevFree := prevFree[lruBuff := b];
          nextFree := nextFree[b := lruBuff];
        } else {
          mruBuff := b;  // repair B3
        }
        lruBuff := b;
        PushFrontKeeps(nf, pf, At(l, 0), l, b, nextFree, prevFree);
        free := [b] + l;
      }
    }

    // ----- The hash chains -------------------------------------------------------------------------------

    /** Repair B1: takes `b` out of the chain it is in. */
    method UnlinkChain(b: int)
      requires Sized() && ChainsLinked(next, prev, buffHead, chains) && Hashed(pool, chains) && 0 <= b < |pool|
      modifies this`next, this`prev, this`buffHead, this`chains
      ensures Sized() && ChainsLinked(next, prev, buffHead, chains) && Hashed(pool, chains, b)
    {
      var c := Hash(pool[b].blockNum);
      ghost var cs, heads, nx, pv := chains, buffHead, next, prev;
      ghost var l := cs[c];
      assert InOwnChain(pool, cs, b) && Linked(nx, pv, heads[c], l);
      ghost var k :| 0 <= k < |l| && l[k] == b;
      PointersInRange(nx, pv, heads[c], l, k);
      UnlinkKeeps(nx, pv, heads[c], l, k);
      WithoutMembers(l, k);
      if prev[b] != NULL {
        next := next[prev[b] := next[b]];
      } else {
        buffHead := buffHead[c := next[b]];
      }
      if next[b] != NULL {
        prev := prev[next[b] := prev[b]];
      }
      assert next == NextWithout(nx, pv, b) && prev == PrevWithout(nx, pv, b);
      chains := cs[c := Without(l, k)];
      forall x | 0 <= x < |pool| && x != b ensures InOwnChain(pool, chains, x) { assert InOwnChain(pool, cs, x); }
      forall d, x | 0 <= d < CHAINS && x in chains[d]
        ensures 0 <= x < |pool| && x != b && Hash(pool[x].blockNum) == d
      {
        assert x in cs[d];
      }
      forall d | 0 <= d < CHAINS ensures Linked(next, prev, buffHead[d], chains[d]) {
        forall x | x in cs[d] && d != c ensures x !in l { assert Hash(pool[x].blockNum) == d; }
        assert Linked(nx, pv, heads[d], cs[d]);
        if d != c { UnlinkElsewhere(nx, pv, heads[c], l, k, heads[d], cs[d]); }
      }
    }

    /** Puts `b` at the head of the chain of its block number. */
    method LinkChain(b: int)
      requires Sized() && ChainsLinked(next, prev, buffHead, chains) && 0 <= b < |pool| && Hashed(pool, chains, b)
      modifies this`next, this`prev, this`buffHead, this`chains
      ensures Sized() && ChainsLinked(next, prev, buffHead, chains) && Hashed(pool, chains)
    {
      var c := Hash(pool[b].blockNum);
      ghost var cs, heads, nx, pv := chains, buffHead, next, prev;
      ghost var l := cs[c];
      assert Linked(nx, pv, heads[c], l);
      if l != [] { PointersInRange(nx, pv, heads[c], l, 0); assert l[0] in l; }
      next := next[b := buffHead[c]];
      if next[b] != NULL {
        prev := prev[next[b] := b];
      }
      buffHead := buffHead[c := b];
      prev := prev[b := NULL];
      PushFrontKeeps(nx, pv, heads[c], l, b, next, prev);
      chains := cs[c := [b] + l];
      forall x | 0 <= x < |pool| ensures InOwnChain(pool, chains, x) { if x != b { assert InOwnChain(pool, cs, x); } }
      forall d | 0 <= d < CHAINS ensures Linked(next, prev, buffHead[d], chains[d]) {
        forall x | x in cs[d] && d != c ensures next[x] == nx[x] && prev[x] == pv[x] {
          assert Hash(pool[x].blockNum) == d;
          if l != [] { assert Hash(pool[l[0]].blockNum) == c; }
        }
        assert Linked(nx, pv, heads[d], cs[d]);
        if d != c { LinksElsewhere(nx, pv, heads[d], cs[d], next, prev); }
      }
    }

    /** The chain walk of get_block: the buffer that holds the block, or NULL. */
    method FindBuffer(block: int, dev: int) returns (b: int)
      requires Valid() && dev in devices
      ensures var h := Holder(pool, PlaceOf(dev, block)); b == if h < |pool| then h else NULL
    {
      var c := Hash(block);
      b := buffHead[c];
      ghost var l, i := chains[c], 0;
      assert Linked(next, prev, buffHead[c], l);
      forall j | 0 <= j < |l| ensures l[j] in l && 0 <= l[j] < |pool| { assert l[j] in chains[c]; }
      while b != NULL
        invariant 0 <= i <= |l| && b == At(l, i)
        invariant forall j :: 0 <= j < |l| ==> l[j] in l && 0 <= l[j] < |pool|
        invariant forall j :: 0 <= j < i ==> !(pool[l[j]].blockNum == block && pool[l[j]].dev == dev)
        decreases |l| - i
      {
        assert Joined(next, prev, l, i);
        if pool[b].blockNum == block && pool[b].dev == dev {
          HolderIs(pool, disk, b);
          return;
        }
        b := next[b];
        i := i + 1;
      }
      NotInChain(pool, devices, chains, block, dev);
    }

    // ----- get_block and put_block --------------------------------------------------------------------------

    /** In both branches of get_block: a dirty buffer leaving the free list is written to where its label says. */
    method WriteBack(b: int)
      requires Coherent(pool, disk) && StandsFor(pool, disk, view) && 0 <= b < |pool|
      modifies this`pool, this`disk
      ensures pool == old(pool)[b := old(pool)[b].(dirty := false)]
      ensures disk == if old(pool)[b].dirty then old(disk)[Place(old(pool)[b].dev % 256, old(pool)[b].blockNum) := old(pool)[b].buff]
                      else old(disk)
      ensures Coherent(pool, disk) && StandsFor(pool, disk, view)
    {
      WriteBackKeeps(pool, disk, view, b);
      if pool[b].dirty {
        disk := disk[PlaceOf(pool[b].dev, pool[b].blockNum) := pool[b].buff];
        pool := pool[b := pool[b].(dirty := false)];
      }
    }

    /** Whatever the pins of `b`, it is in the right chain and stands for the same bytes. */
    lemma Recounted(b: int, count: nat)
      requires Coherent(pool, disk) && StandsFor(pool, disk, view) && Hashed(pool, chains) && Labelled(pool, devices)
      requires 0 <= b < |pool|
      ensures var pool' := pool[b := pool[b].(count := count)];
        Hashed(pool', chains) && Labelled(pool', devices) && Coherent(pool', disk) && StandsFor(pool', disk, view)
    {
      CountKeeps(pool, disk, view, b, count);
      HashedUpdate(pool, chains, -1, b, pool[b].(count := count));
      LabelledUpdate(pool, devices, b, pool[b].(count := count));
    }

    /** A buffer labelled with the block is the one that holds it. */
    lemma OnlyHolder(block: int, dev: int)
      requires Valid() && dev in devices
      ensures forall h :: 0 <= h < |pool| && pool[h].dev == dev && pool[h].blockNum == block ==>
        Holder(pool, PlaceOf(dev, block)) == h
    {
      forall h | 0 <= h < |pool| && pool[h].dev == dev && pool[h].blockNum == block
        ensures Holder(pool, PlaceOf(dev, block)) == h
      {
        HolderIs(pool, disk, h);
      }
    }

    /** Each buffer is in the chain of the low byte of its block number, and in no other. */
    lemma ChainedByLowByte(b: int, c: int)
      requires Valid() && 0 <= b < |pool| && 0 <= c < 256
      ensures |chains| == 256 && (b in chains[c] <==> c == pool[b].blockNum % 256)
    {
      assert InOwnChain(pool, chains, b);
    }

    /** The found branch of get_block. */
    method Pin(b: int)
      requires Valid() && 0 <= b < |pool| && pool[b].dev != NODEV
      modifies this`pool, this`disk, this`nextFree, this`prevFree, this`lruBuff, this`mruBuff, this`free
      ensures Valid()
      ensures Got(old(pool), pool, b, old(pool[b].dev), old(pool[b].blockNum))
      ensures pool == old(pool)[b := old(pool)[b].(dirty := old(pool)[b].dirty && old(pool)[b].count > 0, count := old(pool)[b].count + 1)]
      ensures if old(pool)[b].count > 0 then free == old(free) else LeftFree(old(free), free, b)
      ensures disk == if old(pool)[b].count == 0 && old(pool)[b].dirty
        then old(disk)[Place(old(pool)[b].dev % 256, old(pool)[b].blockNum) := old(pool)[b].buff] else old(disk)
    {
      ghost var pool0 := pool;
      if pool[b].count == 0 {
        Reclaim(b);
        UpdateTwice(pool0, b, pool[b], pool[b].(count := pool[b].count + 1));
        FreePinned(pool, free, b, pool[b].(count := pool[b].count + 1));
      } else {
        FreeRecounted(pool, free, b, pool[b].count + 1);
      }
      Recounted(b, pool[b].count + 1);
      pool := pool[b := pool[b].(count := pool[b].count + 1)];
    }

    /** In the found branch: an unpinned buffer leaves the free list, and what is dirty in it goes to the disk. */
    method Reclaim(b: int)
      requires Valid() && 0 <= b < |pool| && pool[b].count == 0
      modifies this`pool, this`disk, this`nextFree, this`prevFree, this`lruBuff, this`mruBuff, this`free
      ensures Sized() && FreeLinked(nextFree, prevFree, lruBuff, mruBuff, free) && FreeExactly(pool, free, b)
      ensures Coherent(pool, disk) && StandsFor(pool, disk, view) && Hashed(pool, chains) && Labelled(pool, devices)
      ensures pool == old(pool)[b := old(pool)[b].(dirty := false)] && LeftFree(old(free), free, b)
      ensures disk == if old(pool)[b].dirty then old(disk)[Place(old(pool)[b].dev % 256, old(pool)[b].blockNum) := old(pool)[b].buff]
                      else old(disk)
    {
      assert b in free;
      ghost var k :| 0 <= k < |free| && free[k] == b;
      FreeWithout(pool, free, k);
      UnlinkFree(b, k);
      FreeUpdate(pool, free, b, pool[b].(dirty := false));
      HashedUpdate(pool, chains, -1, b, pool[b].(dirty := false));
      LabelledUpdate(pool, devices, b, pool[b].(dirty := false));
      WriteBack(b);
    }

    /** The new label and its bytes. */
    method Relabel(b: int, dev: int, block: int)
      requires Coherent(pool, disk) && StandsFor(pool, disk, view) && 0 <= b < |pool| && !pool[b].dirty
      requires dev != NODEV && PlaceOf(dev, block) in disk && Holder(pool, PlaceOf(dev, block)) == |pool|
      modifies this`pool
      ensures Coherent(pool, disk) && StandsFor(pool, disk, view)
      ensures pool == old(pool)[b := Relabelled(old(pool)[b], dev, block, disk[PlaceOf(dev, block)])]
    {
      RelabelKeeps(pool, disk, view, b, dev, block);
      pool := pool[b := Relabelled(pool[b], dev, block, disk[PlaceOf(dev, block)])];
    }

    /** The victim leaves the free list and its old chain, and what it held goes to the disk if need be. */
    method Detach(b: int, ghost p: Place)
      requires Valid() && free != [] && b == free[0] && Holder(pool, p) == |pool|
      modifies this`pool, this`disk, this`next, this`prev, this`buffHead, this`chains
      modifies this`nextFree, this`prevFree, this`lruBuff, this`mruBuff, this`free
      ensures Sized() && ChainsLinked(next, prev, buffHead, chains) && Hashed(pool, chains, b)
      ensures FreeLinked(nextFree, prevFree, lruBuff, mruBuff, free)
      ensures 0 <= b < |old(pool)| && old(pool)[b].count == 0 && FreeExactly(pool, free, b)
      ensures Coherent(pool, disk) && StandsFor(pool, disk, view)
      ensures pool == old(pool)[b := old(pool)[b].(dirty := false)] && Holder(pool, p) == |pool|
      ensures free == old(free)[1..]
      ensures disk == if old(pool)[b].dirty then old(disk)[Place(old(pool)[b].dev % 256, old(pool)[b].blockNum) := old(pool)[b].buff]
                      else old(disk)
    {
      ghost var pool0 := pool;
      assert b in free;
      FreeWithout(pool, free, 0);
      UnlinkFree(b, 0);
      WriteBack(b);
      HolderSame(pool0, pool, b, p);
      FreeUpdate(pool0, free, b, pool[b]);
      HashedUpdate(pool0, chains, -1, b, pool[b]);
      UnlinkChain(b);
    }

    /** The victim, off every list, gets its new label and its new chain. */
    method Attach(b: int, dev: int, block: int)
      requires Sized() && ChainsLinked(next, prev, buffHead, chains) && 0 <= b < |pool| && Hashed(pool, chains, b)
      requires Coherent(pool, disk) && StandsFor(pool, disk, view) && !pool[b].dirty
      requires dev != NODEV && PlaceOf(dev, block) in disk && Holder(pool, PlaceOf(dev, block)) == |pool|
      requires FreeExactly(pool, free, b)
      modifies this`pool, this`next, this`prev, this`buffHead, this`chains
      ensures FreeExactly(pool, free)
      ensures Sized() && ChainsLinked(next, prev, buffHead, chains) && Hashed(pool, chains)
      ensures Coherent(pool, disk) && StandsFor(pool, disk, view)
      ensures pool == old(pool)[b := Relabelled(old(pool)[b], dev, block, disk[PlaceOf(dev, block)])]
    {
      FreePinned(pool, free, b, Relabelled(pool[b], dev, block, disk[PlaceOf(dev, block)]));
      HashedUpdate(pool, chains, b, b, Relabelled(pool[b], dev, block, disk[PlaceOf(dev, block)]));
      Relabel(b, dev, block);
      LinkChain(b);
    }

    /** The eviction branch of get_block. */
    method Evict(dev: int, block: int) returns (b: int)
      requires Valid() && dev in devices && PlaceOf(dev, block) in disk && free != []
      requires Holder(pool, PlaceOf(dev, block)) == |pool|
      modifies this`pool, this`disk, this`next, this`prev, this`buffHead, this`chains
      modifies this`nextFree, this`prevFree, this`lruBuff, this`mruBuff, this`free
      ensures Valid()
      ensures Got(old(pool), pool, b, dev, block)
      ensures b == old(lruBuff) == old(free)[0] && free == old(free)[1..]
      ensures disk == if old(pool)[b].dirty then old(disk)[Place(old(pool)[b].dev % 256, old(pool)[b].blockNum) := old(pool)[b].buff]
                      else old(disk)
      ensures pool == old(pool)[b := Buffer(old(pool)[b].flags, block, false, dev, 1, disk[Place(dev % 256, block)])]
    {
      ghost var pool0 := pool;
      b := lruBuff;
      Detach(b, PlaceOf(dev, block));
      ghost var clean := pool[b];
      Attach(b, dev, block);
      UpdateTwice(pool0, b, clean, pool[b]);
      LabelledUpdate(pool0, devices, b, pool[b]);
    }

    method GetBlock(block: int, dev: int) returns (b: int)
      requires Valid() && dev in devices && PlaceOf(dev, block) in view && RoomFor(pool, dev, block)
      modifies this`pool, this`disk, this`next, this`prev, this`buffHead, this`chains
      modifies this`nextFree, this`prevFree, this`lruBuff, this`mruBuff, this`free
      ensures Valid()
      ensures Got(old(pool), pool, b, dev, block)
      ensures pool[b].buff == view[PlaceOf(dev, block)]
      ensures forall h :: 0 <= h < |pool| && old(pool)[h].dev == dev && old(pool)[h].blockNum == block ==> h == b
      ensures var x := old(pool)[b];
        disk == if x.count == 0 && x.dirty then old(disk)[Place(x.dev % 256, x.blockNum) := x.buff] else old(disk)
      ensures var x := old(pool)[b];
        if x.dev == dev && x.blockNum == block then
          && pool == old(pool)[b := x.(dirty := x.dirty && x.count > 0, count := x.count + 1)]
          && (if x.count > 0 then free == old(free)
              else exists k :: 0 <= k < |old(free)| && old(free)[k] == b && free == old(free)[..k] + old(free)[k + 1..])
        else
          && pool == old(pool)[b := Buffer(x.flags, block, false, dev, 1, disk[Place(dev % 256, block)])]
          && old(free) != [] && b == old(lruBuff) == old(free)[0] && free == old(free)[1..]
    {
      b := FindBuffer(block, dev);
      OnlyHolder(block, dev);
      if b != NULL {
        LabelOfHolder(pool, devices, b, dev, block);
        Pin(b);
      } else {
        FreeMeans();
        b := Evict(dev, block);
      }
      HolderIs(pool, disk, b);
    }

    method PutBlock(b: int)
      requires Valid() && 0 <= b < |pool| && pool[b].count > 0
      modifies this`pool, this`nextFree, this`prevFree, this`lruBuff, this`mruBuff, this`free
      ensures Valid()
      ensures pool == old(pool)[b := old(pool)[b].(count := old(pool)[b].count - 1)]
      ensures free == if old(pool)[b].count > 1 then old(free) else if old(pool)[b].flags == 1 then old(free) + [b] else [b] + old(free)
    {
      ghost var pool0, free0 := pool, free;
      Recounted(b, pool[b].count - 1);
      if pool[b].count > 1 {
        FreeRecounted(pool, free, b, pool[b].count - 1);
        pool := pool[b := pool[b].(count := pool[b].count - 1)];
        return;
      }
      pool := pool[b := pool[b].(count := 0)];  // repair B2
      LinkFree(b, pool[b].flags == CLASS_DIR);
      FreePut(pool0, free0, free, b);
    }

    // ----- What a holder of a pinned buffer may do --------------------------------------------------------

    /** Marking a buffer dirty and storing bytes into it. */
    method Modify(b: int, bytes: Sector)
      requires Valid() && 0 <= b < |pool| && pool[b].count > 0 && pool[b].dev != NODEV
      modifies this`pool, this`view
      ensures Valid()
      ensures pool == old(pool)[b := old(pool)[b].(dirty := true, buff := bytes)]
      ensures pool[b].Spot() in old(view) && view == old(view)[pool[b].Spot() := bytes]
    {
      ModifyKeeps(pool, disk, view, b, bytes);
      HolderIs(pool, disk, b);
      HashedUpdate(pool, chains, -1, b, pool[b].(dirty := true, buff := bytes));
      LabelledUpdate(pool, devices, b, pool[b].(dirty := true, buff := bytes));
      FreeModified(pool, free, b, bytes);
      view := view[pool[b].Spot() := bytes];
      pool := pool[b := pool[b].(dirty := true, buff := bytes)];
    }
  }
}
