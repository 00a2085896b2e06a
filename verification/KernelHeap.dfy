/** The kernel heap, its headers edited in place in memory. */
module KernelHeap {
  import opened Memory
  import opened HeapBlocks
  import opened HeapTheorems

  // Offsets of the header fields.
  const USED := 0
  const PREV := 4
  const NEXT := 8
  const SIZE := 12

  /** The address of block `i`, or NULL past either end. */
  function AddressOf(bs: seq<Block>, i: int): int {
    if 0 <= i < |bs| then bs[i].addr else 0
  }

  ghost predicate HeaderIs(m: Memory, a: int, prev: int, next: int, size: int) {
    && a + PREV in m.words && a + NEXT in m.words && a + SIZE in m.words
    && m.words[a + PREV] == prev && m.words[a + NEXT] == next && m.words[a + SIZE] == size
  }

  ghost predicate LinksOf(m: Memory, bs: seq<Block>, i: nat)
    requires i < |bs|
  {
    HeaderIs(m, bs[i].addr, AddressOf(bs, i - 1), AddressOf(bs, i + 1), bs[i].size)
  }

  ghost predicate UsedOf(m: Memory, bs: seq<Block>, i: nat)
    requires i < |bs|
  {
    bs[i].addr + USED in m.words && (m.words[bs[i].addr + USED] != 0 <==> bs[i].used)
  }

  /** Every header of `bs` is intact in `m`, except perhaps the `used` field of block `pending`. */
  ghost predicate Headers(m: Memory, bs: seq<Block>, pending: int := -1) {
    forall i :: 0 <= i < |bs| ==> LinksOf(m, bs, i) && (i != pending ==> UsedOf(m, bs, i))
  }

  /** The byte at `k` belongs to the payload of a block in use. */
  ghost predicate InLivePayload(bs: seq<Block>, k: int) {
    exists i :: 0 <= i < |bs| && bs[i].used && bs[i].Payload() <= k < bs[i].End()
  }

  /** Whatever the users of the blocks in use had stored is still there. */
  ghost predicate PayloadsKept(m: Memory, after: Memory, bs: seq<Block>) {
    forall k :: k in m.bytes && InLivePayload(bs, k) ==> k in after.bytes && after.bytes[k] == m.bytes[k]
  }

  /** Every byte of the payload of a block in use that was there is there, unchanged. */
  lemma PayloadByteKept(m: Memory, after: Memory, bs: seq<Block>, b: Block, k: int)
    requires PayloadsKept(m, after, bs) && b in bs && b.used
    requires k in m.bytes && b.addr + 16 <= k < b.addr + 16 + b.size
    ensures k in after.bytes && after.bytes[k] == m.bytes[k]
  {
    var i :| 0 <= i < |bs| && bs[i] == b;
    assert InLivePayload(bs, k);
  }

  // ----- The stores that splitting makes ------------------------------------------------------------

  /** Fields and bytes outside two ranges, and apart from the `prev` field of the block at `x`, are as they were. */
  ghost predicate KeptOutside(m: Memory, after: Memory, lo: int, hi: int, lo2: int, hi2: int, x: int) {
    && (forall k :: k in m.words && (k + 4 <= lo || hi <= k) && (k + 4 <= lo2 || hi2 <= k) && (x != 0 ==> Apart(x + PREV, k)) ==>
        k in after.words && after.words[k] == m.words[k])
    && (forall k :: k in m.bytes && !(lo <= k < hi) && !(lo2 <= k < hi2) && (x != 0 ==> !(x + PREV <= k < x + PREV + 4)) ==>
        k in after.bytes && after.bytes[k] == m.bytes[k])
  }

  /** The effect of splitting the block at `a` at `t`, with `n` the block after it or NULL. */
  ghost predicate SplitEffect(m: Memory, after: Memory, a: int, t: int, n: int) {
    && a + SIZE in m.words && a + PREV in m.words
    && HeaderIs(after, a, m.words[a + PREV], t, t - a - HEADER)
    && HeaderIs(after, t, a, n, m.words[a + SIZE] - (t - a))
    && t + USED in after.words && after.words[t + USED] == 0
    && (n != 0 ==> n + PREV in after.words && after.words[n + PREV] == t)
    && KeptOutside(m, after, a, a + HEADER, t, t + HEADER, n)
  }

  lemma SplitBefore(m: Memory, after: Memory, bs: seq<Block>, lo: int, hi: int, i: nat, size: int, k: nat)
    requires Tiles(bs, lo, hi) && 0 < lo && k < i < |bs| && Headers(m, bs, i)
    requires 0 <= size && size + HEADER + 1 <= bs[i].size
    requires SplitEffect(m, after, bs[i].addr, bs[i].addr + HEADER + size, AddressOf(bs, i + 1))
    ensures LinksOf(after, bs, k) && UsedOf(after, bs, k)
  {
    Ordered(bs, lo, hi, k, i);
    if i + 1 < |bs| { Ordered(bs, lo, hi, k, i + 1); }
    assert LinksOf(m, bs, k) && UsedOf(m, bs, k);
  }

  lemma SplitAfter(m: Memory, after: Memory, bs: seq<Block>, lo: int, hi: int, i: nat, size: int, k: nat)
    requires Tiles(bs, lo, hi) && 0 < lo && i < k < |bs| && Headers(m, bs, i)
    requires 0 <= size && size + HEADER + 1 <= bs[i].size
    requires SplitEffect(m, after, bs[i].addr, bs[i].addr + HEADER + size, AddressOf(bs, i + 1))
    ensures HeaderIs(after, bs[k].addr, if k == i + 1 then bs[i].addr + HEADER + size else bs[k - 1].addr,
                     AddressOf(bs, k + 1), bs[k].size)
    ensures UsedOf(after, bs, k)
  {
    Ordered(bs, lo, hi, i, k);
    Within(bs, lo, hi, i);
    if i + 1 < k { Ordered(bs, lo, hi, i + 1, k); }
    assert LinksOf(m, bs, k) && UsedOf(m, bs, k);
  }

  lemma SplitHere(m: Memory, after: Memory, bs: seq<Block>, lo: int, hi: int, i: nat, size: int)
    requires Tiles(bs, lo, hi) && 0 < lo && i < |bs| && Headers(m, bs, i)
    requires 0 <= size && size + HEADER + 1 <= bs[i].size
    requires SplitEffect(m, after, bs[i].addr, bs[i].addr + HEADER + size, AddressOf(bs, i + 1))
    requires bs[i].addr + USED in after.words && after.words[bs[i].addr + USED] == 1
    ensures var r := Take(bs, i, size);
      LinksOf(after, r, i) && UsedOf(after, r, i) && LinksOf(after, r, i + 1) && UsedOf(after, r, i + 1)
  {
    assert LinksOf(m, bs, i);
    var r := Take(bs, i, size);
    assert r[i] == Block(bs[i].addr, size, true);
    assert r[i + 1] == Block(bs[i].addr + HEADER + size, bs[i].size - size - HEADER, false);
    assert AddressOf(r, i - 1) == AddressOf(bs, i - 1) && AddressOf(r, i + 2) == AddressOf(bs, i + 1);
  }

  /** Block `k` after a split, and the addresses of its neighbours. */
  lemma TakeAt(bs: seq<Block>, i: nat, size: int, k: nat)
    requires i < |bs| && size + HEADER + 1 <= bs[i].size && k < |Take(bs, i, size)|
    ensures var r := Take(bs, i, size);
      && |r| == |bs| + 1
      && (k < i ==> r[k] == bs[k] && AddressOf(r, k - 1) == AddressOf(bs, k - 1) && AddressOf(r, k + 1) == AddressOf(bs, k + 1))
      && (k > i + 1 ==> r[k] == bs[k - 1] && AddressOf(r, k + 1) == AddressOf(bs, k))
      && (k > i + 1 ==> AddressOf(r, k - 1) == if k == i + 2 then bs[i].addr + HEADER + size else bs[k - 2].addr)
  {
  }

  lemma SplitRepresented(m: Memory, after: Memory, bs: seq<Block>, lo: int, hi: int, i: nat, size: int)
    requires Tiles(bs, lo, hi) && 0 < lo && i < |bs| && Headers(m, bs, i)
    requires 0 <= size && size + HEADER + 1 <= bs[i].size
    requires SplitEffect(m, after, bs[i].addr, bs[i].addr + HEADER + size, AddressOf(bs, i + 1))
    requires bs[i].addr + USED in after.words && after.words[bs[i].addr + USED] == 1
    ensures Headers(after, Take(bs, i, size))
  {
    var r := Take(bs, i, size);
    SplitHere(m, after, bs, lo, hi, i, size);
    forall k | 0 <= k < |r| ensures LinksOf(after, r, k) && UsedOf(after, r, k) {
      TakeAt(bs, i, size, k);
      if k < i {
        SplitBefore(m, after, bs, lo, hi, i, size, k);
      } else if k > i + 1 {
        SplitAfter(m, after, bs, lo, hi, i, size, k - 1);
      }
    }
  }

  /** A split writes nothing but headers and the block being split. */
  lemma SplitKeepsPayloads(m: Memory, after: Memory, bs: seq<Block>, lo: int, hi: int, i: nat, size: int)
    requires Tiles(bs, lo, hi) && 0 < lo && i < |bs| && !bs[i].used
    requires 0 <= size && size + HEADER + 1 <= bs[i].size
    requires SplitEffect(m, after, bs[i].addr, bs[i].addr + HEADER + size, AddressOf(bs, i + 1))
    ensures PayloadsKept(m, after, bs)
  {
    forall k | k in m.bytes && InLivePayload(bs, k) ensures k in after.bytes && after.bytes[k] == m.bytes[k] {
      var j :| 0 <= j < |bs| && bs[j].used && bs[j].Payload() <= k < bs[j].End();
      OutsideOthers(bs, lo, hi, i, j);
      if i + 1 < |bs| { OutsideOthers(bs, lo, hi, i + 1, j); }
    }
  }

  /** The payload of block `j` meets neither the header of block `i` nor, if they differ, its payload. */
  lemma OutsideOthers(bs: seq<Block>, lo: int, hi: int, i: nat, j: nat)
    requires Tiles(bs, lo, hi) && i < |bs| && j < |bs|
    ensures bs[i].Payload() <= bs[j].Payload() || bs[j].End() <= bs[i].addr
    ensures i != j ==> bs[i].End() <= bs[j].addr || bs[j].End() <= bs[i].addr
  {
    if i < j { Ordered(bs, lo, hi, i, j); } else if j < i { Ordered(bs, lo, hi, j, i); }
  }

  lemma RealignPreconditionsOf(m: Memory, bs: seq<Block>, lo: int, hi: int, i: nat)
    requires Tiles(bs, lo, hi) && 0 < lo && i < |bs| && Headers(m, bs, i)
    ensures HeaderIs(m, bs[i].addr, AddressOf(bs, i - 1), AddressOf(bs, i + 1), bs[i].size)
    ensures lo <= bs[i].addr && bs[i].End() <= hi && (i + 1 < |bs| ==> bs[i + 1].addr == bs[i].End())
  {
    assert LinksOf(m, bs, i);
    Within(bs, lo, hi, i);
  }

  /** The mark in the header does not disturb the effect of a split. */
  lemma MarkKeepsSplit(m: Memory, split: Memory, after: Memory, bs: seq<Block>, lo: int, hi: int, i: nat, size: int)
    requires Tiles(bs, lo, hi) && 0 < lo && i < |bs| && 0 <= size && size + HEADER + 1 <= bs[i].size
    requires SplitEffect(m, split, bs[i].addr, bs[i].addr + HEADER + size, AddressOf(bs, i + 1))
    requires Stored(split, bs[i].addr + USED, 1, after)
    ensures SplitEffect(m, after, bs[i].addr, bs[i].addr + HEADER + size, AddressOf(bs, i + 1))
  {
    if i + 1 < |bs| { Ordered(bs, lo, hi, i, i + 1); }
  }

  // ----- Setting a `used` field ------------------------------------------------------------------------

  lemma MarkRepresented(m: Memory, after: Memory, bs: seq<Block>, lo: int, hi: int, i: nat, used: bool)
    requires Tiles(bs, lo, hi) && 0 < lo && i < |bs| && Headers(m, bs, i)
    requires Stored(m, bs[i].addr + USED, if used then 1 else 0, after)
    ensures Headers(after, bs[i := bs[i].(used := used)])
  {
    var r := bs[i := bs[i].(used := used)];
    forall k | 0 <= k < |r| ensures LinksOf(after, r, k) && UsedOf(after, r, k) {
      assert LinksOf(m, bs, k);
      if k != i { assert UsedOf(m, bs, k); OutsideOthers(bs, lo, hi, i, k); }
    }
  }

  lemma MarkKeepsPayloads(m: Memory, after: Memory, bs: seq<Block>, lo: int, hi: int, i: nat, v: int)
    requires Tiles(bs, lo, hi) && i < |bs| && Stored(m, bs[i].addr + USED, v, after)
    ensures PayloadsKept(m, after, bs)
  {
    forall k | k in m.bytes && InLivePayload(bs, k) ensures k in after.bytes && after.bytes[k] == m.bytes[k] {
      var j :| 0 <= j < |bs| && bs[j].used && bs[j].Payload() <= k < bs[j].End();
      OutsideOthers(bs, lo, hi, i, j);
    }
  }

  // ----- The stores that merging makes ----------------------------------------------------------------

  /** The block at `p` now ends `size` bytes after its header and is followed by `n`, or by nothing. */
  ghost predicate MergeEffect(m: Memory, after: Memory, p: int, n: int, size: int) {
    && p + PREV in m.words
    && HeaderIs(after, p, m.words[p + PREV], n, size)
    && (n != 0 ==> n + PREV in after.words && after.words[n + PREV] == p)
    && KeptOutside(m, after, p + NEXT, p + HEADER, p + NEXT, p + HEADER, n)
  }

  lemma MergeBefore(m: Memory, after: Memory, bs: seq<Block>, lo: int, hi: int, i: nat, k: nat)
    requires Tiles(bs, lo, hi) && 0 < lo && i + 1 < |bs| && k < i && Headers(m, bs)
    requires MergeEffect(m, after, bs[i].addr, AddressOf(bs, i + 2), bs[i].size + HEADER + bs[i + 1].size)
    ensures LinksOf(after, bs, k) && UsedOf(after, bs, k)
  {
    Ordered(bs, lo, hi, k, i);
    if i + 2 < |bs| { Ordered(bs, lo, hi, k, i + 2); }
    assert LinksOf(m, bs, k) && UsedOf(m, bs, k);
  }

  lemma MergeAfter(m: Memory, after: Memory, bs: seq<Block>, lo: int, hi: int, i: nat, k: nat)
    requires Tiles(bs, lo, hi) && 0 < lo && i + 1 < k < |bs| && Headers(m, bs)
    requires MergeEffect(m, after, bs[i].addr, AddressOf(bs, i + 2), bs[i].size + HEADER + bs[i + 1].size)
    ensures HeaderIs(after, bs[k].addr, if k == i + 2 then bs[i].addr else bs[k - 1].addr, AddressOf(bs, k + 1), bs[k].size)
    ensures UsedOf(after, bs, k)
  {
    Ordered(bs, lo, hi, i, k);
    Within(bs, lo, hi, i);
    if i + 2 < k { Ordered(bs, lo, hi, i + 2, k); }
    assert LinksOf(m, bs, k) && UsedOf(m, bs, k);
  }

  lemma MergeRepresented(m: Memory, after: Memory, bs: seq<Block>, lo: int, hi: int, i: nat)
    requires Tiles(bs, lo, hi) && 0 < lo && i + 1 < |bs| && Headers(m, bs)
    requires MergeEffect(m, after, bs[i].addr, AddressOf(bs, i + 2), bs[i].size + HEADER + bs[i + 1].size)
    ensures Headers(after, Merge(bs, i))
  {
    assert LinksOf(m, bs, i) && UsedOf(m, bs, i);
    var r := Merge(bs, i);
    forall k | 0 <= k < |r| ensures LinksOf(after, r, k) && UsedOf(after, r, k) {
      if k < i {
        MergeBefore(m, after, bs, lo, hi, i, k);
        assert AddressOf(r, k - 1) == AddressOf(bs, k - 1) && AddressOf(r, k + 1) == AddressOf(bs, k + 1);
      } else if k > i {
        MergeAfter(m, after, bs, lo, hi, i, k + 1);
        assert r[k] == bs[k + 1] && AddressOf(r, k + 1) == AddressOf(bs, k + 2);
      } else {
        if i + 2 < |bs| { Ordered(bs, lo, hi, i, i + 2); }
      }
    }
  }

  lemma MergeKeepsPayloads(m: Memory, after: Memory, bs: seq<Block>, lo: int, hi: int, i: nat)
    requires Tiles(bs, lo, hi) && 0 < lo && i + 1 < |bs|
    requires MergeEffect(m, after, bs[i].addr, AddressOf(bs, i + 2), bs[i].size + HEADER + bs[i + 1].size)
    ensures PayloadsKept(m, after, bs)
  {
    forall k | k in m.bytes && InLivePayload(bs, k) ensures k in after.bytes && after.bytes[k] == m.bytes[k] {
      var j :| 0 <= j < |bs| && bs[j].used && bs[j].Payload() <= k < bs[j].End();
      OutsideOthers(bs, lo, hi, i, j);
      if i + 2 < |bs| { OutsideOthers(bs, lo, hi, i + 2, j); }
    }
  }

  // ----- The stores that realigning makes -----------------------------------------------------------------

  /** The free block at `b` has moved up to `t`; `p` is the block that got the gap. */
  ghost predicate RealignEffect(m: Memory, after: Memory, b: int, t: int, p: int, n: int) {
    && b + SIZE in m.words && p + PREV in m.words && p + SIZE in m.words
    && HeaderIs(after, p, m.words[p + PREV], t, if p == b then t - b - HEADER else m.words[p + SIZE] + (t - b))
    && HeaderIs(after, t, p, n, m.words[b + SIZE] - (t - b))
    && (n != 0 ==> n + PREV in after.words && after.words[n + PREV] == t)
    && KeptOutside(m, after, p + NEXT, p + HEADER, if p == b then t else b, t + HEADER, n)
  }

  /** The same, but for the size in the header of the block moved up. */
  ghost predicate RealignEffectButSize(m: Memory, after: Memory, b: int, t: int, p: int, n: int) {
    && b + SIZE in m.words && p + PREV in m.words && p + SIZE in m.words
    && HeaderIs(after, p, m.words[p + PREV], t, if p == b then t - b - HEADER else m.words[p + SIZE] + (t - b))
    && t + PREV in after.words && after.words[t + PREV] == p && t + NEXT in after.words && after.words[t + NEXT] == n
    && (n != 0 ==> n + PREV in after.words && after.words[n + PREV] == t)
    && KeptOutside(m, after, p + NEXT, p + HEADER, if p == b then t else b, t + HEADER, n)
  }

  lemma RealignOther(m: Memory, after: Memory, bs: seq<Block>, lo: int, hi: int, i: nat, t: int, k: nat)
    requires Tiles(bs, lo, hi) && 0 < lo && i < |bs| && k < |bs| && k != i && k != i - 1 && Headers(m, bs)
    requires bs[i].addr < t && t + HEADER <= bs[i].End() && (i == 0 ==> bs[0].Payload() <= t)
    requires RealignEffect(m, after, bs[i].addr, t, if i == 0 then bs[0].addr else bs[i - 1].addr, AddressOf(bs, i + 1))
    ensures HeaderIs(after, bs[k].addr, if k == i + 1 then t else AddressOf(bs, k - 1), AddressOf(bs, k + 1), bs[k].size)
    ensures UsedOf(after, bs, k)
  {
    assert LinksOf(m, bs, k) && UsedOf(m, bs, k);
    OutsideOthers(bs, lo, hi, i, k);
    Within(bs, lo, hi, k);
    if i > 0 { OutsideOthers(bs, lo, hi, i - 1, k); Ordered(bs, lo, hi, i - 1, i); }
    if i + 1 < |bs| && k != i + 1 { OutsideOthers(bs, lo, hi, i + 1, k); }
  }

  lemma RealignFirstRepresented(m: Memory, after: Memory, bs: seq<Block>, lo: int, hi: int, alignment: int)
    requires Tiles(bs, lo, hi) && 0 < lo && Headers(m, bs) && alignment > 0 && !bs[0].used
    requires var a := AlignUp(bs[0].Payload(), alignment);
      && bs[0].Payload() <= a - HEADER && a <= bs[0].End()
      && RealignEffect(m, after, bs[0].addr, a - HEADER, bs[0].addr, AddressOf(bs, 1))
    ensures Headers(after, Realign(bs, 0, alignment), 1)
  {
    var t := AlignUp(bs[0].Payload(), alignment) - HEADER;
    var r := Realign(bs, 0, alignment);
    assert LinksOf(m, bs, 0) && UsedOf(m, bs, 0);
    if 1 < |bs| { Ordered(bs, lo, hi, 0, 1); }
    forall k | 0 <= k < |r| ensures LinksOf(after, r, k) && (k != 1 ==> UsedOf(after, r, k)) {
      if k > 1 {
        RealignOther(m, after, bs, lo, hi, 0, t, k - 1);
        assert r[k] == bs[k - 1] && AddressOf(r, k + 1) == AddressOf(bs, k);
      }
    }
  }

  /** Block `k` after block `i` has been moved up, and the addresses of its neighbours. */
  lemma RealignAt(bs: seq<Block>, i: nat, alignment: int, k: nat)
    requires 0 < i < |bs| && alignment > 0 && k < |bs| && k != i && k != i - 1
    ensures var r := Realign(bs, i, alignment); var t := AlignUp(bs[i].Payload(), alignment) - HEADER;
      && |r| == |bs| && r[k] == bs[k]
      && AddressOf(r, k - 1) == (if k == i + 1 then t else AddressOf(bs, k - 1)) && AddressOf(r, k + 1) == AddressOf(bs, k + 1)
  {
  }

  lemma RealignLaterRepresented(m: Memory, after: Memory, bs: seq<Block>, lo: int, hi: int, i: nat, alignment: int)
    requires Tiles(bs, lo, hi) && 0 < lo && 0 < i < |bs| && Headers(m, bs) && alignment > 0
    requires var a := AlignUp(bs[i].Payload(), alignment);
      && bs[i].Payload() < a && a <= bs[i].End()
      && RealignEffect(m, after, bs[i].addr, a - HEADER, bs[i - 1].addr, AddressOf(bs, i + 1))
    ensures Headers(after, Realign(bs, i, alignment), i)
  {
    var t := AlignUp(bs[i].Payload(), alignment) - HEADER;
    var r := Realign(bs, i, alignment);
    assert LinksOf(m, bs, i) && LinksOf(m, bs, i - 1) && UsedOf(m, bs, i - 1);
    Ordered(bs, lo, hi, i - 1, i);
    if i + 1 < |bs| { Ordered(bs, lo, hi, i - 1, i + 1); }
    forall k | 0 <= k < |r| ensures LinksOf(after, r, k) && (k != i ==> UsedOf(after, r, k)) {
      if k != i && k != i - 1 {
        RealignOther(m, after, bs, lo, hi, i, t, k);
        RealignAt(bs, i, alignment, k);
      }
    }
  }

  lemma RealignKeepsPayloads(m: Memory, after: Memory, bs: seq<Block>, lo: int, hi: int, i: nat, t: int)
    requires Tiles(bs, lo, hi) && 0 < lo && i < |bs| && !bs[i].used
    requires bs[i].addr < t && t + HEADER <= bs[i].End()
    requires RealignEffect(m, after, bs[i].addr, t, if i == 0 then bs[0].addr else bs[i - 1].addr, AddressOf(bs, i + 1))
    ensures PayloadsKept(m, after, bs)
  {
    forall k | k in m.bytes && InLivePayload(bs, k) ensures k in after.bytes && after.bytes[k] == m.bytes[k] {
      var j :| 0 <= j < |bs| && bs[j].used && bs[j].Payload() <= k < bs[j].End();
      OutsideOthers(bs, lo, hi, i, j);
      if i > 0 { OutsideOthers(bs, lo, hi, i - 1, j); }
      if i + 1 < |bs| { OutsideOthers(bs, lo, hi, i + 1, j); }
    }
  }

  lemma RealignPreconditions(m: Memory, bs: seq<Block>, lo: int, hi: int, i: nat)
    requires Tiles(bs, lo, hi) && 0 < lo && i < |bs| && Headers(m, bs)
    ensures HeaderIs(m, bs[i].addr, AddressOf(bs, i - 1), AddressOf(bs, i + 1), bs[i].size)
    ensures lo <= bs[i].addr && bs[i].End() <= hi && (i + 1 < |bs| ==> bs[i + 1].addr == bs[i].End())
    ensures i > 0 ==>
      && HeaderIs(m, bs[i - 1].addr, AddressOf(bs, i - 2), bs[i].addr, bs[i].addr - bs[i - 1].Payload())
      && lo <= bs[i - 1].addr && bs[i - 1].Payload() <= bs[i].addr
  {
    assert LinksOf(m, bs, i) && (i > 0 ==> LinksOf(m, bs, i - 1));
    Within(bs, lo, hi, i);
    if i > 0 { Within(bs, lo, hi, i - 1); Ordered(bs, lo, hi, i - 1, i); }
  }

  lemma RealignedBlocks(m: Memory, after: Memory, bs: seq<Block>, lo: int, hi: int, i: nat, size: int, alignment: int)
    requires WellFormed(bs, lo, hi) && 0 < lo && i < |bs| && Headers(m, bs) && alignment > 0
    requires 0 <= size && Suits(bs[i], size, alignment) && bs[i].Payload() % alignment != 0
    requires i == 0 ==> GapFits(bs[0], alignment)
    requires RealignEffect(m, after, bs[i].addr, AlignUp(bs[i].Payload(), alignment) - HEADER,
                           if i == 0 then bs[0].addr else bs[i - 1].addr, AddressOf(bs, i + 1))
    ensures Headers(after, Realign(bs, i, alignment), PreparedAt(bs, i, alignment))
    ensures Allocatable(Realign(bs, i, alignment), lo, hi, PreparedAt(bs, i, alignment), size)
    ensures PayloadsKept(m, after, bs)
  {
    RealignKeeps(bs, lo, hi, i, size, alignment);
    AllOrdered(Realign(bs, i, alignment), lo, hi);
    AlignUpIsLeast(bs[i].Payload(), alignment);
    RealignKeepsPayloads(m, after, bs, lo, hi, i, AlignUp(bs[i].Payload(), alignment) - HEADER);
    if i == 0 {
      RealignFirstRepresented(m, after, bs, lo, hi, alignment);
    } else {
      RealignLaterRepresented(m, after, bs, lo, hi, i, alignment);
    }
  }

  lemma HeadersTellSize(m: Memory, bs: seq<Block>, i: nat, alignment: int)
    requires i < |bs| && alignment > 0 && bs[i].Payload() % alignment != 0
    requires Headers(m, Realign(bs, i, alignment), PreparedAt(bs, i, alignment))
    ensures var a := AlignUp(bs[i].Payload(), alignment);
      a - HEADER + SIZE in m.words && m.words[a - HEADER + SIZE] == bs[i].End() - a
  {
    var r, at := Realign(bs, i, alignment), PreparedAt(bs, i, alignment);
    assert LinksOf(m, r, at);
    assert r[at].addr == AlignUp(bs[i].Payload(), alignment) - HEADER;
  }

  /** Once all else is done, the headers describe the realigned blocks exactly when the size is right. */
  lemma RealignedExactly(m: Memory, after: Memory, bs: seq<Block>, lo: int, hi: int, i: nat, size: int, alignment: int)
    requires WellFormed(bs, lo, hi) && 0 < lo && i < |bs| && Headers(m, bs) && alignment > 0
    requires 0 <= size && Suits(bs[i], size, alignment) && bs[i].Payload() % alignment != 0
    requires i == 0 ==> GapFits(bs[0], alignment)
    requires RealignEffectButSize(m, after, bs[i].addr, AlignUp(bs[i].Payload(), alignment) - HEADER,
                                  if i == 0 then bs[0].addr else bs[i - 1].addr, AddressOf(bs, i + 1))
    ensures var a := AlignUp(bs[i].Payload(), alignment);
      Headers(after, Realign(bs, i, alignment), PreparedAt(bs, i, alignment)) <==>
        a - HEADER + SIZE in after.words && after.words[a - HEADER + SIZE] == bs[i].End() - a
  {
    var a := AlignUp(bs[i].Payload(), alignment);
    assert LinksOf(m, bs, i);
    if Headers(after, Realign(bs, i, alignment), PreparedAt(bs, i, alignment)) {
      HeadersTellSize(after, bs, i, alignment);
    }
    if a - HEADER + SIZE in after.words && after.words[a - HEADER + SIZE] == bs[i].End() - a {
      RealignedBlocks(m, after, bs, lo, hi, i, size, alignment);
    }
  }

  /** Bytes in the payloads of a realigned list were in the payloads of the list it came from. */
  lemma RealignWidens(bs: seq<Block>, i: nat, alignment: int, k: int)
    requires i < |bs| && alignment > 0 && !bs[i].used
    requires InLivePayload(bs, k)
    ensures InLivePayload(Realign(bs, i, alignment), k)
  {
    var r := Realign(bs, i, alignment);
    var j :| 0 <= j < |bs| && bs[j].used && bs[j].Payload() <= k < bs[j].End();
    var l := if i == 0 then j + 1 else j;
    assert r[l].used && r[l].Payload() <= k < r[l].End();
  }

  lemma PayloadsKeptThrough(m: Memory, mid: Memory, after: Memory, bs: seq<Block>, i: nat, alignment: int)
    requires i < |bs| && alignment > 0 && !bs[i].used
    requires PayloadsKept(m, mid, bs) && PayloadsKept(mid, after, Prepared(bs, i, alignment))
    ensures PayloadsKept(m, after, bs)
  {
    forall k | k in m.bytes && InLivePayload(bs, k) ensures k in after.bytes && after.bytes[k] == m.bytes[k] {
      RealignWidens(bs, i, alignment, k);
    }
  }

  lemma ReleaseFacts(bs: seq<Block>, lo: int, hi: int, i: nat)
    requires WellFormed(bs, lo, hi) && i < |bs|
    ensures BlockAt(bs, bs[i].Payload()) == i
    ensures WellFormed(Release(bs, i), lo, hi)
    ensures var freed := bs[i := bs[i].(used := false)];
      && Tiles(freed, lo, hi)
      && (i > 0 && !freed[i - 1].used ==> Tiles(Merge(freed, i - 1), lo, hi) && !Merge(freed, i - 1)[i - 1].used)
  {
    BlockAtIs(bs, lo, hi, i);
    ReleaseKeeps(bs, lo, hi, i);
    JoinBack(bs, lo, hi, i);
  }

  lemma MergeKeepsLivePayload(bs: seq<Block>, i: nat, k: int)
    requires i + 1 < |bs| && !bs[i].used && !bs[i + 1].used && InLivePayload(bs, k)
    ensures InLivePayload(Merge(bs, i), k)
  {
    var j :| 0 <= j < |bs| && bs[j].used && bs[j].Payload() <= k < bs[j].End();
    var l := if j < i then j else j - 1;
    assert Merge(bs, i)[l] == bs[j];
  }

  lemma KeptThroughJoin(m1: Memory, m2: Memory, m3: Memory, freed: seq<Block>, i: nat)
    requires i < |freed| && !freed[i].used && PayloadsKept(m1, m2, freed)
    requires PayloadsKept(m2, m3, if i > 0 && !freed[i - 1].used then Merge(freed, i - 1) else freed)
    ensures PayloadsKept(m1, m3, freed)
  {
    forall k | k in m1.bytes && InLivePayload(freed, k) ensures k in m3.bytes && m3.bytes[k] == m1.bytes[k] {
      if i > 0 && !freed[i - 1].used { MergeKeepsLivePayload(freed, i - 1, k); }
    }
  }

  lemma KeptThroughRelease(m: Memory, m1: Memory, m3: Memory, bs: seq<Block>, i: nat)
    requires i < |bs| && PayloadsKept(m, m1, bs) && PayloadsKept(m1, m3, bs[i := bs[i].(used := false)])
    ensures PayloadsKept(m, m3, bs[i := bs[i].(used := false)])
  {
    var freed := bs[i := bs[i].(used := false)];
    forall k | k in m.bytes && InLivePayload(freed, k) ensures k in m3.bytes && m3.bytes[k] == m.bytes[k] {
      var j :| 0 <= j < |freed| && freed[j].used && freed[j].Payload() <= k < freed[j].End();
      assert bs[j] == freed[j];
    }
  }

  /** The search of a safe request misjudges no block that it comes to. */
  lemma NotMisjudged(bs: seq<Block>, lo: int, hi: int, i: nat, size: int, alignment: int)
    requires Tiles(bs, lo, hi) && 0 < lo && hi < WORD && 0 <= size < WORD && 0 < alignment < WORD
    requires SafeRequest(bs, size, alignment) && i < |bs| && FirstFit(bs, size, alignment) == FirstFit(bs, size, alignment, i)
    ensures !Misjudged(bs[i], size, alignment)
    ensures i == 0 && Suits(bs[0], size, alignment) ==> GapFits(bs[0], alignment)
  {
    AllFit32(bs, lo, hi, size, alignment);
    assert bs[i] in bs;
    JudgedExactly(bs[i], size, alignment);
  }

  // ----- The heap ------------------------------------------------------------------------------------------

  class Heap {
    var heapStart: int
    var heapEnd: int
    var heapSize: int
    var first: int
    const ram: Ram

    /** The blocks that the headers in memory describe. */
    ghost var blocks: seq<Block>

    ghost predicate Bounded()
      reads this
    {
      && 0 < heapStart && heapEnd < WORD && heapSize == heapEnd - heapStart
      && first == heapStart && Tiles(blocks, heapStart, heapEnd)
    }

    ghost predicate Valid()
      reads this, ram
    {
      Bounded() && Coalesced(blocks) && Headers(ram.mem, blocks)
    }

    /** Block `i` has been chosen, and only its `used` field is still to be set. */
    ghost predicate Chosen(i: nat, size: int)
      reads this, ram
    {
      Bounded() && Headers(ram.mem, blocks, i) && Allocatable(blocks, heapStart, heapEnd, i, size)
    }

    /** kheap_init: one free block, filled with zeros. */
    constructor (start: int, end: int, ram: Ram)
      requires 0 < start && start + HEADER <= end < WORD
      modifies ram
      ensures Valid() && heapStart == start && heapEnd == end && this.ram == ram
      ensures blocks == [Block(start, end - start - HEADER, false)]
      ensures forall k :: start + HEADER <= k < end ==> k in ram.mem.bytes && ram.mem.bytes[k] == 0
      ensures KeptOutside(old(ram.mem), ram.mem, start, end, start, end, 0)
    {
      heapStart, heapEnd, heapSize, first := start, end, end - start, start;
      this.ram := ram;
      blocks := [Block(start, end - start - HEADER, false)];
      new;
      ram.Clear(start, end);
      ram.Store(start + USED, 0);
      ram.Store(start + PREV, 0);
      ram.Store(start + NEXT, 0);
      ram.Store(start + SIZE, end - start - HEADER);
    }

    /** The stores that fill in the header of a new free block. */
    method NewHeader(tmp: int, size: int, prev: int, next: int)
      requires 0 <= size < WORD && 0 <= prev < WORD && 0 <= next < WORD
      modifies ram
      ensures HeaderIs(ram.mem, tmp, prev, next, size) && tmp + USED in ram.mem.words && ram.mem.words[tmp + USED] == 0
      ensures KeptOutside(old(ram.mem), ram.mem, tmp, tmp + HEADER, tmp, tmp + HEADER, 0)
    {
      ram.Store(tmp + USED, 0);
      ram.Store(tmp + SIZE, size);
      ram.Store(tmp + PREV, prev);
      ram.Store(tmp + NEXT, next);
    }

    /** The header stores that split `tmp` off the block at `result`. */
    method SplitOff(result: int, size: int, ghost n: int)
      requires 0 < result && 0 <= size
      requires result + PREV in ram.mem.words && result + SIZE in ram.mem.words
      requires HeaderIs(ram.mem, result, ram.mem.words[result + PREV], n, ram.mem.words[result + SIZE])
      requires size + HEADER < ram.mem.words[result + SIZE] && result + HEADER + ram.mem.words[result + SIZE] < WORD
      requires n == 0 || n == result + HEADER + ram.mem.words[result + SIZE]
      modifies ram
      ensures SplitEffect(old(ram.mem), ram.mem, result, result + HEADER + size, n)
    {
      var tmp := result + HEADER + size;
      NewHeader(tmp, U32(ram.mem.words[result + SIZE] - size - HEADER), result, ram.mem.words[result + NEXT]);
      if ram.mem.words[tmp + NEXT] != 0 {
        ram.Store(ram.mem.words[tmp + NEXT] + PREV, tmp);
      }
      Shrink(result, size, tmp);
    }

    /** The block at `result` is given a new size and a new block behind it. */
    method Shrink(result: int, size: int, tmp: int)
      requires 0 <= size < WORD && 0 <= tmp < WORD && result + PREV in ram.mem.words
      modifies ram
      ensures HeaderIs(ram.mem, result, old(ram.mem.words[result + PREV]), tmp, size)
      ensures KeptOutside(old(ram.mem), ram.mem, result + NEXT, result + HEADER, result + NEXT, result + HEADER, 0)
    {
      ram.Store(result + SIZE, size);
      ram.Store(result + NEXT, tmp);
    }

    /** The splitting that kmalloc and kmalloc_alligned end with, and the mark in the header. */
    method Carve(result: int, size: int, ghost i: nat)
      requires Chosen(i, size) && result == blocks[i].addr
      modifies ram, this`blocks
      ensures Valid() && blocks == Take(old(blocks), i, size)
      ensures PayloadsKept(old(ram.mem), ram.mem, old(blocks))
    {
      ghost var bs := blocks;
      TakeKeeps(bs, heapStart, heapEnd, i, size);
      Within(bs, heapStart, heapEnd, i);
      assert LinksOf(ram.mem, bs, i);
      if ram.mem.words[result + SIZE] >= U32(size + HEADER + 1) {
        CarveSplit(result, size, i);
      } else {
        CarveWhole(result, i);
      }
      blocks := Take(bs, i, size);
      AllOrdered(blocks, heapStart, heapEnd);
    }

    method CarveSplit(result: int, size: int, ghost i: nat)
      requires Chosen(i, size) && result == blocks[i].addr && size + HEADER + 1 <= blocks[i].size
      modifies ram
      ensures Headers(ram.mem, Take(blocks, i, size)) && PayloadsKept(old(ram.mem), ram.mem, blocks)
    {
      ghost var bs, m := blocks, ram.mem;
      RealignPreconditionsOf(m, bs, heapStart, heapEnd, i);
      SplitOff(result, size, AddressOf(bs, i + 1));
      SplitKeepsPayloads(m, ram.mem, bs, heapStart, heapEnd, i, size);
      ghost var split := ram.mem;
      ram.Store(result + USED, 1);
      MarkKeepsPayloads(split, ram.mem, bs, heapStart, heapEnd, i, 1);
      MarkKeepsSplit(m, split, ram.mem, bs, heapStart, heapEnd, i, size);
      SplitRepresented(m, ram.mem, bs, heapStart, heapEnd, i, size);
    }

    method CarveWhole(result: int, ghost i: nat)
      requires Bounded() && i < |blocks| && Headers(ram.mem, blocks, i) && result == blocks[i].addr
      modifies ram
      ensures Headers(ram.mem, blocks[i := blocks[i].(used := true)]) && PayloadsKept(old(ram.mem), ram.mem, blocks)
    {
      ghost var bs, m := blocks, ram.mem;
      ram.Store(result + USED, 1);
      MarkRepresented(m, ram.mem, bs, heapStart, heapEnd, i, true);
      MarkKeepsPayloads(m, ram.mem, bs, heapStart, heapEnd, i, 1);
    }

    /** The block before is given a free block of `size` bytes, header and all, and is followed by `next`. */
    method GrowPrevious(prev: int, size: int, next: int)
      requires prev + PREV in ram.mem.words && prev + SIZE in ram.mem.words && 0 <= next < WORD
      modifies ram
      ensures HeaderIs(ram.mem, prev, old(ram.mem.words[prev + PREV]), next, U32(old(ram.mem.words[prev + SIZE]) + U32(size + HEADER)))
      ensures KeptOutside(old(ram.mem), ram.mem, prev + NEXT, prev + HEADER, prev + NEXT, prev + HEADER, 0)
    {
      ram.Store(prev + SIZE, U32(ram.mem.words[prev + SIZE] + U32(size + HEADER)));
      ram.Store(prev + NEXT, next);
    }

    /** The first half of the realignment branch: the block at `start` gives up the gap before `aligned`. */
    method GiveGap(start: int, aligned: int, ghost p: int) returns (block: int)
      requires start + SIZE in ram.mem.words && p + PREV in ram.mem.words && p + SIZE in ram.mem.words
      requires start + PREV in ram.mem.words && ram.mem.words[start + PREV] == if p == start then 0 else p
      requires 0 < p && start + HEADER < aligned <= start + HEADER + ram.mem.words[start + SIZE] < WORD
      requires if p == start then start + HEADER <= aligned - HEADER
               else p + NEXT in ram.mem.words && p + HEADER <= start && ram.mem.words[p + SIZE] == start - p - HEADER
      modifies ram
      ensures block == p
      ensures HeaderIs(ram.mem, p, old(ram.mem.words[p + PREV]), aligned - HEADER, aligned - HEADER - p - HEADER)
      ensures KeptOutside(old(ram.mem), ram.mem, p + NEXT, p + HEADER, start + NEXT, start + HEADER, 0)
    {
      block := start;
      ram.Store(block + NEXT, aligned - HEADER);
      // Below zero, and so wrapped, when the gap is smaller than a header.
      ram.Store(block + SIZE, U32(ram.mem.words[block + NEXT] - block - HEADER));
      if ram.mem.words[block + PREV] != 0 {
        var prev := ram.mem.words[block + PREV];
        GrowPrevious(prev, ram.mem.words[block + SIZE], ram.mem.words[block + NEXT]);
        block := prev;
      }
    }

    /** The second half, as written: the block moved up is linked in. */
    method LinkMoved(prev: int, oldNext: int, ghost oldEnd: int) returns (block: int)
      requires prev + NEXT in ram.mem.words && prev + PREV in ram.mem.words && prev + SIZE in ram.mem.words
      requires var t := ram.mem.words[prev + NEXT]; 0 < prev && prev + HEADER <= t && t + HEADER <= oldEnd < WORD
      requires oldNext == 0 || oldNext == oldEnd
      modifies ram
      ensures block == old(ram.mem.words[prev + NEXT])
      ensures block + PREV in ram.mem.words && ram.mem.words[block + PREV] == prev
      ensures block + NEXT in ram.mem.words && ram.mem.words[block + NEXT] == oldNext
      ensures oldNext != 0 ==> oldNext + PREV in ram.mem.words && ram.mem.words[oldNext + PREV] == block
      ensures KeptOutside(old(ram.mem), ram.mem, block + PREV, block + HEADER, block + PREV, block + HEADER, oldNext)
    {
      ram.Store(ram.mem.words[prev + NEXT] + PREV, prev);
      block := ram.mem.words[prev + NEXT];
      ram.Store(block + NEXT, oldNext);
      if oldNext != 0 {
        ram.Store(oldNext + PREV, block);
      }
    }

    /** The realignment branch, as written. */
    method MoveUpAsWritten(start: int, aligned: int, ghost p: int, ghost n: int) returns (result: int)
      requires start + PREV in ram.mem.words && start + SIZE in ram.mem.words && p + PREV in ram.mem.words && p + SIZE in ram.mem.words
      requires HeaderIs(ram.mem, start, if p == start then 0 else p, n, ram.mem.words[start + SIZE])
      requires 0 < p && start + HEADER < aligned <= start + HEADER + ram.mem.words[start + SIZE] < WORD
      requires n == 0 || n == start + HEADER + ram.mem.words[start + SIZE]
      requires if p == start then start + HEADER <= aligned - HEADER
               else HeaderIs(ram.mem, p, ram.mem.words[p + PREV], start, start - p - HEADER) && p + HEADER <= start
      modifies ram
      ensures result == aligned - HEADER && RealignEffectButSize(old(ram.mem), ram.mem, start, result, p, n)
    {
      var oldNext := ram.mem.words[start + NEXT];
      ghost var oldEnd := start + HEADER + ram.mem.words[start + SIZE];
      var prev := GiveGap(start, aligned, p);
      result := LinkMoved(prev, oldNext, oldEnd);
    }

    /** The realignment branch, where repair H1 sets the size as well. */
    method MoveUp(start: int, aligned: int, ghost p: int, ghost n: int) returns (result: int)
      requires start + PREV in ram.mem.words && start + SIZE in ram.mem.words && p + PREV in ram.mem.words && p + SIZE in ram.mem.words
      requires HeaderIs(ram.mem, start, if p == start then 0 else p, n, ram.mem.words[start + SIZE])
      requires 0 < p && start + HEADER < aligned <= start + HEADER + ram.mem.words[start + SIZE] < WORD
      requires n == 0 || n == start + HEADER + ram.mem.words[start + SIZE]
      requires if p == start then start + HEADER <= aligned - HEADER
               else HeaderIs(ram.mem, p, ram.mem.words[p + PREV], start, start - p - HEADER) && p + HEADER <= start
      modifies ram
      ensures RealignEffect(old(ram.mem), ram.mem, start, aligned - HEADER, p, n)
      ensures result == aligned - HEADER
    {
      var oldEnd := start + HEADER + ram.mem.words[start + SIZE];
      result := MoveUpAsWritten(start, aligned, p, n);
      ram.Store(result + SIZE, oldEnd - (result + HEADER));  // repair H1
    }

    /** Without repair H1 the headers describe the realigned blocks exactly when the word at the size field of the
        moved header was intact and, by chance, right. */
    method RealignAsWritten(block: int, aligned: int, ghost i: nat, ghost size: int, ghost alignment: int) returns (result: int)
      requires Valid() && 0 <= size && 0 < alignment && i < |blocks| && blocks[i].addr == block
      requires Suits(blocks[i], size, alignment) && blocks[i].Payload() % alignment != 0
      requires aligned == AlignUp(blocks[i].Payload(), alignment)
      requires i == 0 ==> GapFits(blocks[0], alignment)
      modifies ram
      ensures result == aligned - HEADER
      ensures Headers(ram.mem, Realign(blocks, i, alignment), PreparedAt(blocks, i, alignment)) <==>
        result + SIZE in ram.mem.words && ram.mem.words[result + SIZE] == blocks[i].End() - aligned
    {
      ghost var bs, m := blocks, ram.mem;
      ghost var before := if i == 0 then block else bs[i - 1].addr;
      RealignPreconditions(m, bs, heapStart, heapEnd, i);
      AlignUpIsLeast(bs[i].Payload(), alignment);
      result := MoveUpAsWritten(block, aligned, before, AddressOf(bs, i + 1));
      RealignedExactly(m, ram.mem, bs, heapStart, heapEnd, i, size, alignment);
    }

    /** The realignment of free block `i`. */
    method RealignBlock(block: int, aligned: int, ghost i: nat, ghost size: int, ghost alignment: int) returns (result: int)
      requires Valid() && 0 <= size && 0 < alignment && i < |blocks| && blocks[i].addr == block
      requires Suits(blocks[i], size, alignment) && blocks[i].Payload() % alignment != 0
      requires aligned == AlignUp(blocks[i].Payload(), alignment)
      requires i == 0 ==> GapFits(blocks[0], alignment)
      modifies ram, this`blocks
      ensures blocks == Realign(old(blocks), i, alignment)
      ensures Bounded() && Headers(ram.mem, blocks, PreparedAt(old(blocks), i, alignment))
      ensures Allocatable(blocks, heapStart, heapEnd, PreparedAt(old(blocks), i, alignment), size)
      ensures result == aligned - HEADER
      ensures PayloadsKept(old(ram.mem), ram.mem, old(blocks))
    {
      ghost var bs, m := blocks, ram.mem;
      ghost var before := if i == 0 then block else bs[i - 1].addr;
      RealignPreconditions(m, bs, heapStart, heapEnd, i);
      AlignUpIsLeast(bs[i].Payload(), alignment);
      result := MoveUp(block, aligned, before, AddressOf(bs, i + 1));
      RealignedBlocks(m, ram.mem, bs, heapStart, heapEnd, i, size, alignment);
      blocks := Realign(bs, i, alignment);
    }

    /** The realignment branch of the search, entered at free block `i`, whose payload is not aligned. */
    method TryRealigned(block: int, size: int, alignment: int, ghost i: nat) returns (result: int)
      requires Valid() && 0 <= size < WORD && 0 < alignment < WORD
      requires i < |blocks| && blocks[i].addr == block && !blocks[i].used && blocks[i].Payload() % alignment != 0
      requires !Misjudged(blocks[i], size, alignment)
      requires i == 0 && Suits(blocks[0], size, alignment) ==> GapFits(blocks[0], alignment)
      modifies ram, this`blocks
      ensures result != 0 <==> Suits(old(blocks[i]), size, alignment)
      ensures result == 0 ==> ram.mem == old(ram.mem) && blocks == old(blocks)
      ensures result != 0 ==> Found(old(blocks), i, size, alignment, result)
      ensures PayloadsKept(old(ram.mem), ram.mem, old(blocks))
    {
      ghost var bs, m := blocks, ram.mem;
      RealignPreconditions(m, bs, heapStart, heapEnd, i);
      AlignUpIsLeast(bs[i].Payload(), alignment);
      JudgedExactly(bs[i], size, alignment);
      result := 0;
      var aligned := U32((1 + (block + HEADER - 1) / alignment) * alignment);
      assert aligned == U32(AlignUp(bs[i].Payload(), alignment));
      if U32(aligned + size) > block + HEADER + ram.mem.words[block + SIZE] {
        return;
      }
      if U32(block + HEADER + ram.mem.words[block + SIZE] - aligned) >= U32(size + HEADER) {
        assert Judged(bs[i], size, alignment);
        result := RealignBlock(block, aligned, i, size, alignment);
      }
    }

    /** The search has settled on what was block `i` of `bs`, at the address `result`. */
    ghost predicate Found(bs: seq<Block>, i: nat, size: int, alignment: int, result: int)
      requires i < |bs| && alignment > 0
      reads this, ram
    {
      && blocks == Prepared(bs, i, alignment)
      && Chosen(PreparedAt(bs, i, alignment), size)
      && result == blocks[PreparedAt(bs, i, alignment)].addr
      && result != 0
    }

    /** One turn of the search loop of kmalloc_alligned, at block `i`. */
    method Probe(block: int, size: int, alignment: int, ghost i: nat) returns (result: int)
      requires Valid() && 0 <= size < WORD && 0 < alignment < WORD
      requires i < |blocks| && blocks[i].addr == block && !Misjudged(blocks[i], size, alignment)
      requires i == 0 && Suits(blocks[0], size, alignment) ==> GapFits(blocks[0], alignment)
      modifies ram, this`blocks
      ensures result != 0 <==> Suits(old(blocks[i]), size, alignment)
      ensures result == 0 ==> ram.mem == old(ram.mem) && blocks == old(blocks)
      ensures result != 0 ==> Found(old(blocks), i, size, alignment, result)
      ensures PayloadsKept(old(ram.mem), ram.mem, old(blocks))
    {
      assert LinksOf(ram.mem, blocks, i) && UsedOf(ram.mem, blocks, i);
      Within(blocks, heapStart, heapEnd, i);
      result := 0;
      if ram.mem.words[block + USED] == 0 {
        if (block + HEADER) % alignment != 0 {
          result := TryRealigned(block, size, alignment, i);
        } else if ram.mem.words[block + SIZE] > size {
          result := block;
        }
      }
    }

    /** The search of kmalloc_alligned. */
    method Search(size: int, alignment: int) returns (result: int)
      requires Valid() && 0 <= size < WORD && 0 < alignment < WORD && SafeRequest(blocks, size, alignment)
      modifies ram, this`blocks
      ensures var bs := old(blocks); var i := FirstFit(bs, size, alignment);
        if i == |bs| then result == 0 && blocks == bs && ram.mem == old(ram.mem)
        else Found(bs, i, size, alignment, result)
      ensures PayloadsKept(old(ram.mem), ram.mem, old(blocks))
    {
      result := 0;
      var block := first;
      ghost var bs, m := blocks, ram.mem;
      ghost var i := 0;
      AllOrdered(bs, heapStart, heapEnd);
      while block != 0
        invariant 0 <= i <= |bs| && forall j :: 0 <= j < |bs| ==> bs[j].addr > 0
        invariant FirstFit(bs, size, alignment) == FirstFit(bs, size, alignment, i)
        invariant result == 0 && blocks == bs && ram.mem == m && block == AddressOf(bs, i)
        decreases |bs| - i
      {
        assert LinksOf(m, bs, i);
        NotMisjudged(bs, heapStart, heapEnd, i, size, alignment);
        var next := ram.mem.words[block + NEXT];
        result := Probe(block, size, alignment, i);
        if result != 0 {
          return;
        }
        block := next;
        i := i + 1;
      }
    }

    method KmallocAligned(size: int, alignment: int) returns (r: Allocation)
      requires Valid() && 0 <= size < WORD && 0 < alignment < WORD && SafeRequest(blocks, size, alignment)
      modifies ram, this`blocks
      ensures Valid()
      ensures blocks == AllocateAligned(old(blocks), size, alignment)
      ensures r == AlignedPointer(old(blocks), size, alignment)
      ensures PayloadsKept(old(ram.mem), ram.mem, old(blocks))
    {
      ghost var bs, m := blocks, ram.mem;
      var result := Search(size, alignment);
      if result == 0 {
        return Panic;
      }
      ghost var i := FirstFit(bs, size, alignment);
      ghost var mid := ram.mem;
      Carve(result, size, PreparedAt(bs, i, alignment));
      r := Pointer(result + HEADER);
      PayloadsKeptThrough(m, mid, ram.mem, bs, i, alignment);
    }

    /** The search of kmalloc for a single byte, which asks for no alignment. */
    method SearchUnaligned(size: int) returns (result: int)
      requires Valid()
      ensures var i := FirstFit(blocks, size, 1); result == AddressOf(blocks, i)
      ensures result == 0 <==> FirstFit(blocks, size, 1) == |blocks|
    {
      result := 0;
      var block := first;
      ghost var i := 0;
      AllOrdered(blocks, heapStart, heapEnd);
      while block != 0
        invariant 0 <= i <= |blocks| && FirstFit(blocks, size, 1) == FirstFit(blocks, size, 1, i)
        invariant forall j :: 0 <= j < |blocks| ==> blocks[j].addr > 0
        invariant result == 0 && block == AddressOf(blocks, i)
        decreases |blocks| - i
      {
        assert LinksOf(ram.mem, blocks, i) && UsedOf(ram.mem, blocks, i);
        var next := ram.mem.words[block + NEXT];
        if ram.mem.words[block + SIZE] > size && ram.mem.words[block + USED] == 0 {
          result := block;
          return;
        }
        block := next;
        i := i + 1;
      }
    }

    method Kmalloc(size: int) returns (r: Allocation)
      requires Valid() && 0 <= size < WORD && (size != 1 ==> SafeRequest(blocks, size, 4))
      modifies ram, this`blocks
      ensures Valid()
      ensures r == Answer(old(blocks), Malloc(size)) && blocks == Serve(old(blocks), Malloc(size))
      ensures size != 1 ==> r == AlignedPointer(old(blocks), size, 4) && blocks == AllocateAligned(old(blocks), size, 4)
      ensures PayloadsKept(old(ram.mem), ram.mem, old(blocks))
    {
      if size != 1 {
        r := KmallocAligned(size, 4);
        return;
      }
      var result := SearchUnaligned(size);
      if result == 0 {
        return Null;
      }
      Carve(result, size, FirstFit(blocks, size, 1));
      r := Pointer(result + HEADER);
    }

    /** The stores that run the block at `tmp` together with the one before it. */
    method StoreJoinPrevious(tmp: int, ghost p: int, ghost n: int)
      requires tmp + SIZE in ram.mem.words && p + PREV in ram.mem.words && p + SIZE in ram.mem.words
      requires HeaderIs(ram.mem, tmp, p, n, ram.mem.words[tmp + SIZE]) && 0 < p && 0 <= ram.mem.words[tmp + SIZE]
      requires HeaderIs(ram.mem, p, ram.mem.words[p + PREV], tmp, tmp - p - HEADER) && p + HEADER <= tmp
      requires tmp + HEADER + ram.mem.words[tmp + SIZE] < WORD && (n == 0 || n == tmp + HEADER + ram.mem.words[tmp + SIZE])
      modifies ram
      ensures MergeEffect(old(ram.mem), ram.mem, p, n, old(ram.mem.words[p + SIZE]) + HEADER + old(ram.mem.words[tmp + SIZE]))
      ensures tmp + PREV in ram.mem.words && ram.mem.words[tmp + PREV] == p
    {
      var prev := ram.mem.words[tmp + PREV];
      ram.Store(prev + SIZE, U32(ram.mem.words[prev + SIZE] + HEADER + ram.mem.words[tmp + SIZE]));
      ram.Store(prev + NEXT, ram.mem.words[tmp + NEXT]);
      if ram.mem.words[tmp + NEXT] != 0 {
        ram.Store(ram.mem.words[tmp + NEXT] + PREV, ram.mem.words[tmp + PREV]);
      }
    }

    /** The stores that run the block at `tmp` together with the one after it, at `q`. */
    method StoreJoinNext(tmp: int, ghost q: int, ghost n: int)
      requires tmp + PREV in ram.mem.words && tmp + SIZE in ram.mem.words && q + SIZE in ram.mem.words
      requires HeaderIs(ram.mem, tmp, ram.mem.words[tmp + PREV], q, q - tmp - HEADER) && 0 < tmp && tmp + HEADER <= q
      requires HeaderIs(ram.mem, q, tmp, n, ram.mem.words[q + SIZE]) && 0 <= ram.mem.words[q + SIZE]
      requires q + HEADER + ram.mem.words[q + SIZE] < WORD && (n == 0 || n == q + HEADER + ram.mem.words[q + SIZE])
      modifies ram
      ensures MergeEffect(old(ram.mem), ram.mem, tmp, n, old(ram.mem.words[tmp + SIZE]) + HEADER + old(ram.mem.words[q + SIZE]))
    {
      ram.Store(tmp + SIZE, U32(ram.mem.words[tmp + SIZE] + HEADER + ram.mem.words[ram.mem.words[tmp + NEXT] + SIZE]));
      ram.Store(tmp + NEXT, ram.mem.words[ram.mem.words[tmp + NEXT] + NEXT]);
      if ram.mem.words[tmp + NEXT] != 0 {
        ram.Store(ram.mem.words[tmp + NEXT] + PREV, tmp);
      }
    }

    /** The first half of kfree: block `i`, just released, joins the block before it if that is free. */
    method JoinPrevious(start: int, ghost i: nat) returns (tmp: int)
      requires Bounded() && Headers(ram.mem, blocks) && i < |blocks| && start == blocks[i].addr && !blocks[i].used
      modifies ram, this`blocks
      ensures Headers(ram.mem, blocks) && PayloadsKept(old(ram.mem), ram.mem, old(blocks))
      ensures if i > 0 && !old(blocks)[i - 1].used then blocks == Merge(old(blocks), i - 1) && tmp == blocks[i - 1].addr
              else blocks == old(blocks) && tmp == start
    {
      ghost var bs, m := blocks, ram.mem;
      RealignPreconditions(m, bs, heapStart, heapEnd, i);
      assert i > 0 ==> UsedOf(m, bs, i - 1);
      tmp := start;
      if ram.mem.words[tmp + PREV] != 0 && ram.mem.words[ram.mem.words[tmp + PREV] + USED] == 0 {
        StoreJoinPrevious(tmp, bs[i - 1].addr, AddressOf(bs, i + 1));
        MergeRepresented(m, ram.mem, bs, heapStart, heapEnd, i - 1);
        MergeKeepsPayloads(m, ram.mem, bs, heapStart, heapEnd, i - 1);
        tmp := ram.mem.words[tmp + PREV];
        blocks := Merge(bs, i - 1);
      }
    }

    /** The second half of kfree: block `i` joins the block after it if that is free. */
    method JoinNext(tmp: int, ghost i: nat)
      requires Bounded() && Headers(ram.mem, blocks) && i < |blocks| && tmp == blocks[i].addr && !blocks[i].used
      modifies ram, this`blocks
      ensures Headers(ram.mem, blocks) && PayloadsKept(old(ram.mem), ram.mem, old(blocks))
      ensures var bs := old(blocks);
        blocks == if i + 1 < |bs| && !bs[i + 1].used then Merge(bs, i) else bs
    {
      ghost var bs, m := blocks, ram.mem;
      assert i + 1 < |bs| ==> UsedOf(m, bs, i + 1);
      RealignPreconditions(m, bs, heapStart, heapEnd, i);
      if i + 1 < |bs| { RealignPreconditions(m, bs, heapStart, heapEnd, i + 1); }
      if ram.mem.words[tmp + NEXT] != 0 && ram.mem.words[ram.mem.words[tmp + NEXT] + USED] == 0 {
        StoreJoinNext(tmp, bs[i + 1].addr, AddressOf(bs, i + 2));
        MergeRepresented(m, ram.mem, bs, heapStart, heapEnd, i);
        MergeKeepsPayloads(m, ram.mem, bs, heapStart, heapEnd, i);
        blocks := Merge(bs, i);
      }
    }

    /** The store that kfree begins with. */
    method MarkFree(tmp: int, ghost i: nat)
      requires Valid() && i < |blocks| && tmp == blocks[i].addr
      modifies ram, this`blocks
      ensures Bounded() && Headers(ram.mem, blocks)
      ensures blocks == old(blocks)[i := old(blocks)[i].(used := false)]
      ensures PayloadsKept(old(ram.mem), ram.mem, old(blocks))
    {
      ghost var bs, m := blocks, ram.mem;
      ReleaseFacts(bs, heapStart, heapEnd, i);
      ram.Store(tmp + USED, 0);
      MarkRepresented(m, ram.mem, bs, heapStart, heapEnd, i, false);
      MarkKeepsPayloads(m, ram.mem, bs, heapStart, heapEnd, i, 0);
      blocks := bs[i := bs[i].(used := false)];
    }

    /** Both halves: block `i`, just released, joins its free neighbours. */
    method Join(tmp: int, ghost i: nat)
      requires Bounded() && Headers(ram.mem, blocks) && i < |blocks| && tmp == blocks[i].addr && !blocks[i].used
      requires i > 0 && !blocks[i - 1].used ==> Tiles(Merge(blocks, i - 1), heapStart, heapEnd) && !Merge(blocks, i - 1)[i - 1].used
      modifies ram, this`blocks
      ensures Headers(ram.mem, blocks) && blocks == Joined(old(blocks), i)
      ensures PayloadsKept(old(ram.mem), ram.mem, old(blocks))
    {
      ghost var freed, m1 := blocks, ram.mem;
      var block := JoinPrevious(tmp, i);
      ghost var m2 := ram.mem;
      JoinNext(block, if i > 0 && !freed[i - 1].used then i - 1 else i);
      KeptThroughJoin(m1, m2, ram.mem, freed, i);
    }

    /** kfree of the payload of block `i`. */
    method Kfree(p: int, ghost i: nat)
      requires Valid() && i < |blocks| && p == blocks[i].Payload()
      modifies ram, this`blocks
      ensures Valid()
      ensures blocks == Free(old(blocks), p)
      ensures PayloadsKept(old(ram.mem), ram.mem, old(blocks)[i := old(blocks)[i].(used := false)])
    {
      ghost var bs, m := blocks, ram.mem;
      ReleaseFacts(bs, heapStart, heapEnd, i);
      var tmp := p - HEADER;
      MarkFree(tmp, i);
      ghost var m1 := ram.mem;
      Join(tmp, i);
      KeptThroughRelease(m, m1, ram.mem, bs, i);
    }
  }

  // ----- Whole runs ------------------------------------------------------------------------------------------

  /** The blocks whose payloads a request leaves alone. */
  function Spared(bs: seq<Block>, q: Request): seq<Block> {
    if q.Kfree? && BlockAt(bs, q.p) < |bs| then bs[BlockAt(bs, q.p) := bs[BlockAt(bs, q.p)].(used := false)] else bs
  }

  /** Whatever was stored in the payload of `b` is still there. */
  ghost predicate BytesKept(m: Memory, after: Memory, b: Block) {
    forall k :: k in m.bytes && b.Payload() <= k < b.End() ==> k in after.bytes && after.bytes[k] == m.bytes[k]
  }

  /** Every block that was in use and has not been freed is in use, no smaller than it was, with its bytes. */
  ghost predicate KeptSoFar(bs0: seq<Block>, m0: Memory, qs: seq<Request>, bs: seq<Block>, m: Memory) {
    forall b :: b in bs0 && b.used && Kfree(b.Payload()) !in qs ==> Survives(b, bs) && BytesKept(m0, m, b)
  }

  lemma BytesStay(m0: Memory, m: Memory, after: Memory, bs: seq<Block>, q: Request, b: Block)
    requires BytesKept(m0, m, b) && Survives(b, bs) && q != Kfree(b.Payload()) && PayloadsKept(m, after, Spared(bs, q))
    ensures BytesKept(m0, after, b)
  {
    var c :| c in bs && c.used && c.addr == b.addr && c.size >= b.size;
    var j :| 0 <= j < |bs| && bs[j] == c;
    assert Spared(bs, q)[j] == c;
    forall k | k in m0.bytes && b.Payload() <= k < b.End() ensures k in after.bytes && after.bytes[k] == m0.bytes[k] {
      assert InLivePayload(Spared(bs, q), k);
    }
  }

  lemma KeptMore(bs0: seq<Block>, m0: Memory, qs: seq<Request>, bs: seq<Block>, lo: int, hi: int, m: Memory, q: Request, after: Memory)
    requires WellFormed(bs, lo, hi) && 0 < lo
    requires KeptSoFar(bs0, m0, qs, bs, m) && PayloadsKept(m, after, Spared(bs, q))
    ensures KeptSoFar(bs0, m0, qs + [q], Serve(bs, q), after)
  {
    forall b | b in bs0 && b.used && Kfree(b.Payload()) !in qs + [q] ensures Survives(b, Serve(bs, q)) && BytesKept(m0, after, b) {
      assert Kfree(b.Payload()) !in qs && q != Kfree(b.Payload());
      BytesStay(m0, m, after, bs, q, b);
      var c :| c in bs && c.used && c.addr == b.addr && c.size >= b.size;
      ServeSurvives(bs, lo, hi, q, c);
    }
  }

  /** One safe request. */
  method ServeOne(h: Heap, q: Request) returns (r: Allocation)
    requires h.Valid() && Safe(h.blocks, q) && (q.Kfree? ==> BlockAt(h.blocks, q.p) < |h.blocks|)
    modifies h.ram, h`blocks
    ensures h.Valid() && h.blocks == Serve(old(h.blocks), q) && r == Answer(old(h.blocks), q)
    ensures PayloadsKept(old(h.ram.mem), h.ram.mem, Spared(old(h.blocks), q))
  {
    match q
    case Malloc(size) =>
      r := h.Kmalloc(size);
    case Kfree(p) =>
      h.Kfree(p, BlockAt(h.blocks, p));
      r := Null;
  }

  /** Where a run from `bs` and `m` stands after the requests `qs`, which were answered with `rs`. */
  ghost predicate Along(bs: seq<Block>, m: Memory, qs: seq<Request>, rs: seq<Allocation>, blocks: seq<Block>, mem: Memory) {
    blocks == Run(bs, qs) && rs == Answers(bs, qs) && KeptSoFar(bs, m, qs, blocks, mem)
  }

  /** Along a run, a block in use whose payload no request frees stays in use at its address, and each byte stored in it
      keeps its value. */
  lemma AlongKeepsBlock(bs: seq<Block>, m: Memory, qs: seq<Request>, rs: seq<Allocation>, blocks: seq<Block>, mem: Memory, b: Block)
    requires Along(bs, m, qs, rs, blocks, mem) && b in bs && b.used && Kfree(b.addr + 16) !in qs
    ensures exists c :: c in blocks && c.used && c.addr == b.addr && c.size >= b.size
    ensures forall k :: k in m.bytes && b.addr + 16 <= k < b.addr + 16 + b.size ==> k in mem.bytes && mem.bytes[k] == m.bytes[k]
  {
    assert Survives(b, blocks) && BytesKept(m, mem, b);
  }

  /** One request more, which was answered with `r`. */
  lemma AlongMore(bs: seq<Block>, m: Memory, qs: seq<Request>, q: Request, more: seq<Request>, rs: seq<Allocation>, r: Allocation,
                  blocks: seq<Block>, lo: int, hi: int, mem: Memory, after: Memory)
    requires more == qs + [q] && Along(bs, m, qs, rs, blocks, mem) && WellFormed(blocks, lo, hi) && 0 < lo
    requires r == Answer(blocks, q) && PayloadsKept(mem, after, Spared(blocks, q))
    ensures Along(bs, m, more, rs + [r], Serve(blocks, q), after)
    ensures r == Panic ==> Serve(blocks, q) == blocks && Along(bs, m, qs, rs, blocks, after)
  {
    RunMore(bs, more, |qs|);
    assert more[..|qs|] == qs && more[..|qs| + 1] == more;
    KeptMore(bs, m, qs, blocks, lo, hi, mem, q, after);
    AnswersMore(bs, qs, q);
    if r == Panic {
      forall b | b in bs && b.used && Kfree(b.Payload()) !in qs ensures Survives(b, blocks) && BytesKept(m, after, b) {
        assert Kfree(b.Payload()) !in qs + [q];
      }
    }
  }

  /** A run from `bs` and `m` has served `served`, and `rest` is still to come. */
  ghost predicate OnCourse(h: Heap, bs: seq<Block>, m: Memory, served: seq<Request>, rs: seq<Allocation>, rest: seq<Request>)
    reads h, h.ram
  {
    h.Valid() && MayServe(h.blocks, rest) && Along(bs, m, served, rs, h.blocks, h.ram.mem)
  }

  /** One request more; false is a panic. */
  method ServeNext(h: Heap, q: Request, ghost served: seq<Request>, ghost more: seq<Request>, ghost rs: seq<Allocation>,
                   ghost rest: seq<Request>, ghost bs: seq<Block>, ghost m: Memory)
    returns (ok: bool, r: Allocation)
    requires OnCourse(h, bs, m, served, rs, rest) && rest != [] && q == rest[0] && more == served + [q]
    modifies h.ram, h`blocks
    ensures ok ==> OnCourse(h, bs, m, more, rs + [r], rest[1..])
    ensures !ok ==> OnCourse(h, bs, m, served, rs, rest) && q.Malloc? && Answer(h.blocks, q) == Panic
  {
    ghost var blocks, mem := h.blocks, h.ram.mem;
    MayServeNext(blocks, rest);
    r := ServeOne(h, q);
    AlongMore(bs, m, served, q, more, rs, r, blocks, h.heapStart, h.heapEnd, mem, h.ram.mem);
    ok := !r.Panic?;
  }

  /** Any run of safe requests, up to the first panic: memory then holds the blocks that the run leads to, each
      request has been given what first fit gives, and whatever is in use and not freed has kept its bytes. */
  method ServeAll(h: Heap, qs: seq<Request>) returns (rs: seq<Allocation>)
    requires h.Valid() && SafeRun(h.blocks, qs) && FreesBlocks(h.blocks, qs)
    modifies h.ram, h`blocks
    ensures h.Valid() && |rs| <= |qs|
    ensures Along(old(h.blocks), old(h.ram.mem), qs[..|rs|], rs, h.blocks, h.ram.mem)
    ensures |rs| < |qs| ==> qs[|rs|].Malloc? && Answer(h.blocks, qs[|rs|]) == Panic
  {
    AlongStart(h.blocks, h.ram.mem);
    ghost var served, rest;
    rs, served, rest := ServeRest(h, qs, h.blocks, h.ram.mem);
  }

  method ServeRest(h: Heap, qs: seq<Request>, ghost bs: seq<Block>, ghost m: Memory)
    returns (rs: seq<Allocation>, ghost served: seq<Request>, ghost rest: seq<Request>)
    requires OnCourse(h, bs, m, [], [], qs)
    modifies h.ram, h`blocks
    ensures |rs| <= |qs| && served == qs[..|rs|] && OnCourse(h, bs, m, served, rs, rest)
    ensures |rs| < |qs| ==> qs[|rs|].Malloc? && Answer(h.blocks, qs[|rs|]) == Panic
  {
    rs, served, rest := [], [], qs;
    while |rs| < |qs|
      invariant |rs| <= |qs| && served == qs[..|rs|] && rest == qs[|rs|..]
      invariant OnCourse(h, bs, m, served, rs, rest)
      decreases |qs| - |rs|
    {
      ghost var more := served + [qs[|rs|]];
      var ok, r := ServeNext(h, qs[|rs|], served, more, rs, rest, bs, m);
      if !ok {
        return;
      }
      SplitFurther(qs, |rs|);
      rs := rs + [r];
      served, rest := more, rest[1..];
    }
  }

  lemma SplitFurther(qs: seq<Request>, n: nat)
    requires n < |qs|
    ensures qs[..n] + [qs[n]] == qs[..n + 1] && qs[n..][1..] == qs[n + 1..]
  {
  }

  ghost predicate MayServe(bs: seq<Block>, qs: seq<Request>) {
    SafeRun(bs, qs) && FreesBlocks(bs, qs)
  }

  lemma MayServeNext(bs: seq<Block>, qs: seq<Request>)
    requires MayServe(bs, qs) && qs != []
    ensures Safe(bs, qs[0]) && (qs[0].Kfree? ==> BlockAt(bs, qs[0].p) < |bs|)
    ensures MayServe(Serve(bs, qs[0]), qs[1..])
  {
  }

  lemma AlongStart(bs: seq<Block>, m: Memory)
    ensures Along(bs, m, [], [], bs, m)
  {
  }
}
