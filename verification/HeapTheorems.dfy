/** What allocation and release keep, and what they undo. */
module HeapTheorems {
  import opened Arithmetic
  import opened Memory
  import opened HeapBlocks

  // ----- Layout -------------------------------------------------------------------------------

  lemma {:induction false} Ordered(bs: seq<Block>, lo: int, hi: int, i: nat, j: nat)
    requires Tiles(bs, lo, hi) && i < j < |bs|
    ensures bs[i].End() <= bs[j].addr
    decreases j
  {
    assert bs[j - 1].End() == bs[j].addr;
    if i < j - 1 {
      Ordered(bs, lo, hi, i, j - 1);
    }
  }

  lemma Within(bs: seq<Block>, lo: int, hi: int, i: nat)
    requires Tiles(bs, lo, hi) && i < |bs|
    ensures lo <= bs[i].addr && bs[i].End() <= hi
  {
    if i > 0 { Ordered(bs, lo, hi, 0, i); }
    if i < |bs| - 1 { Ordered(bs, lo, hi, i, |bs| - 1); }
  }

  lemma AllOrdered(bs: seq<Block>, lo: int, hi: int)
    requires Tiles(bs, lo, hi)
    ensures forall i, j :: 0 <= i < j < |bs| ==> bs[i].End() <= bs[j].addr
    ensures forall i :: 0 <= i < |bs| ==> lo <= bs[i].addr && bs[i].End() <= hi
  {
    forall i, j | 0 <= i < j < |bs| ensures bs[i].End() <= bs[j].addr { Ordered(bs, lo, hi, i, j); }
    forall i | 0 <= i < |bs| ensures lo <= bs[i].addr && bs[i].End() <= hi { Within(bs, lo, hi, i); }
  }

  function Footprint(bs: seq<Block>): int {
    if bs == [] then 0 else HEADER + bs[0].size + Footprint(bs[1..])
  }

  /** No byte of the heap is lost: headers and payloads together are exactly its size. */
  lemma {:induction false} FootprintIsHeap(bs: seq<Block>, lo: int, hi: int)
    requires Tiles(bs, lo, hi)
    ensures Footprint(bs) == hi - lo
  {
    if |bs| == 1 {
      assert bs[1..] == [];
    } else {
      Shift(bs, lo, hi);
      FootprintIsHeap(bs[1..], bs[0].End(), hi);
    }
  }

  lemma Shift(bs: seq<Block>, lo: int, hi: int)
    requires Tiles(bs, lo, hi) && |bs| > 1
    ensures Tiles(bs[1..], bs[0].End(), hi)
    ensures Coalesced(bs) ==> Coalesced(bs[1..])
  {
    var t := bs[1..];
    assert bs[0].End() == bs[1].addr;
    forall i, j | 0 <= i < |t| && 0 <= j < |t| && j == i + 1
      ensures t[i].End() == t[j].addr && (Coalesced(bs) ==> t[i].used || t[j].used)
    {
      assert t[i] == bs[i + 1] && t[j] == bs[j + 1];
    }
  }

  /** Payloads of different blocks share no byte. */
  lemma PayloadsDisjoint(bs: seq<Block>, lo: int, hi: int, i: nat, j: nat)
    requires Tiles(bs, lo, hi) && i < |bs| && j < |bs| && i != j
    ensures bs[i].End() <= bs[j].Payload() || bs[j].End() <= bs[i].Payload()
    ensures lo < bs[i].Payload() <= bs[i].End() <= hi
  {
    Within(bs, lo, hi, i);
    if i < j { Ordered(bs, lo, hi, i, j); } else { Ordered(bs, lo, hi, j, i); }
  }

  // ----- The block list is determined by the blocks in use ---------------------------------------

  lemma FirstFreeEnd(bs: seq<Block>, lo: int, hi: int, cs: seq<Block>)
    requires WellFormed(bs, lo, hi) && WellFormed(cs, lo, hi)
    requires !bs[0].used && !cs[0].used && Live(cs) <= Live(bs)
    ensures bs[0].End() <= cs[0].End()
  {
    AllOrdered(bs, lo, hi);
    if |cs| > 1 {
      assert cs[1].used && cs[1] in Live(cs);
      var k :| 0 <= k < |bs| && bs[k] == cs[1];
      assert k > 0;
      assert bs[0].End() <= bs[k].addr;
      assert cs[0].End() == cs[1].addr;
    }
  }

  lemma LiveTail(bs: seq<Block>, lo: int, hi: int)
    requires Tiles(bs, lo, hi)
    ensures bs[0] !in bs[1..]
    ensures Live(bs[1..]) == Live(bs) - {bs[0]}
  {
    AllOrdered(bs, lo, hi);
    assert bs == [bs[0]] + bs[1..];
  }

  lemma SameHead(bs: seq<Block>, lo: int, hi: int, cs: seq<Block>)
    requires WellFormed(bs, lo, hi) && WellFormed(cs, lo, hi)
    requires Live(bs) == Live(cs)
    ensures bs[0] == cs[0]
  {
    AllOrdered(bs, lo, hi);
    AllOrdered(cs, lo, hi);
    if bs[0].used {
      assert bs[0] in Live(cs);
    } else if cs[0].used {
      assert cs[0] in Live(bs);
    } else {
      FirstFreeEnd(bs, lo, hi, cs);
      FirstFreeEnd(cs, lo, hi, bs);
    }
  }

  /** Two coalesced tilings of the same heap with the same blocks in use are the same list: what is
      free, and where, never depends on how the heap got there. */
  lemma {:induction false} LiveBlocksDetermineList(bs: seq<Block>, lo: int, hi: int, cs: seq<Block>)
    requires WellFormed(bs, lo, hi) && WellFormed(cs, lo, hi)
    requires Live(bs) == Live(cs)
    ensures bs == cs
    decreases |bs|
  {
    SameHead(bs, lo, hi, cs);
    AllOrdered(bs, lo, hi);
    AllOrdered(cs, lo, hi);
    LiveTail(bs, lo, hi);
    LiveTail(cs, lo, hi);
    if |bs| > 1 && |cs| > 1 {
      Shift(bs, lo, hi);
      Shift(cs, lo, hi);
      LiveBlocksDetermineList(bs[1..], bs[0].End(), hi, cs[1..]);
      assert bs == [bs[0]] + bs[1..] && cs == [cs[0]] + cs[1..];
    }
  }

  // ----- Allocation -----------------------------------------------------------------------------

  /** Block `i` may be handed out: every other pair of neighbours is coalesced, and the block after `i` is in use. */
  ghost predicate CoalescedBeside(bs: seq<Block>, i: nat) {
    && (forall k, l :: 0 <= k < |bs| && 0 <= l < |bs| && l == k + 1 && k != i && l != i ==> bs[k].used || bs[l].used)
    && (i + 1 < |bs| ==> bs[i + 1].used)
  }

  ghost predicate Allocatable(bs: seq<Block>, lo: int, hi: int, i: nat, size: int) {
    && Tiles(bs, lo, hi) && i < |bs|
    && CoalescedBeside(bs, i)
    && !bs[i].used && 0 <= size <= bs[i].size
  }

  /** The block that Take hands out. */
  function Taken(b: Block, size: int): Block {
    Block(b.addr, if b.size >= size + HEADER + 1 then size else b.size, true)
  }

  lemma TakeKeeps(bs: seq<Block>, lo: int, hi: int, i: nat, size: int)
    requires Allocatable(bs, lo, hi, i, size)
    ensures WellFormed(Take(bs, i, size), lo, hi)
  {
    var r := Take(bs, i, size);
    if bs[i].size >= size + HEADER + 1 {
      forall k | 0 <= k < |r| ensures r[k] == if k < i then bs[k] else if k > i + 1 then bs[k - 1] else r[k] {}
    }
  }

  lemma TakeLive(bs: seq<Block>, i: nat, size: int)
    requires i < |bs| && !bs[i].used
    ensures Live(Take(bs, i, size)) == Live(bs) + {Taken(bs[i], size)}
  {
    var r := Take(bs, i, size);
    assert bs == bs[..i] + [bs[i]] + bs[i + 1..];
    if bs[i].size < size + HEADER + 1 {
      assert r == bs[..i] + [Taken(bs[i], size)] + bs[i + 1..];
    }
  }

  /** The CEILING_DIV macro times the alignment is the least multiple of the alignment from `x` on. */
  lemma AlignUpIsLeast(x: int, alignment: int)
    requires alignment > 0
    ensures AlignUp(x, alignment) == (1 + (x - 1) / alignment) * alignment
    ensures AlignUp(x, alignment) % alignment == 0
    ensures forall y :: x <= y && y % alignment == 0 ==> AlignUp(x, alignment) <= y
  {
    var q := (x - 1) / alignment;
    assert x - 1 == q * alignment + (x - 1) % alignment;
    assert AlignUp(x, alignment) == (q + 1) * alignment + 0;
    DivModUnique(q + 1, 0, alignment);
    forall y | x <= y && y % alignment == 0 ensures AlignUp(x, alignment) <= y {
      var p := y / alignment;
      assert y == p * alignment;
      if p <= q { MulMonotone(p, q, alignment); } else { MulMonotone(q + 1, p, alignment); }
    }
  }

  /** The block list once block `i` has been moved up, ready to be handed out at index `at`. */
  lemma RealignKeeps(bs: seq<Block>, lo: int, hi: int, i: nat, size: int, alignment: int)
    requires WellFormed(bs, lo, hi) && 0 < lo && i < |bs| && alignment > 0 && size >= 0
    requires Suits(bs[i], size, alignment) && bs[i].Payload() % alignment != 0
    requires i == 0 ==> GapFits(bs[0], alignment)
    ensures var at := if i == 0 then 1 else i; Allocatable(Realign(bs, i, alignment), lo, hi, at, size + HEADER)
  {
    var r := Realign(bs, i, alignment);
    if i == 0 {
      forall k | 0 <= k < |r| ensures r[k] == if k < 2 then r[k] else bs[k - 1] {}
    } else {
      RealignLaterKeeps(bs, lo, hi, i, size, alignment);
    }
  }

  lemma RealignLaterKeeps(bs: seq<Block>, lo: int, hi: int, i: nat, size: int, alignment: int)
    requires WellFormed(bs, lo, hi) && 0 < lo && 0 < i < |bs| && alignment > 0 && size >= 0
    requires Suits(bs[i], size, alignment) && bs[i].Payload() % alignment != 0
    ensures Allocatable(Realign(bs, i, alignment), lo, hi, i, size + HEADER)
  {
    var r := Realign(bs, i, alignment);
    forall k | 0 <= k < |r| ensures r[k] == if k == i - 1 || k == i then r[k] else bs[k] {}
  }

  lemma RealignLive(bs: seq<Block>, lo: int, hi: int, i: nat, alignment: int)
    requires Tiles(bs, lo, hi) && 0 < lo && i < |bs| && alignment > 0
    requires !bs[i].used
    ensures i == 0 ==> Live(Realign(bs, i, alignment)) == Live(bs)
    ensures i > 0 && bs[i - 1].used ==>
      Live(Realign(bs, i, alignment)) == Live(bs) - {bs[i - 1]} + {Realign(bs, i, alignment)[i - 1]}
  {
    if i == 0 {
      assert bs == [bs[0]] + bs[1..];
    } else if bs[i - 1].used {
      RealignLiveLater(bs, lo, hi, i, alignment);
    }
  }

  lemma RealignLiveLater(bs: seq<Block>, lo: int, hi: int, i: nat, alignment: int)
    requires Tiles(bs, lo, hi) && 0 < lo && 0 < i < |bs| && alignment > 0
    requires !bs[i].used && bs[i - 1].used
    ensures Live(Realign(bs, i, alignment)) == Live(bs) - {bs[i - 1]} + {Realign(bs, i, alignment)[i - 1]}
  {
    var r := Realign(bs, i, alignment);
    AllOrdered(bs, lo, hi);
    forall k | 0 <= k < |bs| && k != i - 1 && k != i ensures r[k] == bs[k] {}
    LiveButTwo(bs, r, i);
  }

  /** The blocks in use when only block `i - 1` of them has changed. */
  lemma LiveButTwo(bs: seq<Block>, r: seq<Block>, i: nat)
    requires |r| == |bs| && 0 < i < |bs| && !bs[i].used && !r[i].used && bs[i - 1].used && r[i - 1].used
    requires forall k :: 0 <= k < |bs| && k != i - 1 && k != i ==> r[k] == bs[k]
    requires forall k :: 0 <= k < |bs| && k != i - 1 ==> bs[k] != bs[i - 1]
    ensures Live(r) == Live(bs) - {bs[i - 1]} + {r[i - 1]}
  {
    forall b ensures b in Live(r) <==> b in Live(bs) - {bs[i - 1]} + {r[i - 1]} {
      if b in Live(r) {
        var j :| 0 <= j < |r| && r[j] == b;
        assert j != i - 1 && j != i ==> bs[j] == b && bs[j] in bs;
      }
      if b in Live(bs) && b != bs[i - 1] {
        var j :| 0 <= j < |bs| && bs[j] == b;
        assert r[j] == b && r[j] in r;
      }
      assert r[i - 1] in r;
    }
  }

  // ----- The search in 32 bits -------------------------------------------------------------------

  /** A block of a heap below 2^32, a request and an alignment that fit 32 bits. */
  predicate Fit32(b: Block, size: int, alignment: int) {
    0 < b.addr && 0 <= b.size && b.End() < WORD && 0 <= size < WORD && 0 < alignment < WORD
  }

  /** In 32 bits the code decides on a block as it should exactly when the request does not come round; where it
      should stop it always does. */
  lemma JudgedExactly(b: Block, size: int, alignment: int)
    requires Fit32(b, size, alignment)
    ensures Judged(b, size, alignment) == Suits(b, size, alignment) <==> !Misjudged(b, size, alignment)
    ensures Suits(b, size, alignment) ==> Judged(b, size, alignment)
  {
    if !b.used && b.Payload() % alignment != 0 {
      RoundAndRound(AlignUp(b.Payload(), alignment), b.End(), size);
    }
  }

  /** The arithmetic of that: the aligned address is `a`, and the block ends at `end`. */
  lemma RoundAndRound(a: int, end: int, size: int)
    requires HEADER < a < end + WORD && HEADER < end < WORD && 0 <= size < WORD
    ensures var judged := U32(U32(a) + size) <= end && U32(end - U32(a)) >= U32(size + HEADER);
      var suits := end - a >= size + HEADER;
      (judged == suits <==> !ComesRound(a, end, size)) && (suits ==> judged)
  {
    Wraps(a);
    Wraps(U32(a) + size);
    Wraps(size + HEADER);
    Wraps(end - U32(a));
  }

  /** What 32 bits keep of a number between -2^32 and 2^33. */
  lemma Wraps(x: int)
    requires -WORD <= x < 2 * WORD
    ensures U32(x) == if x < 0 then x + WORD else if x < WORD then x else x - WORD
  {
  }

  /** The code stops where the first fit is exactly when it misjudges no block before that. */
  lemma SearchExactly(bs: seq<Block>, size: int, alignment: int)
    requires 0 < alignment && forall b <- bs :: Fit32(b, size, alignment)
    ensures var i := FirstFit(bs, size, alignment);
      Stop(bs, size, alignment) == i <==> forall j :: 0 <= j < i ==> !Misjudged(bs[j], size, alignment)
  {
    forall j | 0 <= j < |bs|
      ensures Judged(bs[j], size, alignment) == Suits(bs[j], size, alignment) <==> !Misjudged(bs[j], size, alignment)
      ensures Suits(bs[j], size, alignment) ==> Judged(bs[j], size, alignment)
    {
      assert bs[j] in bs;
      JudgedExactly(bs[j], size, alignment);
    }
  }

  lemma AllFit32(bs: seq<Block>, lo: int, hi: int, size: int, alignment: int)
    requires Tiles(bs, lo, hi) && 0 < lo && hi < WORD && 0 <= size < WORD && 0 < alignment < WORD
    ensures forall b <- bs :: Fit32(b, size, alignment)
  {
    AllOrdered(bs, lo, hi);
  }

  /** A heap of which five bytes have been asked for. */
  lemma FiveBytes(lo: int, size: int)
    requires lo % 4 == 0 && size > 5 + HEADER
    ensures Allocate([Block(lo, size, false)], 5) == [Block(lo, 5, true), Block(lo + HEADER + 5, size - 5 - HEADER, false)]
  {
    var whole := [Block(lo, size, false)];
    assert whole[0].Payload() % 4 == 0 && Suits(whole[0], 5, 4) && FirstFit(whole, 5, 4) == 0;
    assert whole[..0] == [] && whole[1..] == [];
  }

  /** It does go wrong: on any 4-aligned heap, after a request for 5 bytes, a request for 0xFFFFFFF0 should find
      nothing, but the code stops at the second block and would split the block it hands out off from itself. */
  lemma HugeRequestComesRound(lo: int, size: int)
    requires 0 < lo && lo % 4 == 0 && size >= 24 && lo + HEADER + size < WORD
    ensures var bs := Allocate([Block(lo, size, false)], 5); var handedOut := lo + 24;
      && bs == [Block(lo, 5, true), Block(lo + HEADER + 5, size - 5 - HEADER, false)]
      && FirstFit(bs, 0xFFFF_FFF0, 4) == 2 && Stop(bs, 0xFFFF_FFF0, 4) == 1
      && handedOut + HEADER == AlignUp(bs[1].Payload(), 4)
      && U32(handedOut + HEADER + 0xFFFF_FFF0) == handedOut
  {
    FiveBytes(lo, size);
    var bs, request := [Block(lo, 5, true), Block(lo + HEADER + 5, size - 5 - HEADER, false)], 0xFFFF_FFF0;
    HugeRequestMisjudged(lo, size, bs[1]);
    assert FirstFit(bs, request, 4, 2) == 2 && FirstFit(bs, request, 4, 1) == 2;
    assert Stop(bs, request, 4, 1) == 1;
    Wraps(lo + 24 + HEADER + request);
  }

  lemma HugeRequestMisjudged(lo: int, size: int, b: Block)
    requires 0 < lo && lo % 4 == 0 && size >= 24 && lo + HEADER + size < WORD
    requires b == Block(lo + HEADER + 5, size - 5 - HEADER, false)
    ensures AlignUp(b.Payload(), 4) == lo + 40
    ensures !Suits(b, 0xFFFF_FFF0, 4) && Judged(b, 0xFFFF_FFF0, 4)
  {
    assert b.Payload() == lo + 37 && (lo + 36) % 4 == 0;
    JudgedExactly(b, 0xFFFF_FFF0, 4);
  }

  // ----- Release --------------------------------------------------------------------------------

  lemma MergeKeeps(bs: seq<Block>, lo: int, hi: int, i: nat)
    requires Tiles(bs, lo, hi) && i + 1 < |bs|
    ensures Tiles(Merge(bs, i), lo, hi)
    ensures forall k :: 0 <= k < |bs| - 1 ==>
      Merge(bs, i)[k] == if k < i then bs[k] else if k == i then Merge(bs, i)[i] else bs[k + 1]
    ensures !bs[i].used && !bs[i + 1].used ==> Live(Merge(bs, i)) == Live(bs)
  {
    var m := Merge(bs, i);
    forall k | 0 <= k < |m| ensures m[k] == if k < i then bs[k] else if k == i then m[i] else bs[k + 1] {}
    assert bs == bs[..i] + [bs[i], bs[i + 1]] + bs[i + 2..];
  }

  lemma FreedLive(bs: seq<Block>, lo: int, hi: int, i: nat)
    requires Tiles(bs, lo, hi) && i < |bs|
    ensures Live(bs[i := bs[i].(used := false)]) == Live(bs) - {bs[i]}
  {
    AllOrdered(bs, lo, hi);
    var freed := bs[i := bs[i].(used := false)];
    forall b ensures b in Live(freed) <==> b in Live(bs) - {bs[i]} {
      if b in Live(freed) {
        var j :| 0 <= j < |freed| && freed[j] == b;
        assert bs[j] == b && bs[j] in bs;
      }
      if b in Live(bs) && b != bs[i] {
        var j :| 0 <= j < |bs| && bs[j] == b;
        assert freed[j] == b && freed[j] in freed;
      }
    }
  }

  /** Coalesced but for the free block `i` and the one after it. */
  ghost predicate CoalescedButAfter(bs: seq<Block>, i: nat) {
    && i < |bs| && !bs[i].used
    && (forall k, l :: 0 <= k < |bs| && 0 <= l < |bs| && l == k + 1 && k != i ==> bs[k].used || bs[l].used)
  }

  lemma JoinBack(bs: seq<Block>, lo: int, hi: int, i: nat)
    requires WellFormed(bs, lo, hi) && i < |bs|
    ensures Tiles(bs[i := bs[i].(used := false)], lo, hi)
    ensures var freed := bs[i := bs[i].(used := false)];
      if i > 0 && !freed[i - 1].used then
        && Tiles(Merge(freed, i - 1), lo, hi) && CoalescedButAfter(Merge(freed, i - 1), i - 1)
        && Live(Merge(freed, i - 1)) == Live(freed)
      else CoalescedButAfter(freed, i)
  {
    var freed := bs[i := bs[i].(used := false)];
    if i > 0 && !freed[i - 1].used { MergeKeeps(freed, lo, hi, i - 1); }
  }

  lemma JoinNext(bs: seq<Block>, lo: int, hi: int, i: nat)
    requires Tiles(bs, lo, hi) && CoalescedButAfter(bs, i)
    ensures if i + 1 < |bs| && !bs[i + 1].used then
        WellFormed(Merge(bs, i), lo, hi) && Live(Merge(bs, i)) == Live(bs)
      else WellFormed(bs, lo, hi)
  {
    if i + 1 < |bs| && !bs[i + 1].used { MergeKeeps(bs, lo, hi, i); }
  }

  /** Releasing a block keeps the tiling and the coalescing, and takes exactly that block out of use. */
  lemma ReleaseKeeps(bs: seq<Block>, lo: int, hi: int, i: nat)
    requires WellFormed(bs, lo, hi) && i < |bs|
    ensures WellFormed(Release(bs, i), lo, hi)
    ensures Live(Release(bs, i)) == Live(bs) - {bs[i]}
  {
    var freed := bs[i := bs[i].(used := false)];
    FreedLive(bs, lo, hi, i);
    JoinBack(bs, lo, hi, i);
    if i > 0 && !freed[i - 1].used {
      JoinNext(Merge(freed, i - 1), lo, hi, i - 1);
    } else {
      JoinNext(freed, lo, hi, i);
    }
  }

  // ----- kmalloc_alligned and kfree ----------------------------------------------------------------

  lemma AllocateInPlaceIs(bs: seq<Block>, size: int, alignment: int)
    requires 0 < alignment
    requires FirstFit(bs, size, alignment) < |bs| && !Realigns(bs, size, alignment)
    ensures AllocateAligned(bs, size, alignment) == Take(bs, FirstFit(bs, size, alignment), size)
  {
  }

  /** A request that finds an aligned block is given the start of that block. */
  lemma InPlaceAddress(bs: seq<Block>, lo: int, hi: int, size: int, alignment: int)
    requires WellFormed(bs, lo, hi) && 0 < lo && 0 <= size && 0 < alignment
    requires FirstFit(bs, size, alignment) < |bs| && !Realigns(bs, size, alignment)
    ensures var taken := Taken(bs[FirstFit(bs, size, alignment)], size);
      && AlignedPointer(bs, size, alignment) == Pointer(taken.Payload())
      && taken.Payload() % alignment == 0 && taken.size >= size
      && lo <= taken.addr && taken.End() <= hi && taken !in Live(bs)
  {
    var i := FirstFit(bs, size, alignment);
    AllOrdered(bs, lo, hi);
  }

  /** It adds one block of at least the requested size to the blocks in use, and changes no other. */
  lemma AllocateInPlace(bs: seq<Block>, lo: int, hi: int, size: int, alignment: int)
    requires WellFormed(bs, lo, hi) && 0 < lo && 0 <= size && 0 < alignment
    requires FirstFit(bs, size, alignment) < |bs| && !Realigns(bs, size, alignment)
    ensures WellFormed(AllocateAligned(bs, size, alignment), lo, hi)
    ensures Live(AllocateAligned(bs, size, alignment)) ==
      Live(bs) + {Taken(bs[FirstFit(bs, size, alignment)], size)}
  {
    var i := FirstFit(bs, size, alignment);
    AllocateInPlaceIs(bs, size, alignment);
    TakeKeeps(bs, lo, hi, i, size);
    TakeLive(bs, i, size);
  }

  /** The block that a realigned request hands out. */
  function Realigned(b: Block, size: int, alignment: int): Block
    requires alignment > 0
  {
    var a := AlignUp(b.Payload(), alignment);
    Taken(Block(a - HEADER, b.End() - a, false), size)
  }

  function Grown(b: Block, gap: int): Block {
    b.(size := b.size + gap)
  }

  lemma RealignedMember(bs: seq<Block>, lo: int, hi: int, i: nat, alignment: int)
    requires Tiles(bs, lo, hi) && 0 < lo && i < |bs| && alignment > 0
    ensures var r := Realign(bs, i, alignment); var a := AlignUp(bs[i].Payload(), alignment);
      if i == 0 then |r| > 1 && r[1] == Block(a - HEADER, bs[i].End() - a, false)
      else |r| == |bs| && r[i] == Block(a - HEADER, bs[i].End() - a, false)
           && r[i - 1] == Grown(bs[i - 1], a - bs[i].Payload())
  {
  }

  /** `taken` came into use inside block `i`, and the gap before it went to block `i - 1`, if there is one. */
  ghost predicate HandedOver(bs: seq<Block>, after: seq<Block>, i: nat, taken: Block)
    requires i < |bs|
  {
    Live(after) ==
      (if i == 0 then Live(bs)
       else Live(bs) - {bs[i - 1]} + {Grown(bs[i - 1], taken.Payload() - bs[i].Payload())}) + {taken}
  }

  lemma RealignedTakeKeeps(bs: seq<Block>, lo: int, hi: int, i: nat, size: int, alignment: int)
    requires WellFormed(bs, lo, hi) && 0 < lo && i < |bs| && alignment > 0 && size >= 0
    requires Suits(bs[i], size, alignment) && bs[i].Payload() % alignment != 0
    requires i == 0 ==> GapFits(bs[0], alignment)
    ensures WellFormed(Take(Realign(bs, i, alignment), PreparedAt(bs, i, alignment), size), lo, hi)
  {
    RealignKeeps(bs, lo, hi, i, size, alignment);
    TakeKeeps(Realign(bs, i, alignment), lo, hi, PreparedAt(bs, i, alignment), size);
  }

  lemma TakeHandsOver(bs: seq<Block>, r: seq<Block>, i: nat, at: nat, size: int, gap: int)
    requires i < |bs| && at < |r| && !r[at].used && gap == r[at].Payload() - bs[i].Payload()
    requires Live(r) == if i == 0 then Live(bs) else Live(bs) - {bs[i - 1]} + {Grown(bs[i - 1], gap)}
    ensures HandedOver(bs, Take(r, at, size), i, Taken(r[at], size))
  {
    TakeLive(r, at, size);
  }

  lemma RealignedTakeLive(bs: seq<Block>, lo: int, hi: int, i: nat, size: int, alignment: int)
    requires WellFormed(bs, lo, hi) && 0 < lo && i < |bs| && alignment > 0
    requires !bs[i].used && bs[i].Payload() % alignment != 0
    ensures HandedOver(bs, Take(Realign(bs, i, alignment), PreparedAt(bs, i, alignment), size), i,
                       Realigned(bs[i], size, alignment))
  {
    var r, at := Realign(bs, i, alignment), PreparedAt(bs, i, alignment);
    var gap := AlignUp(bs[i].Payload(), alignment) - bs[i].Payload();
    RealignLive(bs, lo, hi, i, alignment);
    RealignedMember(bs, lo, hi, i, alignment);
    assert i > 0 ==> bs[i - 1].used && r[i - 1] == Grown(bs[i - 1], gap);
    assert Taken(r[at], size) == Realigned(bs[i], size, alignment);
    TakeHandsOver(bs, r, i, at, size, gap);
  }

  /** A request that finds no aligned block in time gets the first aligned address in the block it found. */
  lemma RealignedAddress(bs: seq<Block>, lo: int, hi: int, size: int, alignment: int)
    requires WellFormed(bs, lo, hi) && 0 < lo && 0 <= size && 0 < alignment
    requires Realigns(bs, size, alignment)
    ensures var b := bs[FirstFit(bs, size, alignment)]; var taken := Realigned(b, size, alignment);
      && AlignedPointer(bs, size, alignment) == Pointer(taken.Payload())
      && taken.Payload() % alignment == 0 && 0 < taken.Payload() - b.Payload() < alignment
      && taken.size >= size && taken.End() <= b.End() <= hi
  {
    var i := FirstFit(bs, size, alignment);
    AlignUpIsLeast(bs[i].Payload(), alignment);
    Within(bs, lo, hi, i);
  }

  lemma AllocateRealignedIs(bs: seq<Block>, size: int, alignment: int)
    requires 0 < alignment && Realigns(bs, size, alignment)
    ensures var i := FirstFit(bs, size, alignment);
      AllocateAligned(bs, size, alignment) == Take(Realign(bs, i, alignment), PreparedAt(bs, i, alignment), size)
  {
  }

  /** With the missing size field of repair H1 filled in, realignment keeps the tiling. */
  lemma AllocateRealigned(bs: seq<Block>, lo: int, hi: int, size: int, alignment: int)
    requires WellFormed(bs, lo, hi) && 0 < lo && 0 <= size && 0 < alignment
    requires Realigns(bs, size, alignment) && (FirstFit(bs, size, alignment) == 0 ==> GapFits(bs[0], alignment))
    ensures WellFormed(AllocateAligned(bs, size, alignment), lo, hi)
  {
    AllocateRealignedIs(bs, size, alignment);
    RealignedTakeKeeps(bs, lo, hi, FirstFit(bs, size, alignment), size, alignment);
  }

  /** Realignment hands the gap to the block before, if there is one, and changes no other block in use. */
  lemma AllocateRealignedLive(bs: seq<Block>, lo: int, hi: int, size: int, alignment: int)
    requires WellFormed(bs, lo, hi) && 0 < lo && 0 <= size && 0 < alignment
    requires Realigns(bs, size, alignment)
    ensures var i := FirstFit(bs, size, alignment);
      HandedOver(bs, AllocateAligned(bs, size, alignment), i, Realigned(bs[i], size, alignment))
  {
    AllocateRealignedIs(bs, size, alignment);
    RealignedTakeLive(bs, lo, hi, FirstFit(bs, size, alignment), size, alignment);
  }

  /** Every safe request, satisfied or not, finds in 32 bits the block it should, and keeps the heap tiled and coalesced. */
  lemma AllocateKeeps(bs: seq<Block>, lo: int, hi: int, size: int, alignment: int)
    requires WellFormed(bs, lo, hi) && 0 < lo && hi < WORD && 0 <= size < WORD && 0 < alignment < WORD
    requires SafeRequest(bs, size, alignment)
    ensures Stop(bs, size, alignment) == FirstFit(bs, size, alignment)
    ensures WellFormed(AllocateAligned(bs, size, alignment), lo, hi)
  {
    AllFit32(bs, lo, hi, size, alignment);
    SearchExactly(bs, size, alignment);
    if FirstFit(bs, size, alignment) < |bs| {
      if Realigns(bs, size, alignment) {
        AllocateRealigned(bs, lo, hi, size, alignment);
      } else {
        AllocateInPlace(bs, lo, hi, size, alignment);
      }
    }
  }

  lemma FourAfterFive(bs: seq<Block>)
    requires bs == [Block(0x1000, 5, true), Block(0x1015, 0x1FDB, false)]
    ensures WellFormed(bs, 0x1000, 0x3000) && Realigns(bs, 4, 4) && FirstFit(bs, 4, 4) == 1
  {
    assert Suits(bs[1], 4, 4) && FirstFit(bs, 4, 4, 1) == 1;
  }

  /** Not every allocation is undone by its free: on a heap with 5 bytes in use, a request for 4 realigns the
      block behind them, and the 3 bytes of the gap stay with the 5. */
  lemma GapIsNotGivenBack()
    ensures var bs := Allocate([Block(0x1000, 0x1FF0, false)], 5);
      && bs == [Block(0x1000, 5, true), Block(0x1015, 0x1FDB, false)]
      && Realigns(bs, 4, 4) && FirstFit(bs, 4, 4) == 1
      && Free(AllocateAligned(bs, 4, 4), AlignedPointer(bs, 4, 4).addr) != bs
  {
    FiveBytes(0x1000, 0x1FF0);
    var bs := [Block(0x1000, 5, true), Block(0x1015, 0x1FDB, false)];
    FourAfterFive(bs);
    FreeUndoesAllocate(bs, 0x1000, 0x3000, 4, 4);
  }

  /** The block whose payload starts at `p`, or `|bs|`. */
  function BlockAt(bs: seq<Block>, p: int): (i: nat)
    ensures i <= |bs|
    ensures i < |bs| ==> bs[i].Payload() == p
    ensures i == |bs| ==> forall b <- bs :: b.Payload() != p
  {
    if bs == [] || bs[0].Payload() == p then 0 else 1 + BlockAt(bs[1..], p)
  }

  lemma BlockAtIs(bs: seq<Block>, lo: int, hi: int, i: nat)
    requires Tiles(bs, lo, hi) && i < |bs|
    ensures BlockAt(bs, bs[i].Payload()) == i
  {
    AllOrdered(bs, lo, hi);
    assert bs[i] in bs;
  }

  /** kfree; an address that is no payload is the caller's error and changes nothing here. */
  function Free(bs: seq<Block>, p: int): seq<Block> {
    var i := BlockAt(bs, p);
    if i < |bs| then Release(bs, i) else bs
  }

  lemma LiveWithout(bs: seq<Block>, lo: int, hi: int, i: nat)
    requires Tiles(bs, lo, hi) && i < |bs|
    ensures Live(bs) - {bs[i]} == set b <- Live(bs) | b.Payload() != bs[i].Payload()
  {
    AllOrdered(bs, lo, hi);
  }

  lemma FreeKeeps(bs: seq<Block>, lo: int, hi: int, p: int)
    requires WellFormed(bs, lo, hi)
    ensures WellFormed(Free(bs, p), lo, hi)
    ensures Live(Free(bs, p)) == set b <- Live(bs) | b.Payload() != p
  {
    var i := BlockAt(bs, p);
    if i < |bs| {
      ReleaseKeeps(bs, lo, hi, i);
      LiveWithout(bs, lo, hi, i);
    } else {
      assert Live(bs) == set b <- Live(bs) | b.Payload() != p;
    }
  }

  /** `taken` was carved out of the free block `i` and is now freed. */
  lemma FreeUndoesNew(bs: seq<Block>, lo: int, hi: int, after: seq<Block>, taken: Block, i: nat)
    requires WellFormed(bs, lo, hi) && WellFormed(after, lo, hi)
    requires i < |bs| && !bs[i].used && bs[i].addr <= taken.addr && taken.End() <= bs[i].End() && taken.size >= 0
    requires Live(after) == Live(bs) + {taken}
    ensures Free(after, taken.Payload()) == bs
  {
    FreeKeeps(after, lo, hi, taken.Payload());
    AllOrdered(bs, lo, hi);
    assert Live(Free(after, taken.Payload())) == Live(bs);
    LiveBlocksDetermineList(Free(after, taken.Payload()), lo, hi, bs);
  }

  lemma GapIsLost(bs: seq<Block>, lo: int, hi: int, after: seq<Block>, i: nat, gap: int, taken: Block)
    requires WellFormed(bs, lo, hi) && WellFormed(after, lo, hi)
    requires 0 < i < |bs| && !bs[i].used && bs[i].addr < taken.addr && gap > 0
    requires Live(after) == Live(bs) - {bs[i - 1]} + {Grown(bs[i - 1], gap)} + {taken}
    ensures Free(after, taken.Payload()) != bs
  {
    FreeKeeps(after, lo, hi, taken.Payload());
    AllOrdered(bs, lo, hi);
    assert bs[i - 1].used;
    assert bs[i - 1] in Live(bs) && bs[i - 1] !in Live(after);
  }

  lemma FreeAfterGap(bs: seq<Block>, lo: int, hi: int, after: seq<Block>, i: nat, taken: Block)
    requires WellFormed(bs, lo, hi) && WellFormed(after, lo, hi)
    requires i < |bs| && !bs[i].used && bs[i].addr < taken.addr && taken.End() <= bs[i].End() && taken.size >= 0
    requires HandedOver(bs, after, i, taken)
    ensures Free(after, taken.Payload()) == bs <==> i == 0
  {
    if i == 0 {
      FreeUndoesNew(bs, lo, hi, after, taken, i);
    } else {
      GapIsLost(bs, lo, hi, after, i, taken.Payload() - bs[i].Payload(), taken);
    }
  }

  lemma FreeUndoesInPlace(bs: seq<Block>, lo: int, hi: int, size: int, alignment: int)
    requires WellFormed(bs, lo, hi) && 0 < lo && 0 <= size && 0 < alignment
    requires FirstFit(bs, size, alignment) < |bs| && !Realigns(bs, size, alignment)
    ensures Free(AllocateAligned(bs, size, alignment), AlignedPointer(bs, size, alignment).addr) == bs
  {
    var i := FirstFit(bs, size, alignment);
    InPlaceAddress(bs, lo, hi, size, alignment);
    AllocateInPlace(bs, lo, hi, size, alignment);
    FreeUndoesNew(bs, lo, hi, AllocateAligned(bs, size, alignment), Taken(bs[i], size), i);
  }

  lemma FreeUndoesRealigned(bs: seq<Block>, lo: int, hi: int, size: int, alignment: int)
    requires WellFormed(bs, lo, hi) && 0 < lo && 0 <= size && 0 < alignment
    requires Realigns(bs, size, alignment) && (FirstFit(bs, size, alignment) == 0 ==> GapFits(bs[0], alignment))
    ensures Free(AllocateAligned(bs, size, alignment), AlignedPointer(bs, size, alignment).addr) == bs
      <==> FirstFit(bs, size, alignment) == 0
  {
    var i := FirstFit(bs, size, alignment);
    var taken := Realigned(bs[i], size, alignment);
    RealignedAddress(bs, lo, hi, size, alignment);
    AllocateRealigned(bs, lo, hi, size, alignment);
    AllocateRealignedLive(bs, lo, hi, size, alignment);
    FreeAfterGap(bs, lo, hi, AllocateAligned(bs, size, alignment), i, taken);
  }

  /** Freeing what was just allocated restores the very same block list, split or not.  After a realigned
      request it does so exactly when the gap stayed a block of its own, at the start of the heap. */
  lemma FreeUndoesAllocate(bs: seq<Block>, lo: int, hi: int, size: int, alignment: int)
    requires WellFormed(bs, lo, hi) && 0 < lo && 0 <= size && 0 < alignment
    requires FirstFit(bs, size, alignment) < |bs|
    requires Realigns(bs, size, alignment) && FirstFit(bs, size, alignment) == 0 ==> GapFits(bs[0], alignment)
    ensures Free(AllocateAligned(bs, size, alignment), AlignedPointer(bs, size, alignment).addr) == bs
      <==> !(Realigns(bs, size, alignment) && FirstFit(bs, size, alignment) > 0)
  {
    if Realigns(bs, size, alignment) {
      FreeUndoesRealigned(bs, lo, hi, size, alignment);
    } else {
      FreeUndoesInPlace(bs, lo, hi, size, alignment);
    }
  }

  // ----- When a request is granted, and what it is given ---------------------------------------------

  /** A free block must be handed out: with an aligned payload when it has more bytes than were asked for, with any
      other when those bytes and a header lie behind its first aligned address `p`.  The request does not panic, and is
      given an aligned address in that block or in one before it. */
  lemma RequestIsGranted(bs: seq<Block>, size: int, alignment: int, i: nat, p: int) returns (j: nat)
    requires 0 < alignment && 0 <= size && i < |bs| && !bs[i].used
    requires p % alignment == 0 && bs[i].addr + 16 <= p < bs[i].addr + 16 + alignment
    requires if p == bs[i].addr + 16 then bs[i].size > size else bs[i].addr + 16 + bs[i].size - p >= size + 16
    ensures j <= i && !bs[j].used && AlignedPointer(bs, size, alignment).Pointer?
    ensures var q := AlignedPointer(bs, size, alignment).addr;
      q % alignment == 0 && bs[j].addr + 16 <= q && q + size <= bs[j].addr + 16 + bs[j].size
  {
    AlignedOnce(bs[i].addr + 16, alignment, p);
    assert Suits(bs[i], size, alignment);
    j := FirstFit(bs, size, alignment);
    AlignUpIsLeast(bs[j].addr + 16, alignment);
  }

  /** An interval as long as the alignment holds one aligned address, and AlignUp finds it. */
  lemma AlignedOnce(x: int, alignment: int, p: int)
    requires alignment > 0 && p % alignment == 0 && x <= p < x + alignment
    ensures AlignUp(x, alignment) == p
    ensures x % alignment == 0 <==> p == x
  {
    AlignUpIsLeast(x, alignment);
    var a, q := AlignUp(x, alignment) / alignment, p / alignment;
    assert AlignUp(x, alignment) == a * alignment && p == q * alignment;
    if a < q { MulMonotone(a + 1, q, alignment); }
  }

  /** A request is granted nothing else: the address it is given is the first aligned one in a free block, and
      that block had the room for it. */
  lemma GrantHadRoom(bs: seq<Block>, size: int, alignment: int) returns (j: nat)
    requires 0 < alignment && 0 <= size && AlignedPointer(bs, size, alignment).Pointer?
    ensures j < |bs| && !bs[j].used
    ensures var p := AlignedPointer(bs, size, alignment).addr;
      && p % alignment == 0 && bs[j].addr + 16 <= p < bs[j].addr + 16 + alignment
      && if p == bs[j].addr + 16 then bs[j].size > size else bs[j].addr + 16 + bs[j].size - p >= size + 16
  {
    j := FirstFit(bs, size, alignment);
    AlignUpIsLeast(bs[j].addr + 16, alignment);
    AlignedOnce(bs[j].addr + 16, alignment, AlignUp(bs[j].addr + 16, alignment));
  }

  /** kmalloc of one byte gives NULL exactly when no free block has more than one, and otherwise the start of the
      first that has; only a block of 18 bytes or more is split. */
  lemma OneByteExactly(bs: seq<Block>) returns (j: nat)
    ensures j <= |bs| && forall i :: 0 <= i < j ==> bs[i].used || bs[i].size <= 1
    ensures Answer(bs, Malloc(1)) == Null <==> j == |bs|
    ensures j == |bs| ==> Allocate(bs, 1) == bs
    ensures j < |bs| ==> !bs[j].used && bs[j].size > 1 && Answer(bs, Malloc(1)) == Pointer(bs[j].addr + 16)
    ensures j < |bs| ==> Block(bs[j].addr, if bs[j].size >= 18 then 1 else bs[j].size, true) in Allocate(bs, 1)
  {
    j := FirstFit(bs, 1, 1);
    if j < |bs| {
      assert Take(bs, j, 1)[j] == Block(bs[j].addr, if bs[j].size >= 18 then 1 else bs[j].size, true);
    }
  }

  lemma TakeHolds(bs: seq<Block>, i: nat, size: int)
    requires i < |bs|
    ensures var b := bs[i];
      if b.size >= size + 17 then
        Block(b.addr, size, true) in Take(bs, i, size)
        && Block(b.addr + 16 + size, b.size - size - 16, false) in Take(bs, i, size)
      else Block(b.addr, b.size, true) in Take(bs, i, size)
  {
    var r, b := Take(bs, i, size), bs[i];
    if b.size >= size + 17 {
      assert r[i] == Block(b.addr, size, true) && r[i + 1] == Block(b.addr + 16 + size, b.size - size - 16, false);
    } else {
      assert r[i] == Block(b.addr, b.size, true);
    }
  }

  lemma PreparedBlock(bs: seq<Block>, i: nat, alignment: int)
    requires i < |bs| && alignment > 0 && !bs[i].used
    ensures var r, at := Prepared(bs, i, alignment), PreparedAt(bs, i, alignment);
      var p := AlignUp(bs[i].addr + 16, alignment);
      at < |r| && r[at] == Block(p - 16, bs[i].addr + 16 + bs[i].size - p, false)
  {
    var p := AlignUp(bs[i].addr + 16, alignment);
    AlignUpIsLeast(bs[i].addr + 16, alignment);
    AlignedOnce(bs[i].addr + 16, alignment, p);
    if bs[i].Payload() % alignment != 0 {
      var r := Realign(bs, i, alignment);
      assert r[PreparedAt(bs, i, alignment)] == Block(p - 16, bs[i].addr + 16 + bs[i].size - p, false);
    }
  }

  lemma GivenFrom(bs: seq<Block>, size: int, alignment: int) returns (b: Block, p: int, r: seq<Block>, at: nat)
    requires 0 < alignment && AlignedPointer(bs, size, alignment).Pointer?
    ensures b in bs && !b.used && b.addr + 16 <= p && AlignedPointer(bs, size, alignment) == Pointer(p)
    ensures at < |r| && r[at] == Block(p - 16, b.addr + 16 + b.size - p, false)
    ensures AllocateAligned(bs, size, alignment) == Take(r, at, size)
  {
    var i := FirstFit(bs, size, alignment);
    b, p := bs[i], AlignUp(bs[i].addr + 16, alignment);
    AlignUpIsLeast(bs[i].addr + 16, alignment);
    AlignedOnce(bs[i].addr + 16, alignment, p);
    PreparedBlock(bs, i, alignment);
    r, at := Prepared(bs, i, alignment), PreparedAt(bs, i, alignment);
  }

  /** What is handed out at `p` has the size asked for when at least 17 bytes would be left behind it, and then the rest
      is a free block of its own; otherwise it reaches to the end of the block it was taken from. */
  lemma SplitsFromSeventeen(bs: seq<Block>, size: int, alignment: int) returns (b: Block, p: int)
    requires 0 < alignment && AlignedPointer(bs, size, alignment).Pointer?
    ensures AlignedPointer(bs, size, alignment) == Pointer(p)
    ensures b in bs && !b.used && b.addr + 16 <= p
    ensures var after := AllocateAligned(bs, size, alignment); var left := b.addr + 16 + b.size - (p + size);
      if left >= 17 then Block(p - 16, size, true) in after && Block(p + size, left - 16, false) in after
      else Block(p - 16, size + left, true) in after
  {
    var r, at;
    b, p, r, at := GivenFrom(bs, size, alignment);
    TakeHolds(r, at, size);
  }

  /** Block `i` follows the block before it, and the block after it follows block `i`. */
  ghost predicate Adjacent(bs: seq<Block>, i: nat)
    requires i < |bs|
  {
    && (i > 0 ==> bs[i - 1].End() == bs[i].addr)
    && (i + 1 < |bs| ==> bs[i].End() == bs[i + 1].addr)
  }

  lemma JoinedHolds(bs: seq<Block>, i: nat)
    requires i < |bs| && Adjacent(bs, i) && !bs[i].used
    ensures var start := if i > 0 && !bs[i - 1].used then bs[i - 1].addr else bs[i].addr;
      var end := if i + 1 < |bs| && !bs[i + 1].used then bs[i + 1].addr + 16 + bs[i + 1].size else bs[i].addr + 16 + bs[i].size;
      Block(start, end - start - 16, false) in Joined(bs, i)
  {
    if i > 0 && !bs[i - 1].used {
      var m := Merge(bs, i - 1);
      assert m[i - 1] == Block(bs[i - 1].addr, bs[i].addr + 16 + bs[i].size - bs[i - 1].addr - 16, false);
      assert i < |m| ==> m[i] == bs[i + 1];
      MergedNextHolds(m, i - 1);
    } else {
      MergedNextHolds(bs, i);
    }
  }

  lemma MergedNextHolds(bs: seq<Block>, i: nat)
    requires i < |bs| && !bs[i].used
    ensures var merges := i + 1 < |bs| && !bs[i + 1].used;
      Block(bs[i].addr, if merges then bs[i].size + 16 + bs[i + 1].size else bs[i].size, false)
        in (if merges then Merge(bs, i) else bs)
  {
    if i + 1 < |bs| && !bs[i + 1].used {
      assert Merge(bs, i)[i] == Block(bs[i].addr, bs[i].size + 16 + bs[i + 1].size, false);
    }
  }

  lemma FreedJoined(bs: seq<Block>, i: nat, p: int)
    requires i < |bs| && Adjacent(bs, i) && BlockAt(bs, p) == i
    ensures var start := if i > 0 && !bs[i - 1].used then bs[i - 1].addr else bs[i].addr;
      var end := if i + 1 < |bs| && !bs[i + 1].used then bs[i + 1].addr + 16 + bs[i + 1].size else bs[i].addr + 16 + bs[i].size;
      Block(start, end - start - 16, false) in Free(bs, p)
  {
    var freed := bs[i := bs[i].(used := false)];
    assert Adjacent(freed, i);
    JoinedHolds(freed, i);
  }

  lemma AdjacentAt(bs: seq<Block>, lo: int, hi: int, i: nat)
    requires Tiles(bs, lo, hi) && i < |bs|
    ensures Adjacent(bs, i) && BlockAt(bs, bs[i].addr + 16) == i
  {
    BlockAtIs(bs, lo, hi, i);
  }

  /** What kfree leaves of block `i`: one free block, from the start of the free block before it, if there is one, to the
      end of the free block after it, if there is one. */
  lemma FreedReaches(bs: seq<Block>, lo: int, hi: int, i: nat)
    requires Tiles(bs, lo, hi) && i < |bs|
    ensures var start := if i > 0 && !bs[i - 1].used then bs[i - 1].addr else bs[i].addr;
      var end := if i + 1 < |bs| && !bs[i + 1].used then bs[i + 1].addr + 16 + bs[i + 1].size else bs[i].addr + 16 + bs[i].size;
      Block(start, end - start - 16, false) in Free(bs, bs[i].addr + 16)
  {
    AdjacentAt(bs, lo, hi, i);
    FreedJoined(bs, i, bs[i].addr + 16);
  }

  // ----- Whole runs -----------------------------------------------------------------------------

  function FreeAll(bs: seq<Block>, ps: seq<int>): seq<Block>
    decreases |ps|
  {
    if ps == [] then bs else FreeAll(Free(bs, ps[0]), ps[1..])
  }

  lemma {:induction false} FreeAllKeeps(bs: seq<Block>, lo: int, hi: int, ps: seq<int>)
    requires WellFormed(bs, lo, hi)
    ensures WellFormed(FreeAll(bs, ps), lo, hi)
    ensures Live(FreeAll(bs, ps)) == set b <- Live(bs) | b.Payload() !in ps
    decreases |ps|
  {
    if ps != [] {
      FreeKeeps(bs, lo, hi, ps[0]);
      FreeAllKeeps(Free(bs, ps[0]), lo, hi, ps[1..]);
      assert ps == [ps[0]] + ps[1..];
    }
  }

  /** The order in which blocks are freed leaves no trace in the heap. */
  lemma FreeOrderIrrelevant(bs: seq<Block>, lo: int, hi: int, ps: seq<int>, qs: seq<int>)
    requires WellFormed(bs, lo, hi)
    requires forall b <- Live(bs) :: b.Payload() in ps <==> b.Payload() in qs
    ensures FreeAll(bs, ps) == FreeAll(bs, qs)
  {
    FreeAllKeeps(bs, lo, hi, ps);
    FreeAllKeeps(bs, lo, hi, qs);
    assert Live(FreeAll(bs, ps)) == Live(FreeAll(bs, qs));
    LiveBlocksDetermineList(FreeAll(bs, ps), lo, hi, FreeAll(bs, qs));
  }

  /** Once every block in use has been freed, in whatever order, the heap is again the one free block
      that kheap_init made of it. */
  lemma FreeingEverythingRestoresHeap(bs: seq<Block>, lo: int, hi: int, ps: seq<int>)
    requires WellFormed(bs, lo, hi)
    requires forall b <- Live(bs) :: b.Payload() in ps
    ensures FreeAll(bs, ps) == [Block(lo, hi - lo - HEADER, false)]
  {
    FreeAllKeeps(bs, lo, hi, ps);
    AllOrdered(bs, lo, hi);
    var whole := [Block(lo, hi - lo - HEADER, false)];
    assert Live(FreeAll(bs, ps)) == {} && Live(whole) == {};
    LiveBlocksDetermineList(FreeAll(bs, ps), lo, hi, whole);
  }

  datatype Request = Malloc(size: nat) | Kfree(p: int)

  function Serve(bs: seq<Block>, q: Request): seq<Block>
  {
    match q
    case Malloc(size) => Allocate(bs, size)
    case Kfree(p) => Free(bs, p)
  }

  function Run(bs: seq<Block>, qs: seq<Request>): seq<Block>
    decreases |qs|
  {
    if qs == [] then bs else Run(Serve(bs, qs[0]), qs[1..])
  }

  /** The code does for the request what it is meant to do.  A single byte is asked for without alignment. */
  predicate Safe(bs: seq<Block>, q: Request) {
    q.Malloc? ==> q.size < WORD && (q.size != 1 ==> SafeRequest(bs, q.size, 4))
  }

  /** Every request of the run is safe when its turn comes. */
  predicate SafeRun(bs: seq<Block>, qs: seq<Request>)
    decreases |qs|
  {
    qs == [] || (Safe(bs, qs[0]) && SafeRun(Serve(bs, qs[0]), qs[1..]))
  }

  lemma ServeKeeps(bs: seq<Block>, lo: int, hi: int, q: Request)
    requires WellFormed(bs, lo, hi) && 0 < lo && hi < WORD && Safe(bs, q)
    ensures WellFormed(Serve(bs, q), lo, hi)
  {
    match q
    case Malloc(size) =>
      if size != 1 { AllocateKeeps(bs, lo, hi, size, 4); } else { AllocateKeeps(bs, lo, hi, size, 1); }
    case Kfree(p) => FreeKeeps(bs, lo, hi, p);
  }

  /** What a request returns; kfree returns nothing. */
  function Answer(bs: seq<Block>, q: Request): Allocation {
    if q.Kfree? then Null
    else if q.size != 1 then AlignedPointer(bs, q.size, 4)
    else
      var i := FirstFit(bs, q.size, 1);
      if i == |bs| then Null else Pointer(bs[i].Payload())
  }

  /** What the requests of a run return, one after the other. */
  function Answers(bs: seq<Block>, qs: seq<Request>): (rs: seq<Allocation>)
    ensures |rs| == |qs|
    decreases |qs|
  {
    if qs == [] then [] else [Answer(bs, qs[0])] + Answers(Serve(bs, qs[0]), qs[1..])
  }

  lemma {:induction false} AnswersMore(bs: seq<Block>, qs: seq<Request>, q: Request)
    ensures Answers(bs, qs + [q]) == Answers(bs, qs) + [Answer(Run(bs, qs), q)]
    decreases |qs|
  {
    if qs == [] {
      assert [q][1..] == [];
    } else {
      assert (qs + [q])[1..] == qs[1..] + [q];
      AnswersMore(Serve(bs, qs[0]), qs[1..], q);
    }
  }

  /** Block `b` is in use, with at least the size it had. */
  ghost predicate Survives(b: Block, bs: seq<Block>) {
    exists c :: c in bs && c.used && c.addr == b.addr && c.size >= b.size
  }

  /** Every block in use survives a request, unless it is the one freed. */
  lemma ServeSurvives(bs: seq<Block>, lo: int, hi: int, q: Request, b: Block)
    requires WellFormed(bs, lo, hi) && 0 < lo && b in Live(bs) && q != Kfree(b.Payload())
    ensures Survives(b, Serve(bs, q))
  {
    match q
    case Malloc(size) => AllocateSurvives(bs, lo, hi, size, if size != 1 then 4 else 1, b);
    case Kfree(p) =>
      FreeKeeps(bs, lo, hi, p);
      assert b in Live(Free(bs, p));
  }

  lemma HandedOverSurvives(bs: seq<Block>, after: seq<Block>, i: nat, taken: Block, b: Block)
    requires i < |bs| && HandedOver(bs, after, i, taken) && b in Live(bs) && taken.Payload() >= bs[i].Payload()
    ensures Survives(b, after)
  {
    var c := if i > 0 && b == bs[i - 1] then Grown(b, taken.Payload() - bs[i].Payload()) else b;
    assert c in Live(after);
  }

  lemma AllocateSurvives(bs: seq<Block>, lo: int, hi: int, size: int, alignment: int, b: Block)
    requires WellFormed(bs, lo, hi) && 0 < lo && 0 <= size && 0 < alignment && b in Live(bs)
    ensures Survives(b, AllocateAligned(bs, size, alignment))
  {
    var i, after := FirstFit(bs, size, alignment), AllocateAligned(bs, size, alignment);
    if i < |bs| && Realigns(bs, size, alignment) {
      AllocateRealignedLive(bs, lo, hi, size, alignment);
      AlignUpIsLeast(bs[i].Payload(), alignment);
      HandedOverSurvives(bs, after, i, Realigned(bs[i], size, alignment), b);
    } else if i < |bs| {
      AllocateInPlace(bs, lo, hi, size, alignment);
      assert b in Live(after);
    }
  }

  /** With repair H1 the heap stays tiled and coalesced over every run of safe requests. */
  lemma {:induction false} RunKeeps(bs: seq<Block>, qs: seq<Request>, lo: int, hi: int)
    requires WellFormed(bs, lo, hi) && 0 < lo && hi < WORD && SafeRun(bs, qs)
    ensures WellFormed(Run(bs, qs), lo, hi)
    decreases |qs|
  {
    if qs != [] {
      ServeKeeps(bs, lo, hi, qs[0]);
      RunKeeps(Serve(bs, qs[0]), qs[1..], lo, hi);
    }
  }

  /** Every address that the run frees is that of a block when its turn comes. */
  predicate FreesBlocks(bs: seq<Block>, qs: seq<Request>)
    decreases |qs|
  {
    qs == [] || ((qs[0].Kfree? ==> BlockAt(bs, qs[0].p) < |bs|) && FreesBlocks(Serve(bs, qs[0]), qs[1..]))
  }

  lemma {:induction false} RunMore(bs: seq<Block>, qs: seq<Request>, k: nat)
    requires k < |qs|
    ensures Run(bs, qs[..k + 1]) == Serve(Run(bs, qs[..k]), qs[k])
    ensures SafeRun(bs, qs) ==> Safe(Run(bs, qs[..k]), qs[k])
    ensures FreesBlocks(bs, qs) && qs[k].Kfree? ==> BlockAt(Run(bs, qs[..k]), qs[k].p) < |Run(bs, qs[..k])|
    decreases k
  {
    assert qs[..k + 1][1..] == qs[1..][..k];
    if k > 0 {
      assert qs[..k][1..] == qs[1..][..k - 1];
      RunMore(Serve(bs, qs[0]), qs[1..], k - 1);
    }
  }

  /** A request that ends below 2^32 even when it is made from the very end of the heap. */
  predicate Modest(q: Request, hi: int) {
    q.Malloc? ==> hi + 3 + q.size < WORD
  }

  lemma ModestIsSafe(bs: seq<Block>, lo: int, hi: int, q: Request)
    requires WellFormed(bs, lo, hi) && 0 < lo && lo % 4 == 0 && hi < WORD && Modest(q, hi)
    ensures Safe(bs, q)
  {
    if q.Malloc? {
      AllOrdered(bs, lo, hi);
      forall j | 0 <= j < FirstFit(bs, q.size, 4) ensures !Misjudged(bs[j], q.size, 4) {}
    }
  }

  /** On a 4-aligned heap, whatever the sizes, a run of such requests is safe. */
  lemma {:induction false} ModestRunIsSafe(bs: seq<Block>, qs: seq<Request>, lo: int, hi: int)
    requires WellFormed(bs, lo, hi) && 0 < lo && lo % 4 == 0 && hi < WORD
    requires forall k :: 0 <= k < |qs| ==> Modest(qs[k], hi)
    ensures SafeRun(bs, qs)
    decreases |qs|
  {
    if qs != [] {
      ModestIsSafe(bs, lo, hi, qs[0]);
      ServeKeeps(bs, lo, hi, qs[0]);
      ModestRunIsSafe(Serve(bs, qs[0]), qs[1..], lo, hi);
    }
  }

  ghost predicate WordAligned(bs: seq<Block>) {
    forall i :: 0 <= i < |bs| ==> bs[i].addr % 4 == 0 && bs[i].size % 4 == 0
  }

  lemma TakeAligned(bs: seq<Block>, i: nat, size: int)
    requires WordAligned(bs) && i < |bs| && size % 4 == 0
    ensures WordAligned(Take(bs, i, size))
  {
    var r := Take(bs, i, size);
    if bs[i].size >= size + HEADER + 1 {
      forall k | 0 <= k < |r| ensures r[k] == if k < i then bs[k] else if k > i + 1 then bs[k - 1] else r[k] {}
    }
  }

  lemma MergeAligned(bs: seq<Block>, i: nat)
    requires WordAligned(bs) && i + 1 < |bs|
    ensures WordAligned(Merge(bs, i))
  {
    var m := Merge(bs, i);
    forall k | 0 <= k < |m| ensures m[k] == if k < i then bs[k] else if k > i then bs[k + 1] else m[k] {}
  }

  lemma ReleaseAligned(bs: seq<Block>, i: nat)
    requires WordAligned(bs) && i < |bs|
    ensures WordAligned(Release(bs, i))
  {
    var freed := bs[i := bs[i].(used := false)];
    assert WordAligned(freed);
    JoinedAligned(freed, i);
  }

  lemma JoinedAligned(bs: seq<Block>, i: nat)
    requires WordAligned(bs) && i < |bs|
    ensures WordAligned(Joined(bs, i))
  {
    var back := i > 0 && !bs[i - 1].used;
    if back { MergeAligned(bs, i - 1); }
    var joined := if back then Merge(bs, i - 1) else bs;
    var at := if back then i - 1 else i;
    if at + 1 < |joined| && !joined[at + 1].used { MergeAligned(joined, at); }
  }

  lemma AlignedNeverRealigns(bs: seq<Block>, size: int)
    requires WordAligned(bs)
    ensures !Realigns(bs, size, 4)
  {
  }

  lemma ServeAligned(bs: seq<Block>, q: Request)
    requires WordAligned(bs)
    requires q.Malloc? ==> q.size % 4 == 0
    ensures WordAligned(Serve(bs, q))
  {
    match q
    case Malloc(size) =>
      AlignedNeverRealigns(bs, size);
      if FirstFit(bs, size, 4) < |bs| { TakeAligned(bs, FirstFit(bs, size, 4), size); }
    case Kfree(p) =>
      if BlockAt(bs, p) < |bs| { ReleaseAligned(bs, BlockAt(bs, p)); }
  }

  /** As written, without repair H1: on a 4-aligned heap asked only for multiples of 4, every header of
      every run stays 4-aligned, so that no request after it reaches the realignment branch. */
  lemma {:induction false} AlignedRunNeverRealigns(bs: seq<Block>, qs: seq<Request>, size: int)
    requires WordAligned(bs)
    requires forall k :: 0 <= k < |qs| && qs[k].Malloc? ==> qs[k].size % 4 == 0
    ensures WordAligned(Run(bs, qs))
    ensures !Realigns(Run(bs, qs), size, 4)
    decreases |qs|
  {
    if qs == [] {
      AlignedNeverRealigns(bs, size);
    } else {
      ServeAligned(bs, qs[0]);
      AlignedRunNeverRealigns(Serve(bs, qs[0]), qs[1..], size);
    }
  }

  /** So is, however large its requests, a run of multiples of 4 on a heap that is 4-aligned throughout. */
  lemma {:induction false} AlignedRunIsSafe(bs: seq<Block>, qs: seq<Request>)
    requires WordAligned(bs)
    requires forall k :: 0 <= k < |qs| && qs[k].Malloc? ==> qs[k].size % 4 == 0 && qs[k].size < WORD
    ensures SafeRun(bs, qs)
    decreases |qs|
  {
    if qs != [] {
      AlignedIsSafe(bs, qs[0]);
      ServeAligned(bs, qs[0]);
      AlignedRunIsSafe(Serve(bs, qs[0]), qs[1..]);
    }
  }

  lemma AlignedIsSafe(bs: seq<Block>, q: Request)
    requires WordAligned(bs) && (q.Malloc? ==> q.size < WORD)
    ensures Safe(bs, q)
  {
    if q.Malloc? {
      forall j | 0 <= j < |bs| ensures bs[j].Payload() % 4 == 0 {}
    }
  }
}
