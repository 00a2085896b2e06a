/** The kernel heap as a sequence of blocks: first fit, splitting, realignment and two-sided coalescing.

    The heap proper is the class `KernelHeap.Heap`, which edits header fields in memory and is proved
    to do to the blocks what the functions here say.  What those functions guarantee is proved in the
    module `HeapTheorems`. */
module HeapBlocks {
  import opened Memory

  const HEADER := 16

  datatype Block = Block(addr: int, size: int, used: bool) {
    function Payload(): int { addr + HEADER }
    function End(): int { addr + HEADER + size }
  }

  /** The blocks lie end to end and fill [lo, hi) exactly. */
  ghost predicate Tiles(bs: seq<Block>, lo: int, hi: int) {
    && |bs| > 0
    && bs[0].addr == lo
    && bs[|bs| - 1].End() == hi
    && (forall i :: 0 <= i < |bs| ==> bs[i].size >= 0)
    && (forall i, j :: 0 <= i < |bs| && 0 <= j < |bs| && j == i + 1 ==> bs[i].End() == bs[j].addr)
  }

  ghost predicate Coalesced(bs: seq<Block>) {
    forall i, j :: 0 <= i < |bs| && 0 <= j < |bs| && j == i + 1 ==> bs[i].used || bs[j].used
  }

  ghost predicate WellFormed(bs: seq<Block>, lo: int, hi: int) {
    Tiles(bs, lo, hi) && Coalesced(bs)
  }

  /** The least multiple of `alignment` that is at least `x`. */
  function AlignUp(x: int, alignment: int): (r: int)
    requires alignment > 0
    ensures x <= r < x + alignment
  {
    x + (alignment - 1 - (x - 1) % alignment)
  }

  /** Whether the search stops at `b`: a free block already aligned must be strictly larger than the
      request; any other must leave a header and the request behind its first aligned address. */
  predicate Suits(b: Block, size: int, alignment: int)
    requires alignment > 0
  {
    && !b.used
    && if b.Payload() % alignment == 0 then b.size > size
       else b.End() - AlignUp(b.Payload(), alignment) >= size + HEADER
  }

  /** The first block at or after `k` that suits, or `|bs|`. */
  function FirstFit(bs: seq<Block>, size: int, alignment: int, k: nat := 0): (i: nat)
    requires k <= |bs| && alignment > 0
    ensures k <= i <= |bs|
    ensures i < |bs| ==> Suits(bs[i], size, alignment)
    ensures forall j :: k <= j < i ==> !Suits(bs[j], size, alignment)
    decreases |bs| - k
  {
    if k == |bs| || Suits(bs[k], size, alignment) then k else FirstFit(bs, size, alignment, k + 1)
  }

  // ----- The same tests in 32 bits -----------------------------------------------------------------

  /** Whether the code stops at `b`: the same tests, where every sum wraps at 2^32. */
  predicate Judged(b: Block, size: int, alignment: int)
    requires alignment > 0
  {
    && !b.used
    && if b.Payload() % alignment == 0 then b.size > size
       else
         var a := U32(AlignUp(b.Payload(), alignment));
         U32(a + size) <= b.End() && U32(b.End() - a) >= U32(size + HEADER)
  }

  /** From the address `a` on, a request of that size, taken modulo 2^32, comes to lie before `end`. */
  predicate ComesRound(a: int, end: int, size: int) {
    if size + HEADER < WORD then a > end && WORD <= a + size && a + size + HEADER <= WORD + end
    else if a <= end then a + size + HEADER <= WORD + end
    else a + size <= WORD + end || (2 * WORD <= a + size && a + size + HEADER <= 2 * WORD + end)
  }

  /** The request is so large that, from the aligned address on, it comes round to an address before the end of `b`. */
  predicate Misjudged(b: Block, size: int, alignment: int)
    requires alignment > 0
  {
    var a, end := AlignUp(b.Payload(), alignment), b.End();
    && !b.used && b.Payload() % alignment != 0
    && ComesRound(a, end, size)
  }

  /** The block that the code stops at, or `|bs|`. */
  function Stop(bs: seq<Block>, size: int, alignment: int, k: nat := 0): (i: nat)
    requires k <= |bs| && alignment > 0
    ensures k <= i <= |bs|
    ensures i < |bs| ==> Judged(bs[i], size, alignment)
    ensures forall j :: k <= j < i ==> !Judged(bs[j], size, alignment)
    decreases |bs| - k
  {
    if k == |bs| || Judged(bs[k], size, alignment) then k else Stop(bs, size, alignment, k + 1)
  }

  /** Room for the header of a realigned first block, whose gap has no block before it to go to. */
  predicate GapFits(b: Block, alignment: int)
    requires alignment > 0
  {
    b.Payload() % alignment == 0 || AlignUp(b.Payload(), alignment) >= b.Payload() + HEADER
  }

  /** The code does for this request what it is meant to do: it passes over no block wrongly, and if it realigns
      the first block there is room for a header in the gap. */
  predicate SafeRequest(bs: seq<Block>, size: int, alignment: int)
    requires alignment > 0
  {
    var i := FirstFit(bs, size, alignment);
    && (forall j :: 0 <= j < i ==> !Misjudged(bs[j], size, alignment))
    && (i == 0 && Realigns(bs, size, alignment) ==> GapFits(bs[0], alignment))
  }

  // ----- What is done to the blocks ------------------------------------------------------------------

  /** Block `i` handed out for `size` bytes; what a header and one byte can use is split off. */
  function Take(bs: seq<Block>, i: nat, size: int): seq<Block>
    requires i < |bs|
  {
    var b := bs[i];
    if b.size >= size + HEADER + 1 then
      bs[..i] + [Block(b.addr, size, true), Block(b.addr + HEADER + size, b.size - size - HEADER, false)] + bs[i + 1..]
    else
      bs[i := Block(b.addr, b.size, true)]
  }

  /** Block `i` moved up to its first aligned payload address.  The gap goes to the block before it;
      when there is none, the gap stays behind as a free block. */
  function Realign(bs: seq<Block>, i: nat, alignment: int): seq<Block>
    requires i < |bs| && alignment > 0
  {
    var b := bs[i];
    var a := AlignUp(b.Payload(), alignment);
    var moved := Block(a - HEADER, b.End() - a, false);
    if i == 0 then
      [Block(b.addr, a - HEADER - b.Payload(), false), moved] + bs[1..]
    else
      bs[..i - 1] + [bs[i - 1].(size := bs[i - 1].size + (a - HEADER - b.addr)), moved] + bs[i + 1..]
  }

  /** The blocks once block `i` has been moved up where that is needed, and where in them it then is. */
  function Prepared(bs: seq<Block>, i: nat, alignment: int): seq<Block>
    requires i < |bs| && alignment > 0
  {
    if bs[i].Payload() % alignment == 0 then bs else Realign(bs, i, alignment)
  }

  function PreparedAt(bs: seq<Block>, i: nat, alignment: int): nat
    requires i < |bs| && alignment > 0
  {
    if i == 0 && bs[i].Payload() % alignment != 0 then 1 else i
  }

  datatype Allocation = Pointer(addr: int) | Null | Panic

  predicate Realigns(bs: seq<Block>, size: int, alignment: int)
    requires alignment > 0
  {
    var i := FirstFit(bs, size, alignment);
    i < |bs| && bs[i].Payload() % alignment != 0
  }

  /** The blocks after kmalloc_alligned. */
  function AllocateAligned(bs: seq<Block>, size: int, alignment: int): seq<Block>
    requires alignment > 0
  {
    var i := FirstFit(bs, size, alignment);
    if i == |bs| then bs else Take(Prepared(bs, i, alignment), PreparedAt(bs, i, alignment), size)
  }

  /** What kmalloc_alligned returns. */
  function AlignedPointer(bs: seq<Block>, size: int, alignment: int): Allocation
    requires alignment > 0
  {
    var i := FirstFit(bs, size, alignment);
    if i == |bs| then Panic
    else Pointer(if bs[i].Payload() % alignment == 0 then bs[i].Payload() else AlignUp(bs[i].Payload(), alignment))
  }

  /** The blocks after kmalloc. */
  function Allocate(bs: seq<Block>, size: int): seq<Block>
  {
    if size != 1 then AllocateAligned(bs, size, 4)
    else
      var i := FirstFit(bs, size, 1);
      if i == |bs| then bs else Take(bs, i, size)
  }

  /** Blocks `i` and `i + 1` run together. */
  function Merge(bs: seq<Block>, i: nat): seq<Block>
    requires i + 1 < |bs|
  {
    bs[..i] + [Block(bs[i].addr, bs[i].size + HEADER + bs[i + 1].size, bs[i].used)] + bs[i + 2..]
  }

  /** Free block `i` run together with its free neighbours, the one before it first. */
  function Joined(bs: seq<Block>, i: nat): seq<Block>
    requires i < |bs|
  {
    var back := i > 0 && !bs[i - 1].used;
    var joined := if back then Merge(bs, i - 1) else bs;
    var at := if back then i - 1 else i;
    if at + 1 < |joined| && !joined[at + 1].used then Merge(joined, at) else joined
  }

  /** Block `i` released and run together with its free neighbours. */
  function Release(bs: seq<Block>, i: nat): seq<Block>
    requires i < |bs|
  {
    Joined(bs[i := bs[i].(used := false)], i)
  }

  /** The blocks in use. */
  function Live(bs: seq<Block>): set<Block> {
    set b <- bs | b.used
  }
}
