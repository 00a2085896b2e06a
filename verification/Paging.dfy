/** The kernel's page table and its page allocator, in step with the frame allocator. */
module Paging {
  import opened Options
  import opened Memory
  import opened Bits
  import opened Frames

  const KERNEL_VIRTUAL_BASE := 0xC000_0000
  const KERNEL_PAGE_NUMBER := 768
  const ENTRIES := 1024
  const FLAGS := 7  // present, writable, user

  predicate Present(entry: nat) { entry % 2 == 1 }

  /** The frame an entry points to. */
  function FrameOf(entry: nat): nat { entry / FRAME_SIZE }

  function PageOf(slot: nat): nat { KERNEL_VIRTUAL_BASE + slot * FRAME_SIZE }

  function DirectoryIndex(virtualAddr: nat): nat { virtualAddr / 0x40_0000 }

  function TableIndex(virtualAddr: nat): (i: nat)
    ensures i < ENTRIES
  {
    (virtualAddr / FRAME_SIZE) % ENTRIES
  }

  /** Present entries point to different frames, all of them in use. */
  ghost predicate Sound(pt: seq<nat>, m: seq<nat>, n: nat) {
    && (forall i {:trigger Maps(pt, m, n, i)} :: 0 <= i < |pt| ==> Maps(pt, m, n, i))
    && (forall i, j {:trigger Present(pt[i]), Present(pt[j])} ::
        0 <= i < |pt| && 0 <= j < |pt| && i != j && Present(pt[i]) && Present(pt[j]) ==> FrameOf(pt[i]) != FrameOf(pt[j]))
  }

  ghost predicate Maps(pt: seq<nat>, m: seq<nat>, n: nat, i: nat)
    requires i < |pt|
  {
    Present(pt[i]) ==>
      && pt[i] % FRAME_SIZE == FLAGS
      && FrameOf(pt[i]) < n && InMap(m, FrameOf(pt[i])) && Used(m, FrameOf(pt[i]))
  }

  /** The address and the flags in an entry. */
  lemma EntryParts(address: int, flags: int)
    requires address % FRAME_SIZE == 0 && 0 <= flags < FRAME_SIZE
    ensures (address + flags) % FRAME_SIZE == flags && (address + flags) - (address + flags) % FRAME_SIZE == address
  {
  }

  lemma FramePart(entry: nat)
    ensures entry - entry % FRAME_SIZE == FrameOf(entry) * FRAME_SIZE
  {
  }

  lemma SlotOf(page: nat)
    requires KERNEL_VIRTUAL_BASE <= page < KERNEL_VIRTUAL_BASE + ENTRIES * FRAME_SIZE
    ensures TableIndex(page) == (page - KERNEL_VIRTUAL_BASE) / FRAME_SIZE
  {
  }

  lemma EntryOf(f: nat)
    ensures FrameOf(f * FRAME_SIZE + FLAGS) == f && Present(f * FRAME_SIZE + FLAGS) && (f * FRAME_SIZE + FLAGS) % FRAME_SIZE == FLAGS
  {
  }

  lemma MapKeeps(pt: seq<nat>, m: seq<nat>, n: nat, slot: nat, f: nat)
    requires Bitmap(m) && n <= |m| * WORD_BITS && Sound(pt, m, n)
    requires slot < |pt| && f < n && !Used(m, f)
    ensures Sound(pt[slot := f * FRAME_SIZE + FLAGS], Mark(m, f), n)
  {
    var pt' := pt[slot := f * FRAME_SIZE + FLAGS];
    EntryOf(f);
    MarkMeans(m, f, f);
    forall i | 0 <= i < |pt'| ensures Maps(pt', Mark(m, f), n, i) {
      assert Maps(pt, m, n, i);
      if Present(pt[i]) { MarkMeans(m, f, FrameOf(pt[i])); }
    }
    forall i, j | 0 <= i < |pt'| && 0 <= j < |pt'| && i != j && Present(pt'[i]) && Present(pt'[j])
      ensures FrameOf(pt'[i]) != FrameOf(pt'[j])
    {
      assert Maps(pt, m, n, i) && Maps(pt, m, n, j);
    }
  }

  lemma UnmapKeeps(pt: seq<nat>, m: seq<nat>, n: nat, slot: nat)
    requires Bitmap(m) && n <= |m| * WORD_BITS && Sound(pt, m, n)
    requires slot < |pt| && Present(pt[slot]) && FrameOf(pt[slot]) < n
    ensures Sound(pt[slot := 0], ReleaseOne(m, FrameOf(pt[slot])), n)
  {
    var f, pt' := FrameOf(pt[slot]), pt[slot := 0];
    forall i | 0 <= i < |pt'| ensures Maps(pt', ReleaseOne(m, f), n, i) {
      assert Maps(pt, m, n, i);
      if i != slot && Present(pt[i]) { ReleaseOneMeans(m, f, FrameOf(pt[i])); }
    }
    forall i, j | 0 <= i < |pt'| && 0 <= j < |pt'| && i != j && Present(pt'[i]) && Present(pt'[j])
      ensures FrameOf(pt'[i]) != FrameOf(pt'[j])
    {
      assert Present(pt[i]) && Present(pt[j]);
    }
  }

  /** As written, where freeing a frame clears its whole group, unmapping a page keeps the mapping sound
      exactly when no other mapped page has a frame in that group. */
  lemma UnmapAsWritten(pt: seq<nat>, m: seq<nat>, n: nat, slot: nat)
    requires Bitmap(m) && n <= |m| * WORD_BITS && Sound(pt, m, n)
    requires slot < |pt| && Present(pt[slot]) && FrameOf(pt[slot]) < n
    ensures Sound(pt[slot := 0], ReleaseGroup(m, FrameOf(pt[slot])), n) <==>
      forall i :: 0 <= i < |pt| && i != slot && Present(pt[i]) ==> FrameOf(pt[i]) / WORD_BITS != FrameOf(pt[slot]) / WORD_BITS
  {
    var f, pt' := FrameOf(pt[slot]), pt[slot := 0];
    var m' := ReleaseGroup(m, f);
    forall i | 0 <= i < |pt| && i != slot && Present(pt[i])
      ensures Maps(pt', m', n, i) <==> FrameOf(pt[i]) / WORD_BITS != f / WORD_BITS
    {
      assert Maps(pt, m, n, i);
      ReleaseGroupMeans(m, f, FrameOf(pt[i]));
    }
    forall i, j | 0 <= i < |pt'| && 0 <= j < |pt'| && i != j && Present(pt'[i]) && Present(pt'[j])
      ensures FrameOf(pt'[i]) != FrameOf(pt'[j])
    {
      assert Present(pt[i]) && Present(pt[j]);
    }
    assert Maps(pt', m', n, slot);
  }

  /** Pages on frames 0 and 1 are such a group: once the second is unmapped as written, the first is mapped to
      a frame that is no longer marked used. */
  lemma UnmapLosesNeighbour(pt: seq<nat>, m: seq<nat>, n: nat)
    requires Bitmap(m) && 2 <= n <= |m| * WORD_BITS && Lowest(m, 2) && IdentityBelow(pt, 2)
    ensures Sound(pt, m, n) && Present(pt[1]) && FrameOf(pt[1]) == 1
    ensures !Sound(pt[1 := 0], ReleaseGroup(m, 1), n)
  {
    assert pt[0] == FLAGS && pt[1] == FRAME_SIZE + FLAGS && Present(pt[0]) && Present(pt[1]);
    assert FrameOf(pt[0]) == 0 && FrameOf(pt[1]) == 1;
    forall i | 0 <= i < |pt| ensures Maps(pt, m, n, i) {
      if i >= 2 { assert pt[i] == 0; }
    }
    UnmapAsWritten(pt, m, n, 1);
  }

  /** Once a slot has been filled, all are present exactly when the others were. */
  lemma OthersPresent(pt: seq<nat>, slot: nat, f: nat)
    requires |pt| == ENTRIES && slot < ENTRIES
    ensures var pt' := pt[slot := f * FRAME_SIZE + FLAGS];
      (forall j :: 0 <= j < ENTRIES ==> Present(pt'[j])) <==> forall j :: 0 <= j < ENTRIES && j != slot ==> Present(pt[j])
  {
    var pt' := pt[slot := f * FRAME_SIZE + FLAGS];
    EntryOf(f);
    assert forall j :: 0 <= j < ENTRIES && j != slot ==> pt'[j] == pt[j];
  }

  /** `page` is the first page whose slot is not present. */
  ghost predicate FirstAbsent(pt: seq<nat>, page: nat) {
    && |pt| == ENTRIES
    && KERNEL_VIRTUAL_BASE <= page < KERNEL_VIRTUAL_BASE + ENTRIES * FRAME_SIZE && page % FRAME_SIZE == 0
    && !Present(pt[TableIndex(page)])
    && forall j :: 0 <= j < TableIndex(page) ==> Present(pt[j])
  }

  class Pager {
    const frames: FrameMap
    /** Where the only page table lies, as a virtual address. */
    const tableAddr: nat
    var pageDir: seq<nat>
    var pageTable: seq<nat>
    var nextFreePage: nat

    ghost predicate Valid()
      reads this, frames
    {
      && frames.Valid()
      && KERNEL_VIRTUAL_BASE <= tableAddr < WORD && tableAddr % FRAME_SIZE == 0
      && |pageDir| == |pageTable| == ENTRIES
      && (forall i :: 0 <= i < ENTRIES ==>
          pageDir[i] == if i == KERNEL_PAGE_NUMBER then tableAddr - KERNEL_VIRTUAL_BASE + FLAGS else 2)
      && Sound(pageTable, frames.frameMap, frames.nframes)
      && KERNEL_VIRTUAL_BASE <= nextFreePage < KERNEL_VIRTUAL_BASE + ENTRIES * FRAME_SIZE
      && !Present(pageTable[TableIndex(nextFreePage)])
    }

    /** init_paging: the kernel's own pages are mapped to the frames of the same number. */
    constructor (endKernel: nat, frames: FrameMap, tableAddr: nat)
      requires frames.Valid() && Lowest(frames.frameMap, FirstFree(endKernel)) && FirstFree(endKernel) <= frames.nframes
      requires FirstFree(endKernel) < ENTRIES
      requires KERNEL_VIRTUAL_BASE <= tableAddr < WORD && tableAddr % FRAME_SIZE == 0
      ensures Valid() && this.frames == frames && InStep(FirstFree(endKernel))
      ensures forall i :: 0 <= i < 1024 ==> pageDir[i] == if i == 768 then tableAddr - 0xC000_0000 + 7 else 2
      ensures forall i :: 0 <= i < 1024 ==> pageTable[i] == if i < FirstFree(endKernel) then i * 0x1000 + 7 else 0
      ensures nextFreePage == 0xC000_0000 + FirstFree(endKernel) * 0x1000
    {
      var k := FirstFree(endKernel);
      var pd := seq(ENTRIES, _ => 2);
      var pt := seq(ENTRIES, _ => 0);
      for i := 0 to k
        invariant |pt| == ENTRIES
        invariant forall j :: 0 <= j < ENTRIES ==> pt[j] == if j < i then j * FRAME_SIZE + FLAGS else 0
      {
        pt := pt[i := i * FRAME_SIZE + FLAGS];
      }
      this.frames, this.tableAddr := frames, tableAddr;
      pageDir := pd[KERNEL_PAGE_NUMBER := tableAddr - KERNEL_VIRTUAL_BASE + FLAGS];
      pageTable := pt;
      nextFreePage := PageOf(k);
      new;
      forall i | 0 <= i < ENTRIES ensures Maps(pageTable, frames.frameMap, frames.nframes, i) {}
    }

    ghost function State(): Mapping
      reads this, frames
    {
      Mapping(pageTable, frames.frameMap, nextFreePage)
    }

    /** Pages and frames have been handed out side by side: exactly the first `k` of each are taken, and
        page `i` is backed by frame `i`. */
    ghost predicate InStep(k: nat)
      reads this, frames
    {
      && k < ENTRIES && Lowest(frames.frameMap, k) && IdentityBelow(pageTable, k)
      && nextFreePage == PageOf(k)
    }

    /** find_free_page; None is the panic. */
    method FindFreePage() returns (r: Option<nat>)
      requires |pageTable| == ENTRIES
      ensures r.Some? ==> FirstAbsent(pageTable, r.value)
      ensures r.None? <==> forall j :: 0 <= j < ENTRIES ==> Present(pageTable[j])
    {
      for i := 0 to ENTRIES
        invariant forall j :: 0 <= j < i ==> Present(pageTable[j])
      {
        if !Present(pageTable[i]) {
          assert TableIndex(PageOf(i)) == i;
          return Some(PageOf(i));
        }
      }
      r := None;
    }

    /** The first half of kalloc_page: a frame is allocated and mapped at next_free_page. */
    method MapNext() returns (ok: bool)
      requires Valid()
      modifies this`pageTable, frames`frameMap
      ensures frames.Valid() && |pageTable| == ENTRIES && Sound(pageTable, frames.frameMap, frames.nframes)
      ensures var m := old(frames.frameMap); var f := Scan(m, frames.nframes);
        && (ok <==> f < frames.nframes)
        && (ok ==> !Used(m, f) && frames.frameMap == Mark(m, f))
        && (ok ==> pageTable == old(pageTable)[TableIndex(nextFreePage) := f * FRAME_SIZE + FLAGS])
    {
      ghost var m := frames.frameMap;
      var frame := frames.KallocFrame();
      if frame.None? {
        return false;
      }
      var slot := (nextFreePage - KERNEL_VIRTUAL_BASE) / FRAME_SIZE;
      SlotOf(nextFreePage);
      FoundIsFree(m, frames.nframes);
      MapKeeps(pageTable, m, frames.nframes, slot, Scan(m, frames.nframes));
      pageTable := pageTable[slot := frame.value + FLAGS];
      ok := true;
    }

    /** No frame is to be had, or no page besides the next one. */
    ghost predicate AllocPanics()
      requires Valid()
      reads this, frames
    {
      || Scan(frames.frameMap, frames.nframes) == frames.nframes
      || forall j :: 0 <= j < ENTRIES && j != TableIndex(nextFreePage) ==> Present(pageTable[j])
    }

    /** kalloc_page; None is a panic, for want of a frame or of a further page. */
    method KallocPage() returns (r: Option<nat>)
      requires Valid()
      modifies this`pageTable, this`nextFreePage, frames`frameMap
      ensures r.Some? ==> Valid() && FirstAbsent(pageTable, nextFreePage)
      ensures var m := old(frames.frameMap); var f := Scan(m, frames.nframes);
        r.Some? ==>
          && r.value == old(nextFreePage) && f < frames.nframes && !Used(m, f) && frames.frameMap == Mark(m, f)
          && pageTable == old(pageTable)[TableIndex(old(nextFreePage)) := f * FRAME_SIZE + FLAGS]
          && r.value / 0x40_0000 == 768 && pageTable == old(pageTable)[r.value / 0x1000 % 1024 := f * 0x1000 + 7]
      ensures r.None? <==> old(AllocPanics())
    {
      ghost var pt := pageTable;
      var ok := MapNext();
      if !ok {
        return None;
      }
      var page := nextFreePage;
      KernelRange(page);
      var next := FindFreePage();
      OthersPresent(pt, TableIndex(page), Scan(old(frames.frameMap), frames.nframes));
      if next.None? {
        return None;
      }
      nextFreePage := next.value;
      r := Some(page);
    }

    /** get_phys_addr; None is a panic. */
    method GetPhysAddr(virtualAddr: nat) returns (r: Option<nat>)
      requires Valid() && virtualAddr < WORD
      ensures r == Translate(pageTable, virtualAddr)
    {
      var pdIndex, ptIndex := DirectoryIndex(virtualAddr), TableIndex(virtualAddr);
      if !Present(pageDir[pdIndex]) {
        return None;
      }
      var pt := pageDir[pdIndex] - pageDir[pdIndex] % FRAME_SIZE + KERNEL_VIRTUAL_BASE;
      EntryParts(tableAddr - KERNEL_VIRTUAL_BASE, FLAGS);
      assert pt == tableAddr;
      if !Present(pageTable[ptIndex]) {
        return None;
      }
      FramePart(pageTable[ptIndex]);
      r := Some(pageTable[ptIndex] - pageTable[ptIndex] % FRAME_SIZE + virtualAddr % FRAME_SIZE);
    }

    /** kfree_page, on frames freed one by one (repair F1); false is a panic.  The address need not be the start
        of its page, and is the next one handed out as it is. */
    method KfreePage(virtualAddr: nat) returns (ok: bool)
      requires Valid() && virtualAddr < WORD
      modifies this`pageTable, this`nextFreePage, frames`frameMap
      ensures Valid()
      ensures ok <==> Translate(old(pageTable), virtualAddr).Some?
      ensures ok ==> var slot := TableIndex(virtualAddr); var f := FrameOf(old(pageTable)[slot]);
        && Present(old(pageTable)[slot]) && InMap(old(frames.frameMap), f)
        && pageTable == old(pageTable)[slot := 0]
        && frames.frameMap == ReleaseOne(old(frames.frameMap), f)
        && nextFreePage == virtualAddr
      ensures ok ==> var slot := virtualAddr / 0x1000 % 1024; var f := old(pageTable)[slot] / 0x1000;
        && virtualAddr / 0x40_0000 == 768 && pageTable == old(pageTable)[slot := 0] && nextFreePage == virtualAddr
        && f / 32 < 0x2000 && frames.frameMap == ReleaseOne(old(frames.frameMap), f)
      ensures !ok ==> pageTable == old(pageTable) && nextFreePage == old(nextFreePage) && frames.frameMap == old(frames.frameMap)
    {
      var phys := GetPhysAddr(virtualAddr);
      if phys.None? {
        return false;
      }
      var ptIndex := TableIndex(virtualAddr);
      assert Maps(pageTable, frames.frameMap, frames.nframes, ptIndex);
      UnmapKeeps(pageTable, frames.frameMap, frames.nframes, ptIndex);
      assert phys.value / FRAME_SIZE == FrameOf(pageTable[ptIndex]);
      ok := frames.KfreeOneFrame(phys.value);
      pageTable := pageTable[ptIndex := 0];
      nextFreePage := virtualAddr;
    }
  }

  /** 32-bit paging through the kernel's one page table: the entry's frame, and the offset in the page. */
  function Translate(pt: seq<nat>, virtualAddr: nat): Option<nat>
    requires |pt| == ENTRIES
  {
    if DirectoryIndex(virtualAddr) != KERNEL_PAGE_NUMBER || !Present(pt[TableIndex(virtualAddr)]) then None
    else Some(FrameOf(pt[TableIndex(virtualAddr)]) * FRAME_SIZE + virtualAddr % FRAME_SIZE)
  }

  /** The same in numbers. */
  lemma TranslateInNumbers(pt: seq<nat>, a: nat)
    requires |pt| == 1024
    ensures Translate(pt, a).Some? <==> a / 0x40_0000 == 768 && pt[a / 0x1000 % 1024] % 2 == 1
    ensures Translate(pt, a).Some? ==>
      Translate(pt, a).value == pt[a / 0x1000 % 1024] - pt[a / 0x1000 % 1024] % 0x1000 + a % 0x1000
  {
    FramePart(pt[TableIndex(a)]);
  }

  /** The slot of a kernel page tells its number. */
  lemma PageNumber(a: nat)
    requires DirectoryIndex(a) == KERNEL_PAGE_NUMBER
    ensures a / FRAME_SIZE == KERNEL_PAGE_NUMBER * ENTRIES + TableIndex(a)
  {
  }

  lemma KernelRange(a: nat)
    requires KERNEL_VIRTUAL_BASE <= a < KERNEL_VIRTUAL_BASE + ENTRIES * FRAME_SIZE
    ensures DirectoryIndex(a) == KERNEL_PAGE_NUMBER
  {
  }

  lemma DirectoryOfPage(a: nat)
    ensures DirectoryIndex(a) == a / FRAME_SIZE / ENTRIES
  {
  }

  /** A new entry for one page changes the translation of no other. */
  lemma TranslateOther(pt: seq<nat>, page: nat, entry: nat, a: nat)
    requires |pt| == ENTRIES && DirectoryIndex(page) == KERNEL_PAGE_NUMBER && a / FRAME_SIZE != page / FRAME_SIZE
    ensures Translate(pt[TableIndex(page) := entry], a) == Translate(pt, a)
  {
    PageNumber(page);
    if DirectoryIndex(a) == KERNEL_PAGE_NUMBER { PageNumber(a); }
  }

  /** An address inside a page just mapped is translated to the same offset in its frame, and no other
      page's translation changes. */
  lemma TranslateMapped(pt: seq<nat>, page: nat, f: nat, a: nat)
    requires |pt| == ENTRIES && DirectoryIndex(page) == KERNEL_PAGE_NUMBER
    ensures var pt' := pt[TableIndex(page) := f * FRAME_SIZE + FLAGS];
      Translate(pt', a) ==
        if a / FRAME_SIZE == page / FRAME_SIZE then Some(f * FRAME_SIZE + a % FRAME_SIZE) else Translate(pt, a)
  {
    if a / FRAME_SIZE == page / FRAME_SIZE {
      DirectoryOfPage(a);
      DirectoryOfPage(page);
    } else {
      TranslateOther(pt, page, f * FRAME_SIZE + FLAGS, a);
    }
  }

  // ----- Whole runs -----------------------------------------------------------------------------------

  /** The page table, the frame bitmap and the page to hand out next. */
  datatype Mapping = Mapping(table: seq<nat>, map_: seq<nat>, next: nat)

  /** All is well with a mapping: what Pager.Valid says of it. */
  ghost predicate Consistent(s: Mapping, n: nat) {
    && |s.table| == ENTRIES && Bitmap(s.map_) && n <= |s.map_| * WORD_BITS && Sound(s.table, s.map_, n)
    && KERNEL_VIRTUAL_BASE <= s.next < KERNEL_VIRTUAL_BASE + ENTRIES * FRAME_SIZE && !Present(s.table[TableIndex(s.next)])
  }

  datatype Op = AllocPage | FreePage(virtualAddr: nat)

  /** kalloc_page panics for want of a frame to give, or of a page to give next; kfree_page, when the address is
      not mapped. */
  ghost predicate Panics(s: Mapping, n: nat, op: Op)
    requires Consistent(s, n)
  {
    match op
    case AllocPage =>
      || Scan(s.map_, n) == n
      || forall j :: 0 <= j < ENTRIES && j != TableIndex(s.next) ==> Present(s.table[j])
    case FreePage(virtualAddr) => Translate(s.table, U32(virtualAddr)).None?
  }

  /** The operation has returned, or freed, the page at `page`, which was not mapped before, or is not any more. */
  ghost predicate Served(s: Mapping, n: nat, op: Op, page: nat, s': Mapping)
    requires Consistent(s, n)
  {
    var slot := TableIndex(page);
    match op
    case AllocPage =>
      var f := Scan(s.map_, n);
      && f < n && page == s.next && !Present(s.table[slot]) && !Used(s.map_, f)
      && s'.table == s.table[slot := f * FRAME_SIZE + FLAGS] && s'.map_ == Mark(s.map_, f)
      && FirstAbsent(s'.table, s'.next)
    case FreePage(virtualAddr) =>
      && page == U32(virtualAddr) == s'.next && Present(s.table[slot]) && Maps(s.table, s.map_, n, slot)
      && s'.table == s.table[slot := 0] && s'.map_ == ReleaseOne(s.map_, FrameOf(s.table[slot]))
  }

  /** An operation that does not panic keeps the mapping consistent. */
  lemma ServedKeeps(s: Mapping, n: nat, op: Op, page: nat, s': Mapping)
    requires Consistent(s, n) && !Panics(s, n, op) && Served(s, n, op, page, s')
    ensures Consistent(s', n)
  {
    var slot := TableIndex(page);
    match op
    case AllocPage =>
      var f := Scan(s.map_, n);
      MapKeeps(s.table, s.map_, n, slot, f);
      MarkMeans(s.map_, f, f);
    case FreePage(virtualAddr) =>
      UnmapKeeps(s.table, s.map_, n, slot);
      ReleaseOneMeans(s.map_, FrameOf(s.table[slot]), FrameOf(s.table[slot]));
  }

  /** The mappings that the operations lead through, with the page of each, up to the first that panics. */
  ghost predicate IsRun(trace: seq<Mapping>, n: nat, ops: seq<Op>, pages: seq<nat>, panicked: bool) {
    && |pages| <= |ops| && |trace| == |pages| + 1
    && (forall k {:trigger trace[k]} :: 0 <= k < |trace| ==> Consistent(trace[k], n))
    && (forall k :: 0 <= k < |pages| ==> StepAt(trace, n, ops, pages, k))
    && (panicked <==> |pages| < |ops|)
    && (panicked ==> Panics(trace[|pages|], n, ops[|pages|]))
  }

  ghost predicate StepAt(trace: seq<Mapping>, n: nat, ops: seq<Op>, pages: seq<nat>, k: nat)
    requires k < |pages| <= |ops| && |trace| == |pages| + 1 && Consistent(trace[k], n)
  {
    !Panics(trace[k], n, ops[k]) && Served(trace[k], n, ops[k], pages[k], trace[k + 1])
  }

  /** The addresses handed out by the first operations and not freed since, with the frames behind them. */
  function Owned(trace: seq<Mapping>, n: nat, ops: seq<Op>, pages: seq<nat>, k: nat): map<nat, nat>
    requires k <= |pages| <= |ops| && |trace| == |pages| + 1
    requires forall s <- trace :: n <= |s.map_| * WORD_BITS
  {
    if k == 0 then map[]
    else
      var owned, page := Owned(trace, n, ops, pages, k - 1), pages[k - 1];
      if ops[k - 1].AllocPage? then owned[page := Scan(trace[k - 1].map_, n)] else WithoutPage(owned, page)
  }

  function WithoutPage(owned: map<nat, nat>, page: nat): map<nat, nat> {
    map a | a in owned && a / FRAME_SIZE != page / FRAME_SIZE :: owned[a]
  }

  /** Every address of `owned` is mapped to the frame recorded for it, no two of them on the same page. */
  ghost predicate Backed(pt: seq<nat>, owned: map<nat, nat>)
    requires |pt| == ENTRIES
  {
    && (forall a <- owned :: Translate(pt, a) == Some(owned[a] * FRAME_SIZE + a % FRAME_SIZE))
    && (forall a, b :: a in owned && b in owned && a / FRAME_SIZE == b / FRAME_SIZE ==> a == b)
  }

  lemma SamePage(pt: seq<nat>, a: nat, b: nat)
    requires |pt| == ENTRIES && Translate(pt, a).Some? && DirectoryIndex(b) == KERNEL_PAGE_NUMBER
    ensures a / FRAME_SIZE == b / FRAME_SIZE <==> TableIndex(a) == TableIndex(b)
  {
    PageNumber(a);
    PageNumber(b);
  }

  lemma BackedAfterMap(pt: seq<nat>, owned: map<nat, nat>, page: nat, f: nat)
    requires |pt| == ENTRIES && Backed(pt, owned) && !Present(pt[TableIndex(page)])
    requires DirectoryIndex(page) == KERNEL_PAGE_NUMBER
    ensures page !in owned && Backed(pt[TableIndex(page) := f * FRAME_SIZE + FLAGS], owned[page := f])
  {
    var pt' := pt[TableIndex(page) := f * FRAME_SIZE + FLAGS];
    forall a | a in owned ensures a / FRAME_SIZE != page / FRAME_SIZE { SamePage(pt, a, page); }
    forall a | a in owned[page := f] ensures Translate(pt', a) == Some(owned[page := f][a] * FRAME_SIZE + a % FRAME_SIZE) {
      TranslateMapped(pt, page, f, a);
    }
  }

  lemma BackedAfterUnmap(pt: seq<nat>, owned: map<nat, nat>, page: nat)
    requires |pt| == ENTRIES && Backed(pt, owned) && DirectoryIndex(page) == KERNEL_PAGE_NUMBER
    ensures Backed(pt[TableIndex(page) := 0], WithoutPage(owned, page))
  {
    forall a | a in WithoutPage(owned, page)
      ensures Translate(pt[TableIndex(page) := 0], a) == Some(owned[a] * FRAME_SIZE + a % FRAME_SIZE)
    {
      TranslateOther(pt, page, 0, a);
    }
  }

  /** Different pages are backed by different frames. */
  lemma BackedApart(pt: seq<nat>, m: seq<nat>, n: nat, owned: map<nat, nat>, a: nat, b: nat)
    requires |pt| == ENTRIES && Sound(pt, m, n) && Backed(pt, owned) && a in owned && b in owned && a != b
    ensures owned[a] != owned[b]
  {
    SamePage(pt, a, b);
    assert Present(pt[TableIndex(a)]) && Present(pt[TableIndex(b)]);
  }

  /** Over every run: an address, once handed out, stays mapped to the frame it was handed out with until its
      page is freed, and no two such addresses share a page or a frame. */
  lemma {:induction false} RunKeepsBacked(trace: seq<Mapping>, n: nat, ops: seq<Op>, pages: seq<nat>, panicked: bool, k: nat)
    requires IsRun(trace, n, ops, pages, panicked) && k <= |pages|
    ensures var owned := Owned(trace, n, ops, pages, k);
      && Backed(trace[k].table, owned)
      && forall a, b :: a in owned && b in owned && a != b ==> owned[a] != owned[b]
  {
    if k > 0 {
      RunKeepsBacked(trace, n, ops, pages, panicked, k - 1);
      StepKeepsBacked(trace, n, ops, pages, panicked, k - 1);
    }
    AllApart(trace[k].table, trace[k].map_, n, Owned(trace, n, ops, pages, k));
  }

  lemma AllApart(pt: seq<nat>, m: seq<nat>, n: nat, owned: map<nat, nat>)
    requires |pt| == ENTRIES && Sound(pt, m, n) && Backed(pt, owned)
    ensures forall a, b :: a in owned && b in owned && a != b ==> owned[a] != owned[b]
  {
    forall a, b | a in owned && b in owned && a != b ensures owned[a] != owned[b] {
      BackedApart(pt, m, n, owned, a, b);
    }
  }

  lemma StepKeepsBacked(trace: seq<Mapping>, n: nat, ops: seq<Op>, pages: seq<nat>, panicked: bool, k: nat)
    requires IsRun(trace, n, ops, pages, panicked) && k < |pages|
    requires Backed(trace[k].table, Owned(trace, n, ops, pages, k))
    ensures Backed(trace[k + 1].table, Owned(trace, n, ops, pages, k + 1))
  {
    assert StepAt(trace, n, ops, pages, k);
    BackedAfterServed(trace[k], n, ops[k], pages[k], trace[k + 1], Owned(trace, n, ops, pages, k));
  }

  lemma BackedAfterServed(s: Mapping, n: nat, op: Op, page: nat, s': Mapping, owned: map<nat, nat>)
    requires Consistent(s, n) && !Panics(s, n, op) && Served(s, n, op, page, s') && Backed(s.table, owned)
    ensures Backed(s'.table, if op.AllocPage? then owned[page := Scan(s.map_, n)] else WithoutPage(owned, page))
  {
    if op.AllocPage? {
      KernelRange(s.next);
      BackedAfterMap(s.table, owned, page, Scan(s.map_, n));
    } else {
      BackedAfterUnmap(s.table, owned, page);
    }
  }

  /** One operation; None is a panic. */
  method Perform(p: Pager, op: Op) returns (r: Option<nat>)
    requires p.Valid()
    modifies p`pageTable, p`nextFreePage, p.frames`frameMap
    ensures Consistent(old(p.State()), p.frames.nframes)
    ensures r.None? <==> Panics(old(p.State()), p.frames.nframes, op)
    ensures r.Some? ==> p.Valid() && Served(old(p.State()), p.frames.nframes, op, r.value, p.State())
  {
    match op
    case AllocPage =>
      r := p.KallocPage();
    case FreePage(virtualAddr) =>
      var ok := p.KfreePage(U32(virtualAddr));
      r := if ok then Some(U32(virtualAddr)) else None;
  }

  lemma RunMore(trace: seq<Mapping>, n: nat, ops: seq<Op>, pages: seq<nat>, op: Op, page: nat, s: Mapping)
    requires IsRun(trace, n, ops, pages, false) && Consistent(s, n)
    requires !Panics(trace[|ops|], n, op) && Served(trace[|ops|], n, op, page, s)
    ensures IsRun(trace + [s], n, ops + [op], pages + [page], false)
  {
    var trace', ops', pages' := trace + [s], ops + [op], pages + [page];
    forall k | 0 <= k < |trace'| ensures Consistent(trace'[k], n) {}
    forall k | 0 <= k < |pages'| ensures StepAt(trace', n, ops', pages', k) {
      if k < |pages| { assert StepAt(trace, n, ops, pages, k); }
    }
  }

  lemma RunPanics(trace: seq<Mapping>, n: nat, ops: seq<Op>, pages: seq<nat>, i: nat)
    requires i < |ops| && IsRun(trace, n, ops[..i], pages, false) && Panics(trace[i], n, ops[i])
    ensures IsRun(trace, n, ops, pages, true)
  {
    forall k | 0 <= k < |pages| ensures StepAt(trace, n, ops, pages, k) { assert StepAt(trace, n, ops[..i], pages, k); }
  }

  /** A run from `s0` has led to `s` without a panic. */
  ghost predicate Along(trace: seq<Mapping>, n: nat, ops: seq<Op>, pages: seq<nat>, s0: Mapping, s: Mapping) {
    IsRun(trace, n, ops, pages, false) && |trace| == |ops| + 1 && trace[0] == s0 && trace[|ops|] == s
  }

  /** One operation more. */
  method PerformNext(p: Pager, op: Op, ghost trace: seq<Mapping>, ghost ops: seq<Op>, pages: seq<nat>, ghost s0: Mapping)
    returns (r: Option<nat>)
    requires p.Valid() && Along(trace, p.frames.nframes, ops, pages, s0, p.State())
    modifies p`pageTable, p`nextFreePage, p.frames`frameMap
    ensures if r.Some? then
        p.Valid() && Along(trace + [p.State()], p.frames.nframes, ops + [op], pages + [r.value], s0, p.State())
      else Consistent(trace[|ops|], p.frames.nframes) && Panics(trace[|ops|], p.frames.nframes, op)
  {
    r := Perform(p, op);
    if r.Some? {
      RunMore(trace, p.frames.nframes, ops, pages, op, r.value, p.State());
    }
  }

  /** Any sequence of calls, up to the first panic. */
  method Run(p: Pager, ops: seq<Op>) returns (pages: seq<nat>, panicked: bool, ghost trace: seq<Mapping>)
    requires p.Valid()
    modifies p`pageTable, p`nextFreePage, p.frames`frameMap
    ensures IsRun(trace, p.frames.nframes, ops, pages, panicked)
    ensures trace[0] == old(p.State())
    ensures !panicked ==> p.Valid() && trace[|ops|] == p.State()
  {
    pages, panicked, trace := [], false, [p.State()];
    ghost var done := [];
    var i := 0;
    while i < |ops|
      invariant 0 <= i == |pages| <= |ops| && done == ops[..i]
      invariant p.Valid() && Along(trace, p.frames.nframes, done, pages, old(p.State()), p.State())
    {
      var r := PerformNext(p, ops[i], trace, done, pages, old(p.State()));
      if r.None? {
        RunPanics(trace, p.frames.nframes, ops, pages, i);
        panicked := true;
        return;
      }
      pages, trace, done := pages + [r.value], trace + [p.State()], done + [ops[i]];
      i := i + 1;
    }
    assert done == ops;
  }

  /** A freed page is the next one handed out, unless the scan passes over the frames that are then free or no
      other page is free; then the kernel panics. */
  method FreeThenAllocate(p: Pager, page: nat) returns (r: Option<nat>)
    requires p.Valid() && page < WORD && Translate(p.pageTable, page).Some?
    modifies p, p.frames
    ensures var n := p.frames.nframes; var slot := TableIndex(page);
      && Maps(old(p.pageTable), old(p.frames.frameMap), n, slot) && Present(old(p.pageTable)[slot])
      && var released := ReleaseOne(old(p.frames.frameMap), FrameOf(old(p.pageTable)[slot]));
      && |released| == |old(p.frames.frameMap)| && n <= |released| * WORD_BITS
      && (r.None? <==>
            || Scan(released, n) == n
            || forall j :: 0 <= j < ENTRIES && j != slot ==> Present(old(p.pageTable)[j]))
      && (r.Some? ==> r.value == page && p.Valid())
      && (r.Some? ==> Present(p.pageTable[slot]) && FrameOf(p.pageTable[slot]) == Scan(released, n))
  {
    ghost var s := p.State();
    var _ := Perform(p, FreePage(page));
    FreedMeans(s, p.frames.nframes, page, p.State());
    ghost var f := Scan(p.frames.frameMap, p.frames.nframes);
    EntryOf(f);
    r := Perform(p, AllocPage);
  }

  /** When kalloc_page panics once a page has been freed. */
  lemma FreedMeans(s: Mapping, n: nat, page: nat, s': Mapping)
    requires Consistent(s, n) && page < WORD && Consistent(s', n) && Served(s, n, FreePage(page), page, s')
    ensures var slot := TableIndex(page); var released := ReleaseOne(s.map_, FrameOf(s.table[slot]));
      && s'.map_ == released && s'.next == page && s'.table == s.table[slot := 0]
      && (Panics(s', n, AllocPage) <==>
            || Scan(released, n) == n
            || forall j :: 0 <= j < ENTRIES && j != slot ==> Present(s.table[j]))
  {
    forall j | 0 <= j < ENTRIES && j != TableIndex(page) ensures s'.table[j] == s.table[j] {}
  }

  lemma PageIndex(page: nat)
    requires KERNEL_VIRTUAL_BASE <= page < KERNEL_VIRTUAL_BASE + ENTRIES * FRAME_SIZE && page % FRAME_SIZE == 0
    ensures page == PageOf(TableIndex(page))
  {
    var s := (page - KERNEL_VIRTUAL_BASE) / FRAME_SIZE;
    assert page == PageOf(s) && page / FRAME_SIZE == KERNEL_PAGE_NUMBER * ENTRIES + s;
  }

  /** The first `k` slots hold the frames of the same number, and the others nothing. */
  ghost predicate IdentityBelow(pt: seq<nat>, k: nat) {
    |pt| == ENTRIES && forall i :: 0 <= i < ENTRIES ==> pt[i] == if i < k then i * FRAME_SIZE + FLAGS else 0
  }

  lemma IdentityAbsent(pt: seq<nat>, page: nat, k: nat)
    requires k < ENTRIES && FirstAbsent(pt, page) && IdentityBelow(pt, k)
    ensures page == PageOf(k)
  {
    PageIndex(page);
    assert !Present(pt[k]);
  }

  lemma IdentityTranslates(pt: seq<nat>, k: nat, a: nat)
    requires IdentityBelow(pt, k) && k < ENTRIES && KERNEL_VIRTUAL_BASE <= a < PageOf(k)
    ensures Translate(pt, a) == Some(a - KERNEL_VIRTUAL_BASE)
  {
    var s, offset := (a - KERNEL_VIRTUAL_BASE) / FRAME_SIZE, (a - KERNEL_VIRTUAL_BASE) % FRAME_SIZE;
    AddressParts(a, s, offset);
    assert pt[s] == s * FRAME_SIZE + FLAGS;
    assert FrameOf(pt[s]) == s && Present(pt[s]);
  }

  lemma AddressParts(a: nat, s: nat, offset: nat)
    requires a == PageOf(s) + offset && s < ENTRIES && offset < FRAME_SIZE
    ensures DirectoryIndex(a) == KERNEL_PAGE_NUMBER && TableIndex(a) == s && a % FRAME_SIZE == offset
  {
    assert a / FRAME_SIZE == KERNEL_PAGE_NUMBER * ENTRIES + s;
  }

  /** As long as nothing is freed, the two allocators move in step: the next page is the next in line, backed
      by the frame of the same number. */
  method AllocateInStep(p: Pager, k: nat) returns (page: nat)
    requires p.Valid() && p.InStep(k) && k + 1 < ENTRIES && k < p.frames.nframes
    modifies p, p.frames`frameMap
    ensures p.Valid() && p.InStep(k + 1) && page == PageOf(k)
  {
    LowestScan(p.frames.frameMap, p.frames.nframes, k);
    PageIndex(PageOf(k));
    assert TableIndex(PageOf(k)) == k;
    assert !Present(p.pageTable[k + 1]);
    var r := p.KallocPage();
    IdentityAbsent(p.pageTable, p.nextFreePage, k + 1);
    page := r.value;
  }

  const HEAP_PAGES := 15

  /** The boot sequence of kernel_main up to kheap_init, as written: fifteen pages in a row, backed by the
      frames of the same numbers, all of them behind the kernel. */
  method BootHeap(endKernel: nat, memSize: nat, tableAddr: nat) returns (p: Pager, heapStart: nat)
    requires FirstFree(endKernel) + HEAP_PAGES <= memSize / 4 <= MAP_WORDS * WORD_BITS
    requires FirstFree(endKernel) + HEAP_PAGES < ENTRIES
    requires KERNEL_VIRTUAL_BASE <= tableAddr < WORD && tableAddr % FRAME_SIZE == 0
    ensures p.Valid() && heapStart == PageOf(FirstFree(endKernel))
    ensures forall a :: heapStart <= a < heapStart + HEAP_PAGES * FRAME_SIZE ==>
      Translate(p.pageTable, a) == Some(a - KERNEL_VIRTUAL_BASE)
    ensures heapStart % 0x1000 == 0
    ensures endKernel % 0x100_0000 < heapStart - 0xC000_0000 <= endKernel % 0x100_0000 + 0x1000
  {
    var k := FirstFree(endKernel);
    var frames := InitFrames(endKernel, memSize);
    p := new Pager(endKernel, frames, tableAddr);
    heapStart := AllocateInStep(p, k);
    for i := 1 to HEAP_PAGES
      invariant fresh(p) && fresh(p.frames) && p.Valid() && p.InStep(k + i) && p.frames.nframes == memSize / 4
    {
      var _ := AllocateInStep(p, k + i);
    }
    HeapTranslates(p.pageTable, k, heapStart);
  }

  lemma HeapTranslates(pt: seq<nat>, k: nat, heapStart: nat)
    requires IdentityBelow(pt, k + HEAP_PAGES) && k + HEAP_PAGES < ENTRIES && heapStart == PageOf(k)
    ensures forall a :: heapStart <= a < heapStart + HEAP_PAGES * FRAME_SIZE ==>
      Translate(pt, a) == Some(a - KERNEL_VIRTUAL_BASE)
  {
    forall a | heapStart <= a < heapStart + HEAP_PAGES * FRAME_SIZE ensures Translate(pt, a) == Some(a - KERNEL_VIRTUAL_BASE) {
      IdentityTranslates(pt, k + HEAP_PAGES, a);
    }
  }
}
