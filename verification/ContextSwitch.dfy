/** The context switch, instruction by instruction, on a small x86 word machine.

    Line numbers in this module are those of src/switch.s.

    Memory is words at multiples of four; a word never written reads as zero.  Page tables do not enter:
    all kernel threads share one address space, so loading CR3 does not change what an address means. */
module ContextSwitch {

  type Words = map<int, int>

  function Read(m: Words, a: int): int {
    if a in m then m[a] else 0
  }

  /** The registers, in the order in which a thread's record holds them. */
  datatype Registers = Registers(eax: int, ebx: int, ecx: int, edx: int, esi: int, edi: int,
                                 esp: int, ebp: int, eip: int, eflags: int, cr3: int)

  const RECORD_BYTES := 44

  function RecordAt(m: Words, r: int): Registers {
    Registers(Read(m, r), Read(m, r + 4), Read(m, r + 8), Read(m, r + 12), Read(m, r + 16), Read(m, r + 20),
              Read(m, r + 24), Read(m, r + 28), Read(m, r + 32), Read(m, r + 36), Read(m, r + 40))
  }

  predicate Within(a: int, lo: int, bytes: int) { lo <= a < lo + bytes }

  const SCRATCH := 48  // how far switch_task reaches below its return address

  /** A record that stays clear of what switch_task uses of the stack at `esp`. */
  predicate ClearOf(record: int, esp: int) {
    record + RECORD_BYTES <= esp - SCRATCH || esp + 12 <= record
  }

  /** The stack pointer that the thread with record `newRec` will have once resumed. */
  function ResumeEsp(esp: int, m: Words): int {
    var oldRec, newRec := Read(m, esp + 4), Read(m, esp + 8);
    if oldRec == newRec then esp + 4 else Read(m, newRec + 24)
  }

  /** switch_task was called with two record addresses above its return address: the records are clear of
      the stack and of each other, and of the word below the new thread's stack pointer. */
  predicate Called(esp: int, m: Words) {
    var oldRec, newRec := Read(m, esp + 4), Read(m, esp + 8);
    && ClearOf(oldRec, esp) && ClearOf(newRec, esp)
    && (oldRec == newRec || oldRec + RECORD_BYTES <= newRec || newRec + RECORD_BYTES <= oldRec)
    && !Within(ResumeEsp(esp, m) - 4, oldRec, RECORD_BYTES) && !Within(ResumeEsp(esp, m) - 4, newRec, RECORD_BYTES)
  }

  /** What switch_task does: the record of the old thread holds the caller's registers as they will be just
      past the return; the registers are those of the new thread's record; and apart from that record, the
      scratch space and one word below the new stack pointer, memory is as it was. */
  ghost predicate Switched(before: Registers, m: Words, after: Registers, m': Words) {
    var oldRec, newRec := Read(m, before.esp + 4), Read(m, before.esp + 8);
    && RecordAt(m', oldRec) == before.(esp := before.esp + 4, eip := Read(m, before.esp))
    && after == RecordAt(m', newRec) && after.esp == ResumeEsp(before.esp, m)
    && (forall a :: !Within(a, oldRec, RECORD_BYTES) && !Within(a, before.esp - SCRATCH, SCRATCH) && a != after.esp - 4 ==>
        Read(m', a) == Read(m, a))
  }

  class Cpu {
    var eax: int
    var ebx: int
    var ecx: int
    var edx: int
    var esi: int
    var edi: int
    var esp: int
    var ebp: int
    var eip: int
    var eflags: int
    var cr3: int
    var mem: Words

    ghost function Regs(): Registers
      reads this
    {
      Registers(eax, ebx, ecx, edx, esi, edi, esp, ebp, eip, eflags, cr3)
    }

    method Store(a: int, v: int)
      modifies this`mem
      ensures forall b :: Read(mem, b) == if b == a then v else Read(old(mem), b)
    {
      mem := mem[a := v];
    }

    method Push(v: int)
      modifies this`esp, this`mem
      ensures esp == old(esp) - 4
      ensures forall b :: Read(mem, b) == if b == esp then v else Read(old(mem), b)
    {
      esp := esp - 4;
      Store(esp, v);
    }

    method Pop() returns (v: int)
      modifies this`esp
      ensures esp == old(esp) + 4 && v == Read(mem, old(esp))
    {
      v := Read(mem, esp);
      esp := esp + 4;
    }

    /** PUSHAD: the stack pointer it pushes is the one it found. */
    method Pusha()
      modifies this`esp, this`mem
      ensures esp == old(esp) - 32
      ensures Read(mem, esp + 28) == eax && Read(mem, esp + 24) == ecx && Read(mem, esp + 20) == edx
      ensures Read(mem, esp + 16) == ebx && Read(mem, esp + 12) == old(esp) && Read(mem, esp + 8) == ebp
      ensures Read(mem, esp + 4) == esi && Read(mem, esp) == edi
      ensures forall a {:trigger Read(mem, a)} :: !Within(a, esp, 32) ==> Read(mem, a) == Read(old(mem), a)
    {
      var original := esp;
      Push(eax); Push(ecx); Push(edx); Push(ebx);
      Push(original); Push(ebp); Push(esi); Push(edi);
    }

    /** ADD: the arithmetic flags change in a way that does not matter here. */
    method AddToEdx(v: int)
      modifies this`edx, this`eflags
      ensures edx == old(edx) + v
    {
      edx := edx + v;
      var flags: int := *;
      eflags := flags;
    }

    /** Lines 4-7: everything goes on the stack of the caller. */
    method PushContext()
      modifies this`esp, this`mem, this`eax
      ensures esp == old(esp) - 40
      ensures Read(mem, esp) == cr3 && Read(mem, esp + 4) == eflags
      ensures Read(mem, esp + 16) == ebp && Read(mem, esp + 20) == old(esp) && Read(mem, esp + 36) == old(eax)
      ensures forall a {:trigger Read(mem, a)} :: !Within(a, old(esp) - 40, 40) ==> Read(mem, a) == Read(old(mem), a)
    {
      Pusha();
      Push(eflags);
      eax := cr3;
      Push(eax);
    }

    /** Lines 8-13: the registers still intact go to the record. */
    method StoreIntact()
      requires var record := Read(mem, esp + 44); record + RECORD_BYTES <= esp || esp + 44 <= record
      modifies this`mem, this`eax
      ensures eax == Read(old(mem), esp + 44)
      ensures Read(mem, eax + 4) == ebx && Read(mem, eax + 8) == ecx && Read(mem, eax + 12) == edx
      ensures Read(mem, eax + 16) == esi && Read(mem, eax + 20) == edi
      ensures forall a {:trigger Read(mem, a)} :: !Within(a, eax, RECORD_BYTES) ==> Read(mem, a) == Read(old(mem), a)
    {
      eax := Read(mem, esp + 44);
      Store(eax + 4, ebx);
      Store(eax + 8, ecx);
      Store(eax + 12, edx);
      Store(eax + 16, esi);
      Store(eax + 20, edi);
    }

    /** Lines 14-24: the others go there from the stack. */
    method StorePushed()
      requires eax + RECORD_BYTES <= esp || esp + 44 <= eax
      modifies this`mem, this`ebx, this`ecx, this`edx, this`esi, this`edi, this`eflags
      ensures forall a {:trigger Read(mem, a)} :: Within(a, eax + 4, 20) ==> Read(mem, a) == Read(old(mem), a)
      ensures var m := old(mem);
        && Read(mem, eax) == Read(m, esp + 36) && Read(mem, eax + 24) == Read(m, esp + 20) + 4
        && Read(mem, eax + 28) == Read(m, esp + 16) && Read(mem, eax + 32) == Read(m, esp + 40)
        && Read(mem, eax + 36) == Read(m, esp + 4)
      ensures forall a {:trigger Read(mem, a)} :: !Within(a, eax, RECORD_BYTES) ==> Read(mem, a) == Read(old(mem), a)
    {
      ebx := Read(mem, esp + 36);
      ecx := Read(mem, esp + 40);
      edx := Read(mem, esp + 20);
      AddToEdx(4);
      esi := Read(mem, esp + 16);
      edi := Read(mem, esp + 4);
      Store(eax, ebx);
      Store(eax + 24, edx);
      Store(eax + 28, esi);
      Store(eax + 32, ecx);
      Store(eax + 36, edi);
    }

    /** Lines 25-27: CR3 goes there, and stays on the stack. */
    method StoreCr3()
      requires eax + RECORD_BYTES <= esp || esp + 44 <= eax
      modifies this`mem, this`esp, this`ebx
      ensures esp == old(esp)
      ensures forall a :: Read(mem, a) == if a == eax + 40 then Read(old(mem), esp) else Read(old(mem), a)
    {
      ebx := Pop();
      Store(eax + 40, ebx);
      Push(ebx);
    }

    /** Lines 8-27: everything goes to the record of the old thread. */
    method StoreRecord()
      requires var record := Read(mem, esp + 44); record + RECORD_BYTES <= esp || esp + 44 <= record
      modifies this`mem, this`esp, this`eax, this`ebx, this`ecx, this`edx, this`esi, this`edi, this`eflags
      ensures esp == old(esp)
      ensures var m := old(mem); var e := old(esp);
        RecordAt(mem, Read(m, e + 44)) == Registers(Read(m, e + 36), old(ebx), old(ecx), old(edx), old(esi), old(edi),
          Read(m, e + 20) + 4, Read(m, e + 16), Read(m, e + 40), Read(m, e + 4), Read(m, e))
      ensures forall a {:trigger Read(mem, a)} :: !Within(a, Read(old(mem), old(esp) + 44), RECORD_BYTES) ==> Read(mem, a) == Read(old(mem), a)
    {
      StoreIntact();
      StorePushed();
      StoreCr3();
    }

    /** The first half of switch_task: the caller's registers go to the record of the old thread. */
    method Save()
      requires var record := Read(mem, esp + 4);
        record + RECORD_BYTES <= esp - SCRATCH || esp + 12 <= record
      modifies this`esp, this`mem, this`eax, this`ebx, this`ecx, this`edx, this`esi, this`edi, this`eflags
      ensures esp == old(esp) - 40
      ensures RecordAt(mem, Read(old(mem), old(esp) + 4)) ==
        old(Regs()).(esp := old(esp) + 4, eip := Read(old(mem), old(esp)))
      ensures forall a {:trigger Read(mem, a)} :: !Within(a, Read(old(mem), old(esp) + 4), RECORD_BYTES) && !Within(a, old(esp) - 40, 40) ==>
        Read(mem, a) == Read(old(mem), a)
    {
      PushContext();
      StoreRecord();
    }

    /** Lines 28-39: the general registers and the flags come from the record of the new thread. */
    method LoadGeneral()
      requires var record := Read(mem, esp + 48); record + RECORD_BYTES <= esp - 8 || esp <= record
      modifies this`eax, this`ebx, this`ecx, this`edx, this`esi, this`edi, this`ebp, this`eflags, this`mem, this`esp
      ensures esp == old(esp) && eax == Read(old(mem), old(esp) + 48)
      ensures ebx == Read(old(mem), eax + 4) && ecx == Read(old(mem), eax + 8) && edx == Read(old(mem), eax + 12)
      ensures esi == Read(old(mem), eax + 16) && edi == Read(old(mem), eax + 20)
      ensures ebp == Read(old(mem), eax + 28) && eflags == Read(old(mem), eax + 36)
      ensures forall a {:trigger Read(mem, a)} :: !Within(a, esp - 8, 8) ==> Read(mem, a) == Read(old(mem), a)
    {
      eax := Read(mem, esp + 48);
      ebx := Read(mem, eax + 4);
      ecx := Read(mem, eax + 8);
      edx := Read(mem, eax + 12);
      esi := Read(mem, eax + 16);
      edi := Read(mem, eax + 20);
      ebp := Read(mem, eax + 28);
      LoadFlags();
    }

    /** Lines 35-39: the flags, by way of the stack. */
    method LoadFlags()
      requires eax + RECORD_BYTES <= esp - 8 || esp <= eax
      modifies this`eax, this`eflags, this`mem, this`esp
      ensures esp == old(esp) && eax == old(eax) && eflags == Read(old(mem), eax + 36)
      ensures forall a {:trigger Read(mem, a)} :: !Within(a, esp - 8, 8) ==> Read(mem, a) == Read(old(mem), a)
    {
      Push(eax);
      eax := Read(mem, eax + 36);
      Push(eax);
      eflags := Pop();
      eax := Pop();
    }

    /** Lines 40-49: onto the stack of the new thread, and off it to where that thread was. */
    method LoadRest()
      requires !Within(Read(mem, eax + 24) - 4, eax, RECORD_BYTES)
      modifies this`eax, this`esp, this`cr3, this`eip, this`mem
      ensures eax == Read(old(mem), old(eax)) && esp == Read(old(mem), old(eax) + 24)
      ensures cr3 == Read(old(mem), old(eax) + 40) && eip == Read(old(mem), old(eax) + 32)
      ensures forall a {:trigger Read(mem, a)} :: a != esp - 4 ==> Read(mem, a) == Read(old(mem), a)
    {
      esp := Read(mem, eax + 24);
      Push(eax);
      eax := Read(mem, eax + 40);
      cr3 := eax;
      eax := Pop();
      Push(eax);
      eax := Read(mem, eax + 32);
      var top := Read(mem, esp);
      Store(esp, eax);
      eax := top;
      eax := Read(mem, eax);
      eip := Pop();
    }

    /** The second half of switch_task: the registers come from the record of the new thread. */
    method Load()
      requires var record := Read(mem, esp + 48);
        && (record + RECORD_BYTES <= esp - 8 || esp <= record)
        && !Within(Read(mem, record + 24) - 4, record, RECORD_BYTES)
      modifies this
      ensures Regs() == RecordAt(old(mem), Read(old(mem), old(esp) + 48))
      ensures forall a {:trigger Read(mem, a)} :: !Within(a, old(esp) - 8, 8) && a != esp - 4 ==> Read(mem, a) == Read(old(mem), a)
    {
      LoadGeneral();
      LoadRest();
    }

    method SwitchTask()
      requires Called(esp, mem)
      modifies this
      ensures Switched(old(Regs()), old(mem), Regs(), mem)
    {
      ghost var before, m := Regs(), mem;
      Save();
      ghost var mid := mem;
      ReadyToLoad(before, m, mid);
      Load();
      SwitchedBy(before, m, mid, Regs(), mem);
    }
  }

  /** The same word by word: where in the records of the two threads each register goes, and comes from. */
  lemma SwitchedWords(before: Registers, m: Words, after: Registers, m': Words)
    requires Switched(before, m, after, m')
    ensures var r := Read(m, before.esp + 4);
      && Read(m', r) == before.eax && Read(m', r + 4) == before.ebx && Read(m', r + 8) == before.ecx
      && Read(m', r + 12) == before.edx && Read(m', r + 16) == before.esi && Read(m', r + 20) == before.edi
      && Read(m', r + 24) == before.esp + 4 && Read(m', r + 28) == before.ebp && Read(m', r + 32) == Read(m, before.esp)
      && Read(m', r + 36) == before.eflags && Read(m', r + 40) == before.cr3
    ensures var r := Read(m, before.esp + 8);
      && after.eax == Read(m', r) && after.ebx == Read(m', r + 4) && after.ecx == Read(m', r + 8)
      && after.edx == Read(m', r + 12) && after.esi == Read(m', r + 16) && after.edi == Read(m', r + 20)
      && after.esp == Read(m', r + 24) && after.ebp == Read(m', r + 28) && after.eip == Read(m', r + 32)
      && after.eflags == Read(m', r + 36) && after.cr3 == Read(m', r + 40)
    ensures var r := Read(m, before.esp + 4);
      forall a :: !(r <= a < r + 44) && !(before.esp - 48 <= a < before.esp) && a != after.esp - 4 ==> Read(m', a) == Read(m, a)
  {
    var r := RecordAt(m', Read(m, before.esp + 4));
    assert r.eax == before.eax && r.esp == before.esp + 4 && r.eip == Read(m, before.esp);
  }

  /** What the first half leaves in memory. */
  ghost predicate Saved(before: Registers, m: Words, mid: Words) {
    var oldRec := Read(m, before.esp + 4);
    && RecordAt(mid, oldRec) == before.(esp := before.esp + 4, eip := Read(m, before.esp))
    && (forall a {:trigger Read(mid, a)} :: !Within(a, oldRec, RECORD_BYTES) && !Within(a, before.esp - 40, 40) ==> Read(mid, a) == Read(m, a))
  }

  /** What the second half does to that. */
  ghost predicate Loaded(before: Registers, mid: Words, after: Registers, m': Words) {
    && after == RecordAt(mid, Read(mid, before.esp + 8))
    && (forall a {:trigger Read(m', a)} :: !Within(a, before.esp - 48, 8) && a != after.esp - 4 ==> Read(m', a) == Read(mid, a))
  }

  lemma ReadyToLoad(before: Registers, m: Words, mid: Words)
    requires Called(before.esp, m) && Saved(before, m, mid)
    ensures var record := Read(mid, before.esp + 8);
      && record == Read(m, before.esp + 8)
      && (record + RECORD_BYTES <= before.esp - 48 || before.esp - 40 <= record)
      && Read(mid, record + 24) == ResumeEsp(before.esp, m)
      && !Within(Read(mid, record + 24) - 4, record, RECORD_BYTES)
  {
    var oldRec, newRec := Read(m, before.esp + 4), Read(m, before.esp + 8);
    assert Read(mid, before.esp + 8) == newRec;
    if oldRec != newRec { assert Read(mid, newRec + 24) == Read(m, newRec + 24); }
  }

  lemma SwitchedBy(before: Registers, m: Words, mid: Words, after: Registers, m': Words)
    requires Called(before.esp, m) && Saved(before, m, mid) && Loaded(before, mid, after, m')
    ensures Switched(before, m, after, m')
  {
    RecordsAsSwitched(before, m, mid, after, m');
    MemoryAsSwitched(before, m, mid, after, m');
  }

  lemma RecordsAsSwitched(before: Registers, m: Words, mid: Words, after: Registers, m': Words)
    requires Called(before.esp, m) && Saved(before, m, mid) && Loaded(before, mid, after, m')
    ensures var oldRec, newRec := Read(m, before.esp + 4), Read(m, before.esp + 8);
      && RecordAt(m', oldRec) == RecordAt(mid, oldRec) && RecordAt(m', newRec) == RecordAt(mid, newRec)
      && after == RecordAt(mid, newRec) && after.esp == ResumeEsp(before.esp, m)
  {
    var oldRec, newRec := Read(m, before.esp + 4), Read(m, before.esp + 8);
    ReadyToLoad(before, m, mid);
    RecordStays(mid, m', oldRec, before.esp - 48, 8, after.esp - 4);
    RecordStays(mid, m', newRec, before.esp - 48, 8, after.esp - 4);
  }

  /** A record clear of what has been written is unchanged. */
  lemma RecordStays(m: Words, m': Words, record: int, lo: int, bytes: int, x: int)
    requires record + RECORD_BYTES <= lo || lo + bytes <= record
    requires !Within(x, record, RECORD_BYTES)
    requires forall a :: !Within(a, lo, bytes) && a != x ==> Read(m', a) == Read(m, a)
    ensures RecordAt(m', record) == RecordAt(m, record)
  {
  }

  lemma MemoryAsSwitched(before: Registers, m: Words, mid: Words, after: Registers, m': Words)
    requires Saved(before, m, mid) && Loaded(before, mid, after, m')
    ensures var oldRec := Read(m, before.esp + 4);
      forall a :: !Within(a, oldRec, RECORD_BYTES) && !Within(a, before.esp - SCRATCH, SCRATCH) && a != after.esp - 4 ==>
        Read(m', a) == Read(m, a)
  {
  }
}
