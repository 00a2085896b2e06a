/** Kernel threads: the round-robin ring, and what whole runs of context switches preserve. */
module Tasks {
  import opened Arithmetic
  import opened ContextSwitch
  import Frames
  import Paging

  const STACK := 44          // the offsets in a thread's record of the page of its stack
  const NEXT := 48           // and of the link
  const THREAD_BYTES := 52
  const STACK_BYTES := 0x1000
  const HEADROOM := 64       // what a call of preempt and the switch use of a stack

  /** A thread: the address of its record, and its stack [lo, hi). */
  datatype Thread = Thread(rec: int, lo: int, hi: int)

  predicate Disjoint(lo: int, hi: int, lo2: int, hi2: int) { hi <= lo2 || hi2 <= lo }

  predicate Apart(t: Thread, u: Thread) {
    && Disjoint(t.rec, t.rec + THREAD_BYTES, u.rec, u.rec + THREAD_BYTES)
    && Disjoint(t.rec, t.rec + THREAD_BYTES, u.lo, u.hi)
    && Disjoint(t.lo, t.hi, u.rec, u.rec + THREAD_BYTES)
    && Disjoint(t.lo, t.hi, u.lo, u.hi)
  }

  /** Records and stacks of different threads, and of each thread, share no memory. */
  ghost predicate Laid(threads: seq<Thread>) {
    && (forall i :: 0 <= i < |threads| ==>
        var t := threads[i]; t.rec > 0 && Disjoint(t.rec, t.rec + THREAD_BYTES, t.lo, t.hi))
    && (forall i, j {:trigger Apart(threads[i], threads[j])} ::
        0 <= i < |threads| && 0 <= j < |threads| && i != j ==> Apart(threads[i], threads[j]))
  }

  /** The position after `r` in a ring of `n`. */
  function Following(r: nat, n: nat): nat { if r + 1 == n then 0 else r + 1 }

  /** The state of the machine: memory, registers, the threads in ring order and the running one. */
  datatype Config = Config(mem: Words, regs: Registers, threads: seq<Thread>, cur: nat) {
    function Running(): Thread
      requires cur < |threads|
    {
      threads[cur]
    }
  }

  /** A thread not running can be resumed: its saved stack pointer lies in its stack. */
  predicate Parked(m: Words, t: Thread) {
    t.lo + 4 <= Read(m, t.rec + 24) <= t.hi
  }

  ghost predicate Good(c: Config) {
    && c.cur < |c.threads| && Laid(c.threads)
    && forall i :: 0 <= i < |c.threads| && i != c.cur ==> Parked(c.mem, c.threads[i])
  }

  /** The saved registers of `t` and its stack from `esp` up are the same in both memories. */
  ghost predicate Untouched(m: Words, m': Words, t: Thread, esp: int) {
    forall a :: Within(a, t.rec, RECORD_BYTES) || esp <= a < t.hi ==> Read(m', a) == Read(m, a)
  }

  // ----- Steps -----------------------------------------------------------------------------------------

  /** Computation elsewhere keeps the word at `a` for thread `t`, whose stack is its own when it is parked. */
  predicate Keeps(t: Thread, parked: bool, a: int) {
    Within(a, t.rec, THREAD_BYTES) || (parked && t.lo <= a < t.hi)
  }

  /** The running thread computes: it may change its registers and any memory but the records of the
      threads and the stacks of the others. */
  ghost predicate Compute(c: Config, c': Config) {
    && c'.threads == c.threads && c'.cur == c.cur
    && (forall i, a :: 0 <= i < |c.threads| && Keeps(c.threads[i], i != c.cur, a) ==> Read(c'.mem, a) == Read(c.mem, a))
  }

  /** The registers that a caller of switch_task gets back, by way of preempt's two arguments and the return address. */
  function AtReturn(regs: Registers, ret: int): Registers {
    regs.(esp := regs.esp - 8, eip := ret)
  }

  /** The running thread calls preempt, which calls switch_task to return to `ret`. */
  ghost predicate Preempted(c: Config, c': Config, ret: int)
    requires c.cur < |c.threads|
  {
    var t := c.Running(); var next := Following(c.cur, |c.threads|); var u := c.threads[next];
    && t.lo + HEADROOM <= c.regs.esp <= t.hi
    && c'.threads == c.threads && c'.cur == next
    && RecordAt(c'.mem, t.rec) == AtReturn(c.regs, ret)
    && c'.regs == RecordAt(c'.mem, u.rec)
    && c'.regs.esp == (if next == c.cur then c.regs.esp - 8 else Read(c.mem, u.rec + 24))
    && (forall a :: !Within(a, t.rec, RECORD_BYTES) && !Within(a, c.regs.esp - 12 - SCRATCH, 12 + SCRATCH) && a != c'.regs.esp - 4 ==>
        Read(c'.mem, a) == Read(c.mem, a))
  }

  /** A new thread's record and stack are clear of all others. */
  ghost predicate Fits(threads: seq<Thread>, t: Thread) {
    && t.rec > 0 && t.lo + 4 <= t.hi && Disjoint(t.rec, t.rec + THREAD_BYTES, t.lo, t.hi)
    && forall i :: 0 <= i < |threads| ==> Apart(threads[i], t) && Apart(t, threads[i])
  }

  /** Thread `t` has been put at the end of the ring, to start at `main` with an empty stack. */
  ghost predicate Enlisted(c: Config, c': Config, t: Thread, main: int, flags: int, pageDir: int)
    requires c.threads != []
  {
    && c'.threads == c.threads + [t] && c'.cur == c.cur && c'.regs == c.regs
    && RecordAt(c'.mem, t.rec) == Registers(0, 0, 0, 0, 0, 0, t.hi, Read(c.mem, t.rec + 28), main, flags, pageDir)
    && Read(c'.mem, t.rec + STACK) == t.lo
    && Read(c'.mem, t.rec + NEXT) == 0 && Read(c'.mem, c.threads[|c.threads| - 1].rec + NEXT) == t.rec
    && (forall a :: !Within(a, t.rec, THREAD_BYTES) && a != c.threads[|c.threads| - 1].rec + NEXT ==>
        Read(c'.mem, a) == Read(c.mem, a))
  }

  /** The running thread has created another. */
  ghost predicate Created(c: Config, c': Config)
    requires c.threads != []
  {
    exists t, main, flags, pageDir :: Fits(c.threads, t) && Enlisted(c, c', t, main, flags, pageDir)
  }

  /** Thread `t` has been created, which led to `mid`, and the processor has moved on. */
  ghost predicate Started(c: Config, mid: Config, c': Config, t: Thread, main: int, flags: int, pageDir: int, ret: int)
  {
    && c.threads != [] && Enlisted(c, mid, t, main, flags, pageDir)
    && mid.cur < |mid.threads| && Preempted(mid, c', ret)
  }

  ghost predicate Step(c: Config, c': Config) {
    c.cur < |c.threads| && (Compute(c, c') || Created(c, c') || exists ret :: Preempted(c, c', ret))
  }

  lemma ComputeSpares(c: Config, c': Config, i: nat)
    requires Good(c) && Compute(c, c') && i < |c.threads| && i != c.cur
    ensures Untouched(c.mem, c'.mem, c.threads[i], Read(c.mem, c.threads[i].rec + 24))
  {
    var t := c.threads[i];
    assert Parked(c.mem, t);
    forall a | Within(a, t.rec, RECORD_BYTES) || Read(c.mem, t.rec + 24) <= a < t.hi
      ensures Read(c'.mem, a) == Read(c.mem, a)
    {
      assert Keeps(t, true, a);
    }
  }

  /** A switch leaves every thread but the one it takes off the processor untouched. */
  lemma PreemptSpares(c: Config, c': Config, ret: int, i: nat)
    requires Good(c) && Preempted(c, c', ret) && i < |c.threads| && i != c.cur
    ensures Untouched(c.mem, c'.mem, c.threads[i], Read(c.mem, c.threads[i].rec + 24))
  {
    var next := Following(c.cur, |c.threads|);
    var t, u, v := c.Running(), c.threads[next], c.threads[i];
    assert Apart(t, v) && Parked(c.mem, v);
    if next != c.cur { assert Parked(c.mem, u); }
    if next != i { assert Apart(u, v); }
  }

  /** ... and parks that one with its registers and its stack as they were at the call. */
  lemma PreemptParks(c: Config, c': Config, ret: int)
    requires Good(c) && Preempted(c, c', ret)
    ensures var t := c.Running();
      && RecordAt(c'.mem, t.rec) == AtReturn(c.regs, ret) && Parked(c'.mem, t)
      && forall a :: c.regs.esp <= a < t.hi ==> Read(c'.mem, a) == Read(c.mem, a)
  {
    var next := Following(c.cur, |c.threads|);
    if next != c.cur { assert Parked(c.mem, c.threads[next]) && Apart(c.Running(), c.threads[next]); }
  }

  lemma LaidMore(threads: seq<Thread>, t: Thread)
    requires Laid(threads) && Fits(threads, t)
    ensures Laid(threads + [t])
  {
    var more := threads + [t];
    forall i, j | 0 <= i < |more| && 0 <= j < |more| && i != j ensures Apart(more[i], more[j]) {
      if i < |threads| && j < |threads| { assert Apart(threads[i], threads[j]); }
    }
  }

  lemma EnlistKeeps(c: Config, c': Config, t: Thread, main: int, flags: int, pageDir: int)
    requires Good(c) && Fits(c.threads, t) && Enlisted(c, c', t, main, flags, pageDir)
    ensures Good(c')
    ensures forall i :: 0 <= i < |c.threads| && i != c.cur ==>
      Untouched(c.mem, c'.mem, c.threads[i], Read(c.mem, c.threads[i].rec + 24))
  {
    var n := |c.threads|;
    LaidMore(c.threads, t);
    forall i | 0 <= i < n && i != c.cur
      ensures Parked(c'.mem, c.threads[i]) && Untouched(c.mem, c'.mem, c.threads[i], Read(c.mem, c.threads[i].rec + 24))
    {
      EnlistSpares(c, c', t, main, flags, pageDir, i);
    }
    assert Read(c'.mem, t.rec + 24) == t.hi;
  }

  /** A new thread leaves those that wait as they are. */
  lemma EnlistSpares(c: Config, c': Config, t: Thread, main: int, flags: int, pageDir: int, i: nat)
    requires Good(c) && Fits(c.threads, t) && Enlisted(c, c', t, main, flags, pageDir) && i < |c.threads| && i != c.cur
    ensures Parked(c'.mem, c.threads[i]) && Untouched(c.mem, c'.mem, c.threads[i], Read(c.mem, c.threads[i].rec + 24))
  {
    var n := |c.threads|;
    assert Parked(c.mem, c.threads[i]) && Apart(c.threads[i], t);
    if i != n - 1 { assert Apart(c.threads[i], c.threads[n - 1]); }
    assert Within(c.threads[i].rec + 24, c.threads[i].rec, RECORD_BYTES);
  }

  lemma StepKeeps(c: Config, c': Config)
    requires Good(c) && Step(c, c')
    ensures Good(c') && c.threads <= c'.threads
    ensures forall i :: 0 <= i < |c.threads| && i != c.cur ==>
      Untouched(c.mem, c'.mem, c.threads[i], Read(c.mem, c.threads[i].rec + 24))
  {
    if Created(c, c') {
      var t, main, flags, pageDir :| Fits(c.threads, t) && Enlisted(c, c', t, main, flags, pageDir);
      EnlistKeeps(c, c', t, main, flags, pageDir);
    } else if Compute(c, c') {
      forall i | 0 <= i < |c.threads| && i != c.cur
        ensures Untouched(c.mem, c'.mem, c.threads[i], Read(c.mem, c.threads[i].rec + 24)) && Parked(c'.mem, c.threads[i])
      {
        ComputeSpares(c, c', i);
        assert Parked(c.mem, c.threads[i]) && Within(c.threads[i].rec + 24, c.threads[i].rec, RECORD_BYTES);
      }
    } else {
      var ret :| Preempted(c, c', ret);
      PreemptParks(c, c', ret);
      forall i | 0 <= i < |c.threads| && i != c.cur
        ensures Untouched(c.mem, c'.mem, c.threads[i], Read(c.mem, c.threads[i].rec + 24)) && Parked(c'.mem, c.threads[i])
      {
        PreemptSpares(c, c', ret, i);
        assert Parked(c.mem, c.threads[i]) && Within(c.threads[i].rec + 24, c.threads[i].rec, RECORD_BYTES);
      }
    }
  }

  lemma StepSpares(c: Config, c': Config, i: nat)
    requires Good(c) && Step(c, c') && i < |c.threads| && i != c.cur
    ensures Untouched(c.mem, c'.mem, c.threads[i], Read(c.mem, c.threads[i].rec + 24))
  {
    StepKeeps(c, c');
  }

  // ----- Runs -----------------------------------------------------------------------------------------------

  /** A run visits the configurations `run`, one step apart. */
  ghost predicate IsRun(run: seq<Config>) {
    && |run| > 0
    && forall k :: 0 <= k < |run| - 1 ==> StepAt(run, k)
  }

  ghost predicate StepAt(run: seq<Config>, k: nat)
    requires k + 1 < |run|
  {
    Step(run[k], run[k + 1])
  }

  lemma {:induction false} RunKeeps(run: seq<Config>, k: nat, l: nat)
    requires IsRun(run) && Good(run[0]) && k <= l < |run|
    ensures Good(run[k]) && Good(run[l]) && run[k].threads <= run[l].threads
    decreases l
  {
    if k < l {
      RunKeeps(run, k, l - 1);
      assert StepAt(run, l - 1);
      StepKeeps(run[l - 1], run[l]);
    } else if l > 0 {
      RunKeeps(run, k - 1, l - 1);
      assert StepAt(run, l - 1);
      StepKeeps(run[l - 1], run[l]);
    }
  }

  /** Thread `i` is off the processor from step `first` to step `last`. */
  ghost predicate Off(run: seq<Config>, i: nat, first: nat, last: nat) {
    forall k :: first <= k <= last && k < |run| ==> run[k].cur != i
  }

  lemma {:induction false} OffIsUntouched(run: seq<Config>, i: nat, first: nat, last: nat)
    requires IsRun(run) && Good(run[0]) && first <= last < |run| && i < |run[first].threads| && Off(run, i, first, last)
    ensures var t := run[first].threads[i];
      Untouched(run[first].mem, run[last].mem, t, Read(run[first].mem, t.rec + 24))
    decreases last
  {
    if first < last {
      OffIsUntouched(run, i, first, last - 1);
      RunKeeps(run, first, last - 1);
      assert StepAt(run, last - 1);
      StepSpares(run[last - 1], run[last], i);
      UntouchedThrough(run[first].mem, run[last - 1].mem, run[last].mem, run[first].threads[i]);
    }
  }

  lemma UntouchedThrough(m: Words, m': Words, m'': Words, t: Thread)
    requires Untouched(m, m', t, Read(m, t.rec + 24)) && Untouched(m', m'', t, Read(m', t.rec + 24))
    ensures Untouched(m, m'', t, Read(m, t.rec + 24))
  {
    assert Within(t.rec + 24, t.rec, RECORD_BYTES);
  }

  lemma UntouchedRecord(m: Words, m': Words, t: Thread, esp: int)
    requires Untouched(m, m', t, esp)
    ensures RecordAt(m', t.rec) == RecordAt(m, t.rec)
  {
    forall a | Within(a, t.rec, RECORD_BYTES) ensures Read(m', a) == Read(m, a) {}
  }

  /** A thread parked in `run[first]` that next gets the processor by the switch at step `j` gets exactly
      what its record held, and finds its stack as it was. */
  lemma Resumes(run: seq<Config>, n: nat, first: nat, j: nat, ret: int)
    requires IsRun(run) && Good(run[0]) && first <= j && j + 1 < |run| && n < |run[first].threads|
    requires Off(run, n, first, j) && run[j].cur < |run[j].threads| && Preempted(run[j], run[j + 1], ret)
    requires run[j + 1].cur == n
    ensures var t := run[first].threads[n];
      && run[j + 1].regs == RecordAt(run[first].mem, t.rec)
      && forall a :: Read(run[first].mem, t.rec + 24) <= a < t.hi ==> Read(run[j + 1].mem, a) == Read(run[first].mem, a)
  {
    var t := run[first].threads[n];
    RunKeeps(run, first, j);
    assert run[j].threads[n] == t;
    OffIsUntouched(run, n, first, j);
    UntouchedRecord(run[first].mem, run[j].mem, t, Read(run[first].mem, t.rec + 24));
    PreemptSpares(run[j], run[j + 1], ret, n);
    UntouchedRecord(run[j].mem, run[j + 1].mem, t, Read(run[j].mem, t.rec + 24));
  }

  lemma ParkedAtCall(c: Config, c': Config, ret: int)
    requires Good(c) && Preempted(c, c', ret)
    ensures c.threads == c'.threads && Read(c'.mem, c.Running().rec + 24) == c.regs.esp - 8
    ensures var r := c.regs;
      RecordAt(c'.mem, c.Running().rec) == Registers(r.eax, r.ebx, r.ecx, r.edx, r.esi, r.edi, r.esp - 8, r.ebp, ret, r.eflags, r.cr3)
    ensures forall a :: c.regs.esp <= a < c.Running().hi ==> Read(c'.mem, a) == Read(c.mem, a)
    ensures c'.cur == c.cur ==> c'.regs == RecordAt(c'.mem, c.Running().rec)
  {
    PreemptParks(c, c', ret);
  }

  /** Over every run: a thread switched away from at step `i` and next switched to at step `j` resumes with
      exactly the registers and the flags it had when it called, at its return address and just past it on
      its stack, and finds that stack as it left it, whatever the other threads computed or created. */
  lemma ResumesExactly(run: seq<Config>, i: nat, j: nat, ret: int, ret': int)
    requires IsRun(run) && Good(run[0]) && i <= j && j + 1 < |run|
    requires run[i].cur < |run[i].threads| && Preempted(run[i], run[i + 1], ret)
    requires run[j].cur < |run[j].threads| && Preempted(run[j], run[j + 1], ret')
    requires i < j ==> Off(run, run[i].cur, i + 1, j)
    requires run[j + 1].cur == run[i].cur
    ensures var r := run[i].regs; run[j + 1].regs == Registers(r.eax, r.ebx, r.ecx, r.edx, r.esi, r.edi, r.esp - 8, r.ebp, ret, r.eflags, r.cr3)
    ensures forall a :: run[i].regs.esp <= a < run[i].Running().hi ==> Read(run[j + 1].mem, a) == Read(run[i].mem, a)
  {
    RunKeeps(run, i, i + 1);
    ParkedAtCall(run[i], run[i + 1], ret);
    if i < j {
      Resumes(run, run[i].cur, i + 1, j, ret');
    }
  }

  /** A created thread starts at its entry point, on an empty stack. */
  lemma StartsAtEntry(run: seq<Config>, i: nat, j: nat, t: Thread, main: int, flags: int, pageDir: int, ret: int)
    requires IsRun(run) && Good(run[0]) && i < j && j + 1 < |run|
    requires run[i].threads != [] && Fits(run[i].threads, t) && Enlisted(run[i], run[i + 1], t, main, flags, pageDir)
    requires Off(run, |run[i].threads|, i + 1, j)
    requires run[j].cur < |run[j].threads| && Preempted(run[j], run[j + 1], ret) && run[j + 1].cur == |run[i].threads|
    ensures run[j + 1].regs.eip == main && run[j + 1].regs.esp == t.hi
    ensures run[j + 1].regs.eflags == flags && run[j + 1].regs.cr3 == pageDir
    ensures var r := run[j + 1].regs; r.eax == r.ebx == r.ecx == r.edx == r.esi == r.edi == 0
  {
    Resumes(run, |run[i].threads|, i + 1, j, ret);
  }

  // ----- The ring in memory ----------------------------------------------------------------------------------

  /** The links in the records join the threads into a list. */
  ghost predicate Ring(m: Words, threads: seq<Thread>) {
    forall i :: 0 <= i < |threads| ==> LinkOf(m, threads, i)
  }

  ghost predicate LinkOf(m: Words, threads: seq<Thread>, i: nat)
    requires i < |threads|
  {
    Read(m, threads[i].rec + NEXT) == if i + 1 < |threads| then threads[i + 1].rec else 0
  }

  lemma RingKept(c: Config, c': Config)
    requires Good(c) && Step(c, c') && Ring(c.mem, c.threads)
    ensures Ring(c'.mem, c'.threads)
  {
    if Created(c, c') {
      var t, main, flags, pageDir :| Fits(c.threads, t) && Enlisted(c, c', t, main, flags, pageDir);
      EnlistRing(c, c', t, main, flags, pageDir);
    } else {
      forall i | 0 <= i < |c.threads| ensures LinkOf(c'.mem, c.threads, i) {
        assert LinkOf(c.mem, c.threads, i);
        var t := c.threads[i];
        assert Within(t.rec + NEXT, t.rec, THREAD_BYTES);
        if Compute(c, c') {
          assert Keeps(t, false, t.rec + NEXT) && Keeps(t, true, t.rec + NEXT);
        } else {
          var ret :| Preempted(c, c', ret);
          PreemptKeepsWord(c, c', ret, i, NEXT);
        }
      }
    }
  }

  lemma PreemptKeeps(c: Config, c': Config, ret: int)
    requires Good(c) && Ring(c.mem, c.threads) && Preempted(c, c', ret)
    ensures Good(c') && Ring(c'.mem, c'.threads) && c'.threads == c.threads
  {
    assert Step(c, c');
    RingKept(c, c');
    StepKeeps(c, c');
  }

  /** A switch leaves what follows the saved registers in a record, of any thread, alone. */
  lemma PreemptKeepsWord(c: Config, c': Config, ret: int, i: nat, offset: int)
    requires Good(c) && Preempted(c, c', ret) && i < |c.threads| && RECORD_BYTES <= offset < THREAD_BYTES
    ensures Read(c'.mem, c.threads[i].rec + offset) == Read(c.mem, c.threads[i].rec + offset)
  {
    var next := Following(c.cur, |c.threads|);
    var t, u := c.threads[i], c.threads[next];
    if i != c.cur { assert Apart(c.Running(), t); }
    if next != c.cur {
      assert Parked(c.mem, u);
      if next != i { assert Apart(u, t); }
    }
  }

  // ----- The page of a stack ---------------------------------------------------------------------------------

  lemma EnlistKeepsStackWord(c: Config, c': Config, t: Thread, main: int, flags: int, pageDir: int, i: nat)
    requires Laid(c.threads) && i < |c.threads| && Fits(c.threads, t) && Enlisted(c, c', t, main, flags, pageDir)
    ensures Read(c'.mem, c.threads[i].rec + 44) == Read(c.mem, c.threads[i].rec + 44)
  {
    assert Apart(c.threads[i], t);
    if i != |c.threads| - 1 { assert Apart(c.threads[i], c.threads[|c.threads| - 1]); }
  }

  /** No step, of whatever thread, changes the word at 44 of a record, which kthread_join frees the stack by. */
  lemma StepKeepsStackWord(c: Config, c': Config, i: nat)
    requires Good(c) && Step(c, c') && i < |c.threads|
    ensures Read(c'.mem, c.threads[i].rec + 44) == Read(c.mem, c.threads[i].rec + 44)
  {
    var u := c.threads[i];
    if Created(c, c') {
      var t, main, flags, pageDir :| Fits(c.threads, t) && Enlisted(c, c', t, main, flags, pageDir);
      EnlistKeepsStackWord(c, c', t, main, flags, pageDir, i);
    } else if Compute(c, c') {
      assert Keeps(u, i != c.cur, u.rec + 44);
    } else {
      var ret :| Preempted(c, c', ret);
      PreemptKeepsWord(c, c', ret, i, 44);
    }
  }

  /** Thread `i` of `c'` has been there before, and has kept its word at 44, or is new, and finds its page there. */
  lemma StackWordAfterStep(c: Config, c': Config, i: nat)
    requires Good(c) && Step(c, c') && i < |c'.threads|
    ensures if i < |c.threads| then
        c'.threads[i] == c.threads[i] && Read(c'.mem, c'.threads[i].rec + 44) == Read(c.mem, c.threads[i].rec + 44)
      else Read(c'.mem, c'.threads[i].rec + 44) == c'.threads[i].lo
  {
    StepKeeps(c, c');
    if i < |c.threads| {
      StepKeepsStackWord(c, c', i);
    } else if Created(c, c') {
      var t, main, flags, pageDir :| Fits(c.threads, t) && Enlisted(c, c', t, main, flags, pageDir);
    }
  }

  /** Over every run: the word at 44 of the record of each thread created in it is the start of its stack, however
      often it has run since and whatever the others did. */
  lemma {:induction false} StackWordIsKept(run: seq<Config>, k: nat, i: nat)
    requires IsRun(run) && Good(run[0]) && k < |run| && |run[0].threads| <= i < |run[k].threads|
    ensures Read(run[k].mem, run[k].threads[i].rec + 44) == run[k].threads[i].lo
    decreases k
  {
    if k > 0 {
      RunKeeps(run, 0, k - 1);
      assert StepAt(run, k - 1);
      StackWordAfterStep(run[k - 1], run[k], i);
      if i < |run[k - 1].threads| { StackWordIsKept(run, k - 1, i); }
    }
  }

  // ----- Fairness ----------------------------------------------------------------------------------------------

  datatype Move = Computing | Creating | Switching

  ghost predicate Performs(c: Config, c': Config, move: Move)
    requires c.cur < |c.threads|
  {
    match move
    case Computing => Compute(c, c')
    case Creating => Created(c, c')
    case Switching => exists ret :: Preempted(c, c', ret)
  }

  ghost predicate MoveAt(run: seq<Config>, k: nat, move: Move)
    requires k + 1 < |run|
  {
    run[k].cur < |run[k].threads| && Performs(run[k], run[k + 1], move)
  }

  /** The steps of the run are these moves. */
  ghost predicate Follows(run: seq<Config>, moves: seq<Move>) {
    |run| == |moves| + 1 && forall k :: 0 <= k < |moves| ==> MoveAt(run, k, moves[k])
  }

  /** Every run is made of moves. */
  lemma {:induction false} EveryRunFollows(run: seq<Config>) returns (moves: seq<Move>)
    requires IsRun(run)
    ensures Follows(run, moves)
    decreases |run|
  {
    moves := [];
    var n := |run| - 1;
    if n > 0 {
      var before := run[..n];
      forall k: nat | k + 1 < n ensures StepAt(before, k) { assert StepAt(run, k); }
      var earlier := EveryRunFollows(before);
      assert StepAt(run, n - 1);
      var c, c' := run[n - 1], run[n];
      moves := earlier + [if Compute(c, c') then Computing else if Created(c, c') then Creating else Switching];
      forall k | 0 <= k < n ensures MoveAt(run, k, moves[k]) {
        if k < n - 1 { assert MoveAt(before, k, earlier[k]); }
      }
    }
  }

  /** The number of threads and the position of the running one, after the moves. */
  function After(n: nat, r: nat, moves: seq<Move>): (p: (nat, nat))
    requires r < n
    ensures p.1 < p.0
    decreases |moves|
  {
    if moves == [] then (n, r)
    else match moves[0]
      case Computing => After(n, r, moves[1..])
      case Creating => After(n + 1, r, moves[1..])
      case Switching => After(n, Following(r, n), moves[1..])
  }

  function Count(moves: seq<Move>, move: Move): nat {
    if moves == [] then 0 else (if moves[0] == move then 1 else 0) + Count(moves[1..], move)
  }

  lemma {:induction false} AfterMore(n: nat, r: nat, moves: seq<Move>, move: Move)
    requires r < n
    ensures var p := After(n, r, moves); After(n, r, moves + [move]) == After(p.0, p.1, [move])
    decreases |moves|
  {
    if moves != [] {
      assert (moves + [move])[1..] == moves[1..] + [move];
      var n' := if moves[0].Creating? then n + 1 else n;
      AfterMore(n', if moves[0].Switching? then Following(r, n) else r, moves[1..], move);
    }
  }

  lemma MoveDecides(c: Config, c': Config, move: Move)
    requires c.cur < |c.threads| && Performs(c, c', move)
    ensures After(|c.threads|, c.cur, [move]) == (|c'.threads|, c'.cur)
  {
    match move
    case Computing =>
    case Creating =>
      var t, main, flags, pageDir :| Fits(c.threads, t) && Enlisted(c, c', t, main, flags, pageDir);
    case Switching =>
      var ret :| Preempted(c, c', ret);
  }

  /** Where a run stands depends on its moves alone. */
  lemma {:induction false} MovesDecide(run: seq<Config>, moves: seq<Move>, k: nat)
    requires Follows(run, moves) && k < |run| && run[0].cur < |run[0].threads|
    ensures After(|run[0].threads|, run[0].cur, moves[..k]) == (|run[k].threads|, run[k].cur)
    decreases k
  {
    if k > 0 {
      MovesDecide(run, moves, k - 1);
      assert MoveAt(run, k - 1, moves[k - 1]);
      MoveDecides(run[k - 1], run[k], moves[k - 1]);
      AfterMore(|run[0].threads|, run[0].cur, moves[..k - 1], moves[k - 1]);
      assert moves[..k - 1] + [moves[k - 1]] == moves[..k];
    }
  }

  /** Without new threads, `k` switches move the processor `k` places round the ring. */
  lemma {:induction false} SwitchesRotate(n: nat, r: nat, moves: seq<Move>)
    requires r < n && Count(moves, Creating) == 0
    ensures After(n, r, moves) == (n, (r + Count(moves, Switching)) % n)
    decreases |moves|
  {
    if moves != [] {
      if moves[0].Switching? {
        SwitchesRotate(n, Following(r, n), moves[1..]);
        Turn(n, r, Count(moves, Switching));
      } else {
        SwitchesRotate(n, r, moves[1..]);
      }
    }
  }

  lemma Turn(n: nat, r: nat, k: nat)
    requires r < n && k > 0
    ensures (Following(r, n) + (k - 1)) % n == (r + k) % n
  {
    if r + 1 == n {
      var q := (k - 1) / n;
      Distribute(q, 1, n);
      DivModUnique(q + 1, (k - 1) % n, n);
      assert r + k == (q + 1) * n + (k - 1) % n;
    }
  }

  /** One move more in front. */
  lemma CountMore(moves: seq<Move>, k: nat, move: Move)
    requires 0 < k <= |moves|
    ensures moves[..k][1..] == moves[1..][..k - 1]
    ensures Count(moves[..k], move) == (if moves[0] == move then 1 else 0) + Count(moves[1..][..k - 1], move)
  {
    assert moves[..k][1..] == moves[1..][..k - 1];
  }

  /** A thread ahead of the running one is reached in exactly its distance, whatever is created meanwhile. */
  lemma {:induction false} AheadIsReached(n: nat, r: nat, t: nat, moves: seq<Move>) returns (k: nat)
    requires r <= t < n && Count(moves, Switching) >= t - r
    ensures k <= |moves| && Count(moves[..k], Switching) == t - r
    ensures After(n, r, moves[..k]).1 == t
    decreases |moves|
  {
    k := 0;
    if r < t {
      var rest := moves[1..];
      match moves[0] {
        case Computing => k := AheadIsReached(n, r, t, rest);
        case Creating => k := AheadIsReached(n + 1, r, t, rest);
        case Switching => k := AheadIsReached(n, r + 1, t, rest);
      }
      k := k + 1;
      CountMore(moves, k, Switching);
    }
  }

  /** A thread behind the running one, or the running one itself, waits at most its distance round the ring
      and one more switch for each thread created before its turn comes. */
  lemma {:induction false} BehindIsReached(n: nat, r: nat, t: nat, moves: seq<Move>) returns (k: nat)
    requires t <= r < n && Count(moves, Switching) >= n - r + t + Count(moves, Creating)
    ensures 0 < k <= |moves| && 0 < Count(moves[..k], Switching) <= n - r + t + Count(moves[..k], Creating)
    ensures After(n, r, moves[..k]).1 == t
    decreases |moves|
  {
    var rest := moves[1..];
    match moves[0] {
      case Computing => k := BehindIsReached(n, r, t, rest);
      case Creating => k := BehindIsReached(n + 1, r, t, rest);
      case Switching =>
        if r == n - 1 {
          k := AheadIsReached(n, 0, t, rest);
        } else {
          k := BehindIsReached(n, r + 1, t, rest);
        }
    }
    k := k + 1;
    CountMore(moves, k, Switching);
    CountMore(moves, k, Creating);
  }

  /** Over every run: thread `t` gets the processor, after exactly as many switches as it is places ahead,
      or, from behind, after at most its distance round the ring and one for each thread created before. */
  lemma EveryThreadIsReached(run: seq<Config>, moves: seq<Move>, t: nat) returns (k: nat)
    requires Follows(run, moves) && run[0].cur < |run[0].threads| && t < |run[0].threads|
    requires var n, r := |run[0].threads|, run[0].cur;
      Count(moves, Switching) >= if t > r then t - r else n - r + t + Count(moves, Creating)
    ensures 0 < k < |run| && run[k].cur == t
    ensures var n, r := |run[0].threads|, run[0].cur; var switches := Count(moves[..k], Switching);
      if t > r then switches == t - r else 0 < switches <= n - r + t + Count(moves[..k], Creating)
  {
    var n, r := |run[0].threads|, run[0].cur;
    if t > r {
      k := AheadIsReached(n, r, t, moves);
    } else {
      k := BehindIsReached(n, r, t, moves);
    }
    MovesDecide(run, moves, k);
  }

  // ----- Stacks from the page allocator -----------------------------------------------------------------------

  /** Every address of [lo, hi) is mapped. */
  ghost predicate MappedRange(pt: seq<nat>, lo: int, hi: int) {
    && |pt| == Paging.ENTRIES && 0 <= lo
    && forall a: nat {:trigger Paging.Translate(pt, a)} :: lo <= a < hi ==> Paging.Translate(pt, a).Some?
  }

  /** Records and stacks lie in mapped memory. */
  ghost predicate InMappedMemory(pt: seq<nat>, threads: seq<Thread>) {
    |pt| == Paging.ENTRIES && forall i {:trigger threads[i]} :: 0 <= i < |threads| ==> IsMapped(pt, threads[i])
  }

  ghost predicate IsMapped(pt: seq<nat>, t: Thread) {
    MappedRange(pt, t.rec, t.rec + THREAD_BYTES) && MappedRange(pt, t.lo, t.hi) && t.lo < t.hi
  }

  predicate ClearOfThread(t: Thread, lo: int, hi: int) {
    Disjoint(t.rec, t.rec + THREAD_BYTES, lo, hi) && Disjoint(t.lo, t.hi, lo, hi)
  }

  ghost predicate ClearOfAll(threads: seq<Thread>, lo: int, hi: int) {
    forall i {:trigger threads[i]} :: 0 <= i < |threads| ==> ClearOfThread(threads[i], lo, hi)
  }

  /** The record of a new thread, which its creator provides, lies in mapped memory that no thread uses. */
  ghost predicate RecordFits(pt: seq<nat>, threads: seq<Thread>, task: int) {
    task > 0 && MappedRange(pt, task, task + THREAD_BYTES) && ClearOfAll(threads, task, task + THREAD_BYTES)
  }

  /** A page that is not mapped meets no mapped memory. */
  lemma AbsentIsApart(pt: seq<nat>, page: nat, lo: int, hi: int)
    requires MappedRange(pt, lo, hi) && Paging.DirectoryIndex(page) == Paging.KERNEL_PAGE_NUMBER
    requires page % STACK_BYTES == 0 && !Paging.Present(pt[Paging.TableIndex(page)])
    ensures lo < hi ==> Disjoint(lo, hi, page, page + STACK_BYTES)
  {
    var a: nat := if lo < page then page else lo;
    if a < page + STACK_BYTES {
      assert a / STACK_BYTES == page / STACK_BYTES;
      assert !Paging.Translate(pt, a).Some?;
    }
  }

  /** A page that kalloc_page is about to hand out is a stack clear of all others. */
  lemma PageFits(pt: seq<nat>, threads: seq<Thread>, task: int, page: nat)
    requires InMappedMemory(pt, threads) && RecordFits(pt, threads, task)
    requires Paging.DirectoryIndex(page) == Paging.KERNEL_PAGE_NUMBER
    requires page % STACK_BYTES == 0 && !Paging.Present(pt[Paging.TableIndex(page)])
    ensures Fits(threads, Thread(task, page, page + STACK_BYTES))
  {
    var t := Thread(task, page, page + STACK_BYTES);
    AbsentIsApart(pt, page, task, task + THREAD_BYTES);
    forall i | 0 <= i < |threads| ensures Apart(threads[i], t) && Apart(t, threads[i]) {
      var u := threads[i];
      assert IsMapped(pt, u);
      AbsentIsApart(pt, page, u.rec, u.rec + THREAD_BYTES);
      AbsentIsApart(pt, page, u.lo, u.hi);
      assert ClearOfThread(u, task, task + THREAD_BYTES);
    }
  }

  /** What is mapped stays mapped when another page is, and that page is then mapped too. */
  lemma MappedMore(pt: seq<nat>, threads: seq<Thread>, task: int, page: nat, f: nat)
    requires InMappedMemory(pt, threads) && MappedRange(pt, task, task + THREAD_BYTES)
    requires Paging.DirectoryIndex(page) == Paging.KERNEL_PAGE_NUMBER && page % STACK_BYTES == 0
    ensures InMappedMemory(pt[Paging.TableIndex(page) := f * Frames.FRAME_SIZE + Paging.FLAGS],
                           threads + [Thread(task, page, page + STACK_BYTES)])
  {
    var pt' := pt[Paging.TableIndex(page) := f * Frames.FRAME_SIZE + Paging.FLAGS];
    forall a: nat ensures Paging.Translate(pt, a).Some? || page <= a < page + STACK_BYTES ==> Paging.Translate(pt', a).Some? {
      Paging.TranslateMapped(pt, page, f, a);
      if page <= a < page + STACK_BYTES { assert a / STACK_BYTES == page / STACK_BYTES; }
    }
    forall i | 0 <= i < |threads| ensures IsMapped(pt', threads[i]) { assert IsMapped(pt, threads[i]); }
  }

  // ----- The scheduler ------------------------------------------------------------------------------------------

  class Scheduler {
    const cpu: Cpu
    const mainThread: int
    var runningThread: int
    var lastThread: int
    const flags: int
    const pageDir: int

    ghost var threads: seq<Thread>
    ghost var cur: nat

    ghost function State(): Config
      reads this, cpu
    {
      Config(cpu.mem, cpu.Regs(), threads, cur)
    }

    ghost predicate Valid()
      reads this, cpu
    {
      && Good(State()) && Ring(cpu.mem, threads)
      && mainThread == threads[0].rec
      && runningThread == threads[cur].rec
      && lastThread == threads[|threads| - 1].rec
    }

    /** init_tasking: the running code becomes the first thread, alone in the ring; its flags and its page
        directory are kept for the threads to come. */
    constructor (cpu: Cpu, main: Thread)
      requires main.rec > 0 && Disjoint(main.rec, main.rec + THREAD_BYTES, main.lo, main.hi)
      modifies cpu
      ensures Valid() && this.cpu == cpu && threads == [main] && cur == 0 && cpu.Regs() == old(cpu.Regs())
      ensures flags == Read(cpu.mem, main.rec + 36) == old(cpu.eflags) && pageDir == Read(cpu.mem, main.rec + 40) == old(cpu.cr3)
      ensures forall a :: a != main.rec + 36 && a != main.rec + 40 && a != main.rec + NEXT ==> Read(cpu.mem, a) == Read(old(cpu.mem), a)
    {
      flags, pageDir := cpu.eflags, cpu.cr3;
      this.cpu, mainThread, runningThread, lastThread := cpu, main.rec, main.rec, main.rec;
      threads, cur := [main], 0;
      new;
      cpu.Store(main.rec + 36, cpu.eflags);
      cpu.Store(main.rec + 40, cpu.cr3);
      cpu.Store(main.rec + NEXT, 0);
    }

    lemma RecordsDiffer(i: nat, j: nat)
      requires Laid(threads) && i < |threads| && j < |threads| && i != j
      ensures threads[i].rec != threads[j].rec
    {
      assert Apart(threads[i], threads[j]);
    }

    /** preempt, called to return to `ret`. */
    method Preempt(ret: int)
      requires Valid() && threads[cur].lo + HEADROOM <= cpu.esp <= threads[cur].hi
      modifies this`runningThread, this`cur, cpu
      ensures Valid() && Preempted(old(State()), State(), ret)
    {
      ghost var c := State();
      var prev := runningThread;
      Advance();
      Switch(prev, runningThread, ret, c);
      PreemptKeeps(c, State(), ret);
    }

    /** kthread_create, with the page of the new stack; its preempt returns to `ret`.  False is the panic of kalloc_page. */
    method KthreadCreate(task: int, main: int, pager: Paging.Pager, ret: int) returns (ok: bool, page: int, ghost mid: Config)
      requires Valid() && pager.Valid() && threads[cur].lo + HEADROOM <= cpu.esp <= threads[cur].hi
      requires InMappedMemory(pager.pageTable, threads) && RecordFits(pager.pageTable, threads, task)
      requires pager.nextFreePage % STACK_BYTES == 0
      modifies this`runningThread, this`lastThread, this`cur, this`threads, cpu
      modifies pager`pageTable, pager`nextFreePage, pager.frames`frameMap
      ensures ok <==> !old(pager.AllocPanics())
      ensures ok ==> Valid() && pager.Valid() && page == old(pager.nextFreePage) && pager.nextFreePage % STACK_BYTES == 0
      ensures ok ==> threads == old(threads) + [Thread(task, page, page + STACK_BYTES)] && InMappedMemory(pager.pageTable, threads)
      ensures ok ==> Started(old(State()), mid, State(), Thread(task, page, page + STACK_BYTES), main, flags, pageDir, ret)
      ensures ok ==> Read(cpu.mem, task + 44) == page
    {
      mid := State();
      ok, page := StackPage(pager, task);
      if ok {
        mid := Start(task, main, page, ret);
      }
    }

    /** The page for the stack, clear of all other threads because it was not mapped until now. */
    method StackPage(pager: Paging.Pager, ghost task: int) returns (ok: bool, page: int)
      requires pager.Valid() && pager.nextFreePage % STACK_BYTES == 0
      requires InMappedMemory(pager.pageTable, threads) && RecordFits(pager.pageTable, threads, task)
      modifies pager`pageTable, pager`nextFreePage, pager.frames`frameMap
      ensures ok <==> !old(pager.AllocPanics())
      ensures ok ==> pager.Valid() && page == old(pager.nextFreePage) && pager.nextFreePage % STACK_BYTES == 0
      ensures ok ==> var t := Thread(task, page, page + STACK_BYTES); Fits(threads, t) && InMappedMemory(pager.pageTable, threads + [t])
    {
      ghost var pt, m := pager.pageTable, pager.frames.frameMap;
      PageFits(pt, threads, task, pager.nextFreePage);
      MappedMore(pt, threads, task, pager.nextFreePage, Frames.Scan(m, pager.frames.nframes));
      var r := pager.KallocPage();
      ok := r.Some?;
      page := if ok then r.value else 0;
    }

    /** The rest of kthread_create, once it has a page for the stack. */
    method Start(task: int, main: int, page: int, ret: int) returns (ghost mid: Config)
      requires Valid() && threads[cur].lo + HEADROOM <= cpu.esp <= threads[cur].hi
      requires Fits(threads, Thread(task, page, page + STACK_BYTES))
      modifies this`runningThread, this`lastThread, this`cur, this`threads, cpu
      ensures Valid() && threads == old(threads) + [Thread(task, page, page + STACK_BYTES)]
      ensures Started(old(State()), mid, State(), Thread(task, page, page + STACK_BYTES), main, flags, pageDir, ret)
      ensures Read(cpu.mem, task + 44) == page
    {
      Enlist(task, main, page);
      mid := State();
      Preempt(ret);
      PreemptKeepsWord(mid, State(), ret, |mid.threads| - 1, 44);
    }

    /** The record is filled in and linked behind the last one. */
    method Enlist(task: int, main: int, page: int)
      requires Valid()
      requires Fits(threads, Thread(task, page, page + STACK_BYTES))
      modifies this`lastThread, this`threads, cpu`mem
      ensures Valid()
      ensures Enlisted(old(State()), State(), Thread(task, page, page + STACK_BYTES), main, flags, pageDir)
    {
      ghost var c := State();
      ghost var t := Thread(task, page, page + STACK_BYTES);
      Append(task, main, page);
      EnlistKeeps(c, State(), t, main, flags, pageDir);
      EnlistRing(c, State(), t, main, flags, pageDir);
    }

    method Append(task: int, main: int, page: int)
      requires threads != [] && lastThread == threads[|threads| - 1].rec
      requires Apart(threads[|threads| - 1], Thread(task, page, page + STACK_BYTES))
      modifies this`lastThread, this`threads, cpu`mem
      ensures lastThread == task
      ensures Enlisted(old(State()), State(), Thread(task, page, page + STACK_BYTES), main, flags, pageDir)
    {
      FillRecord(task, main, page);
      cpu.Store(lastThread + NEXT, task);
      lastThread := task;
      threads := threads + [Thread(task, page, page + STACK_BYTES)];
    }

    method FillRecord(task: int, main: int, page: int)
      modifies cpu`mem
      ensures RecordAt(cpu.mem, task) ==
        Registers(0, 0, 0, 0, 0, 0, page + STACK_BYTES, Read(old(cpu.mem), task + 28), main, flags, pageDir)
      ensures Read(cpu.mem, task + 44) == page && Read(cpu.mem, task + 48) == 0
      ensures forall a :: !Within(a, task, THREAD_BYTES) ==> Read(cpu.mem, a) == Read(old(cpu.mem), a)
    {
      cpu.Store(task, 0);
      cpu.Store(task + 4, 0);
      cpu.Store(task + 8, 0);
      cpu.Store(task + 12, 0);
      cpu.Store(task + 16, 0);
      cpu.Store(task + 20, 0);
      cpu.Store(task + 36, flags);
      cpu.Store(task + 32, main);
      cpu.Store(task + 40, pageDir);
      cpu.Store(task + STACK, page);
      cpu.Store(task + 24, page + STACK_BYTES);
      cpu.Store(task + NEXT, 0);
    }

    /** The choice of the next thread. */
    method Advance()
      requires Laid(threads) && Ring(cpu.mem, threads) && cur < |threads|
      requires mainThread == threads[0].rec && runningThread == threads[cur].rec && lastThread == threads[|threads| - 1].rec
      modifies this`runningThread, this`cur
      ensures cur == Following(old(cur), |threads|) && runningThread == threads[cur].rec
    {
      assert LinkOf(cpu.mem, threads, cur);
      if cur != |threads| - 1 { RecordsDiffer(cur, |threads| - 1); }
      if runningThread == lastThread {
        runningThread := mainThread;
      } else {
        runningThread := Read(cpu.mem, runningThread + NEXT);
      }
      cur := Following(cur, |threads|);
    }

    method PushFrame(prev: int, next: int, ret: int, ghost c: Config)
      requires c.cur < |c.threads| && c.mem == cpu.mem && c.regs == cpu.Regs()
      requires prev == c.Running().rec && next == c.threads[Following(c.cur, |c.threads|)].rec
      modifies cpu`esp, cpu`mem
      ensures cpu.Regs() == c.regs.(esp := c.regs.esp - 12) && Framed(c, cpu.mem, ret)
    {
      cpu.Push(next);
      cpu.Push(prev);
      cpu.Push(ret);
    }

    /** The call of switch_task, its arguments and return address on the stack of the running thread of `c`. */
    method Switch(prev: int, next: int, ret: int, ghost c: Config)
      requires Good(c) && c.mem == cpu.mem && c.regs == cpu.Regs() && c.threads == threads
      requires cur == Following(c.cur, |threads|) && prev == threads[c.cur].rec && next == threads[cur].rec
      requires threads[c.cur].lo + HEADROOM <= cpu.esp <= threads[c.cur].hi
      modifies cpu
      ensures Preempted(c, State(), ret)
    {
      PushFrame(prev, next, ret, c);
      ghost var regs, m := cpu.Regs(), cpu.mem;
      CallIsClear(c, m, ret);
      cpu.SwitchTask();
      SwitchIsPreemption(c, m, regs, State(), ret);
    }
  }

  /** The record at `task`, filled in for a thread with its stack on `page`, with record `last` linked to it. */
  ghost predicate RecordLeft(m: Words, task: int, page: int, main: int, flags: int, pageDir: int, last: int) {
    && Read(m, task + 24) == page + 0x1000 && Read(m, task + 32) == main
    && Read(m, task + 36) == flags && Read(m, task + 40) == pageDir && Read(m, task + 44) == page
    && Read(m, task + 48) == 0 && Read(m, last + 48) == task
  }

  lemma EnlistedRecord(c: Config, c': Config, t: Thread, main: int, flags: int, pageDir: int)
    requires Good(c) && Fits(c.threads, t) && Enlisted(c, c', t, main, flags, pageDir) && t.hi == t.lo + STACK_BYTES
    ensures var n := |c.threads|;
      && Good(c') && 0 < n < |c'.threads| && c'.threads[n] == t && c'.threads[n - 1] == c.threads[n - 1] && c'.cur < n
      && RecordLeft(c'.mem, c'.threads[n].rec, t.lo, main, flags, pageDir, c'.threads[n - 1].rec)
  {
    EnlistKeeps(c, c', t, main, flags, pageDir);
    assert RecordAt(c'.mem, t.rec).esp == t.hi;
  }

  /** A switch leaves the record of a thread that is not running, and the link to it, as they are. */
  lemma PreemptLeavesRecord(c: Config, c': Config, ret: int, i: nat, page: int, main: int, flags: int, pageDir: int)
    requires Good(c) && Preempted(c, c', ret) && 0 < i < |c.threads| && i != c.cur
    requires RecordLeft(c.mem, c.threads[i].rec, page, main, flags, pageDir, c.threads[i - 1].rec)
    ensures RecordLeft(c'.mem, c.threads[i].rec, page, main, flags, pageDir, c.threads[i - 1].rec)
  {
    PreemptSpares(c, c', ret, i);
    UntouchedRecord(c.mem, c'.mem, c.threads[i], Read(c.mem, c.threads[i].rec + 24));
    assert RecordAt(c'.mem, c.threads[i].rec).esp == page + 0x1000;
    PreemptKeepsWord(c, c', ret, i, 44);
    PreemptKeepsWord(c, c', ret, i, 48);
    PreemptKeepsWord(c, c', ret, i - 1, 48);
  }

  /** What kthread_create leaves in the new record, and in the link to it, once its preempt has run. */
  lemma StartedRecord(c: Config, mid: Config, c': Config, t: Thread, main: int, flags: int, pageDir: int, ret: int)
    requires Good(c) && Fits(c.threads, t) && Started(c, mid, c', t, main, flags, pageDir, ret) && t.hi == t.lo + STACK_BYTES
    ensures var m := c'.mem;
      && Read(m, t.rec + 24) == t.lo + 0x1000 && Read(m, t.rec + 32) == main
      && Read(m, t.rec + 36) == flags && Read(m, t.rec + 40) == pageDir && Read(m, t.rec + 44) == t.lo
      && Read(m, t.rec + 48) == 0 && Read(m, c.threads[|c.threads| - 1].rec + 48) == t.rec
  {
    EnlistedRecord(c, mid, t, main, flags, pageDir);
    PreemptLeavesRecord(mid, c', ret, |c.threads|, t.lo, main, flags, pageDir);
  }

  lemma EnlistRing(c: Config, c': Config, t: Thread, main: int, flags: int, pageDir: int)
    requires Good(c) && Ring(c.mem, c.threads) && Fits(c.threads, t) && Enlisted(c, c', t, main, flags, pageDir)
    ensures Ring(c'.mem, c'.threads)
  {
    var n := |c.threads|;
    forall i | 0 <= i < n + 1 ensures LinkOf(c'.mem, c'.threads, i) {
      if i < n {
        assert LinkOf(c.mem, c.threads, i) && Apart(c.threads[i], t);
        if i < n - 1 { assert Apart(c.threads[i], c.threads[n - 1]); }
      }
    }
  }

  /** `m` is the memory of `c` with the frame of the call of switch_task pushed. */
  ghost predicate Framed(c: Config, m: Words, ret: int)
    requires c.cur < |c.threads|
  {
    var esp := c.regs.esp;
    && Read(m, esp - 4) == c.threads[Following(c.cur, |c.threads|)].rec
    && Read(m, esp - 8) == c.Running().rec
    && Read(m, esp - 12) == ret
    && forall a :: !Within(a, esp - 12, 12) ==> Read(m, a) == Read(c.mem, a)
  }

  lemma CallIsClear(c: Config, m: Words, ret: int)
    requires Good(c) && Framed(c, m, ret)
    requires c.Running().lo + HEADROOM <= c.regs.esp <= c.Running().hi
    ensures Called(c.regs.esp - 12, m)
    ensures var next := Following(c.cur, |c.threads|);
      ResumeEsp(c.regs.esp - 12, m) ==
        if next == c.cur then c.regs.esp - 8 else Read(c.mem, c.threads[next].rec + 24)
  {
    var next := Following(c.cur, |c.threads|);
    var t, u := c.Running(), c.threads[next];
    if next != c.cur { assert Apart(t, u) && Parked(c.mem, u); }
  }

  lemma SwitchIsPreemption(c: Config, m: Words, regs: Registers, c': Config, ret: int)
    requires Good(c) && Framed(c, m, ret)
    requires c.Running().lo + HEADROOM <= c.regs.esp <= c.Running().hi
    requires regs == c.regs.(esp := c.regs.esp - 12)
    requires Switched(regs, m, c'.regs, c'.mem)
    requires c'.threads == c.threads && c'.cur == Following(c.cur, |c.threads|)
    ensures Preempted(c, c', ret)
  {
    CallIsClear(c, m, ret);
  }
}
