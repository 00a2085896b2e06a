/** Whole runs of threads and the page allocator together: the stacks that kthread_create gets are clear of all
    others because of how pages are handed out. */
module ThreadRuns {
  import opened ContextSwitch
  import opened Tasks
  import Frames
  import Paging

  /** The threads, and the page table and frames as the page allocator has them. */
  datatype World = World(c: Config, s: Paging.Mapping)

  /** kthread_create up to its preempt: the next page becomes the stack. */
  ghost predicate Spawned(w: World, w': World, n: nat, task: int, main: int, flags: int, pageDir: int)
    requires Paging.Consistent(w.s, n)
  {
    && w.c.threads != [] && RecordFits(w.s.table, w.c.threads, task)
    && !Paging.Panics(w.s, n, Paging.AllocPage) && Paging.Served(w.s, n, Paging.AllocPage, w.s.next, w'.s)
    && Enlisted(w.c, w'.c, Thread(task, w.s.next, w.s.next + STACK_BYTES), main, flags, pageDir)
  }

  /** kalloc_page, or kfree_page of a page in which no thread has its record or stack. */
  ghost predicate Allocated(w: World, w': World, n: nat, op: Paging.Op, page: nat)
    requires Paging.Consistent(w.s, n)
  {
    && w'.c == w.c && !Paging.Panics(w.s, n, op) && Paging.Served(w.s, n, op, page, w'.s)
    && (op.FreePage? ==> page % STACK_BYTES == 0 && ClearOfAll(w.c.threads, page, page + STACK_BYTES))
  }

  ghost predicate Step(w: World, w': World, n: nat)
    requires Paging.Consistent(w.s, n) && w.c.cur < |w.c.threads|
  {
    || (w'.s == w.s && (Compute(w.c, w'.c) || exists ret :: Preempted(w.c, w'.c, ret)))
    || (exists task, main, flags, pageDir :: Spawned(w, w', n, task, main, flags, pageDir))
    || (exists op, page :: Allocated(w, w', n, op, page))
  }

  /** All is well: threads are laid out apart and can be resumed, and what they use is mapped. */
  ghost predicate Sound(w: World, n: nat) {
    && Good(w.c) && Paging.Consistent(w.s, n) && InMappedMemory(w.s.table, w.c.threads) && w.s.next % STACK_BYTES == 0
  }

  lemma NextIsKernelPage(s: Paging.Mapping, n: nat)
    requires Paging.Consistent(s, n)
    ensures Paging.DirectoryIndex(s.next) == Paging.KERNEL_PAGE_NUMBER
  {
  }

  /** That the stack of a new thread is clear of all others is a conclusion, not an assumption. */
  lemma SpawnKeeps(w: World, w': World, n: nat, task: int, main: int, flags: int, pageDir: int)
    requires Sound(w, n) && Spawned(w, w', n, task, main, flags, pageDir)
    ensures Fits(w.c.threads, Thread(task, w.s.next, w.s.next + STACK_BYTES))
    ensures Created(w.c, w'.c) && Sound(w', n)
  {
    var t := Thread(task, w.s.next, w.s.next + STACK_BYTES);
    NextIsKernelPage(w.s, n);
    PageFits(w.s.table, w.c.threads, task, w.s.next);
    SpawnMapped(w, w', n, task, main, flags, pageDir);
    EnlistKeeps(w.c, w'.c, t, main, flags, pageDir);
  }

  lemma SpawnMapped(w: World, w': World, n: nat, task: int, main: int, flags: int, pageDir: int)
    requires Sound(w, n) && Spawned(w, w', n, task, main, flags, pageDir)
    ensures Paging.Consistent(w'.s, n) && InMappedMemory(w'.s.table, w'.c.threads) && w'.s.next % STACK_BYTES == 0
  {
    NextIsKernelPage(w.s, n);
    MappedMore(w.s.table, w.c.threads, task, w.s.next, Frames.Scan(w.s.map_, n));
    Paging.ServedKeeps(w.s, n, Paging.AllocPage, w.s.next, w'.s);
  }

  /** A page without threads in it may be freed. */
  lemma FreeKeepsMapped(pt: seq<nat>, threads: seq<Thread>, page: nat)
    requires InMappedMemory(pt, threads) && ClearOfAll(threads, page, page + STACK_BYTES)
    requires Paging.DirectoryIndex(page) == Paging.KERNEL_PAGE_NUMBER && page % STACK_BYTES == 0
    ensures InMappedMemory(pt[Paging.TableIndex(page) := 0], threads)
  {
    forall i | 0 <= i < |threads| ensures IsMapped(pt[Paging.TableIndex(page) := 0], threads[i]) {
      assert IsMapped(pt, threads[i]) && ClearOfThread(threads[i], page, page + STACK_BYTES);
      RangeStays(pt, page, threads[i].rec, threads[i].rec + THREAD_BYTES);
      RangeStays(pt, page, threads[i].lo, threads[i].hi);
    }
  }

  lemma RangeStays(pt: seq<nat>, page: nat, lo: int, hi: int)
    requires MappedRange(pt, lo, hi) && Disjoint(lo, hi, page, page + STACK_BYTES)
    requires Paging.DirectoryIndex(page) == Paging.KERNEL_PAGE_NUMBER && page % STACK_BYTES == 0
    ensures MappedRange(pt[Paging.TableIndex(page) := 0], lo, hi)
  {
    var pt' := pt[Paging.TableIndex(page) := 0];
    forall a: nat | lo <= a < hi ensures Paging.Translate(pt', a).Some? {
      assert Paging.Translate(pt, a).Some?;
      assert !(page <= a < page + STACK_BYTES);
      Paging.TranslateOther(pt, page, 0, a);
    }
  }

  lemma AllocatedKeeps(w: World, w': World, n: nat, op: Paging.Op, page: nat)
    requires Sound(w, n) && Allocated(w, w', n, op, page)
    ensures Sound(w', n)
  {
    Paging.ServedKeeps(w.s, n, op, page, w'.s);
    match op
    case AllocPage =>
      NextIsKernelPage(w.s, n);
      MappedStays(w.s.table, w.c.threads, page, Frames.Scan(w.s.map_, n));
    case FreePage(virtualAddr) =>
      FreeKeepsMapped(w.s.table, w.c.threads, page);
  }

  lemma MappedStays(pt: seq<nat>, threads: seq<Thread>, page: nat, f: nat)
    requires InMappedMemory(pt, threads)
    requires Paging.DirectoryIndex(page) == Paging.KERNEL_PAGE_NUMBER && page % STACK_BYTES == 0
    ensures InMappedMemory(pt[Paging.TableIndex(page) := f * Frames.FRAME_SIZE + Paging.FLAGS], threads)
  {
    var pt' := pt[Paging.TableIndex(page) := f * Frames.FRAME_SIZE + Paging.FLAGS];
    forall a: nat ensures Paging.Translate(pt, a).Some? ==> Paging.Translate(pt', a).Some? {
      Paging.TranslateMapped(pt, page, f, a);
    }
    forall i | 0 <= i < |threads| ensures IsMapped(pt', threads[i]) { assert IsMapped(pt, threads[i]); }
  }

  lemma StepKeeps(w: World, w': World, n: nat)
    requires Sound(w, n) && Step(w, w', n)
    ensures Sound(w', n) && Tasks.Step(w.c, w'.c)
  {
    if task, main, flags, pageDir :| Spawned(w, w', n, task, main, flags, pageDir) {
      SpawnKeeps(w, w', n, task, main, flags, pageDir);
    } else if op, page :| Allocated(w, w', n, op, page) {
      AllocatedKeeps(w, w', n, op, page);
    } else {
      Tasks.StepKeeps(w.c, w'.c);
    }
  }

  ghost predicate IsRun(run: seq<World>, n: nat) {
    && run != [] && Sound(run[0], n)
    && forall k :: 0 <= k < |run| - 1 ==> StepAt(run, n, k)
  }

  ghost predicate StepAt(run: seq<World>, n: nat, k: nat)
    requires k + 1 < |run|
  {
    Paging.Consistent(run[k].s, n) && run[k].c.cur < |run[k].c.threads| && Step(run[k], run[k + 1], n)
  }

  /** Over every run of the two together, from a sound start: records and stacks of all threads, however many have
      been created, are apart. */
  lemma {:induction false} StacksStayApart(run: seq<World>, n: nat, k: nat)
    requires IsRun(run, n) && k < |run|
    ensures Sound(run[k], n) && Laid(run[k].c.threads)
    decreases k
  {
    if k > 0 {
      StacksStayApart(run, n, k - 1);
      assert StepAt(run, n, k - 1);
      StepKeeps(run[k - 1], run[k], n);
    }
  }

  function Configs(run: seq<World>): (cs: seq<Config>)
    ensures |cs| == |run| && forall k :: 0 <= k < |run| ==> cs[k] == run[k].c
  {
    seq(|run|, k requires 0 <= k < |run| => run[k].c)
  }

  /** Its threads make a run of switches and creations, so that all that is known of those holds of it. */
  lemma ThreadsRun(run: seq<World>, n: nat)
    requires IsRun(run, n)
    ensures Tasks.IsRun(Configs(run)) && Good(Configs(run)[0])
  {
    forall k | 0 <= k < |run| - 1 ensures Tasks.StepAt(Configs(run), k) {
      StacksStayApart(run, n, k);
      assert StepAt(run, n, k);
      StepKeeps(run[k], run[k + 1], n);
    }
  }

  lemma MappedPageIsPresent(pt: seq<nat>, page: int)
    requires MappedRange(pt, page, page + 0x1000) && page % 0x1000 == 0
    ensures page / 0x40_0000 == 768 && |pt| == 1024 && pt[page / 0x1000 % 1024] % 2 == 1
  {
    assert Paging.Translate(pt, page).Some?;
  }

  lemma NewStackIsPage(w: World, w': World, n: nat, i: nat)
    requires Sound(w, n) && Step(w, w', n) && |w.c.threads| <= i < |w'.c.threads|
    ensures w'.c.threads[i].hi == w'.c.threads[i].lo + 0x1000 && w'.c.threads[i].lo % 0x1000 == 0
  {
    if task, main, flags, pageDir :| Spawned(w, w', n, task, main, flags, pageDir) {
      assert w'.c.threads[|w.c.threads|] == Thread(task, w.s.next, w.s.next + STACK_BYTES);
    }
  }

  lemma OldThreadStays(w: World, w': World, n: nat)
    requires Sound(w, n) && Step(w, w', n)
    ensures w.c.threads <= w'.c.threads
  {
    StepKeeps(w, w', n);
    Tasks.StepKeeps(w.c, w'.c);
  }

  /** Threads created since the start of a run have their stacks at the start of a page. */
  lemma {:induction false} StacksArePages(run: seq<World>, n: nat, k: nat, i: nat)
    requires IsRun(run, n) && k < |run| && |run[0].c.threads| <= i < |run[k].c.threads|
    ensures run[k].c.threads[i].hi == run[k].c.threads[i].lo + 0x1000 && run[k].c.threads[i].lo % 0x1000 == 0
    decreases k
  {
    if k > 0 {
      StacksStayApart(run, n, k - 1);
      assert StepAt(run, n, k - 1);
      if i < |run[k - 1].c.threads| {
        OldThreadStays(run[k - 1], run[k], n);
        StacksArePages(run, n, k - 1, i);
      } else {
        NewStackIsPage(run[k - 1], run[k], n, i);
      }
    }
  }

  /** Over every run of the two together: the word at 44 of the record of each thread created in it is the page of its
      stack, and that page is mapped, so that freeing it is no panic. */
  lemma StackWordIsPage(run: seq<World>, n: nat, k: nat, i: nat)
    requires IsRun(run, n) && k < |run| && |run[0].c.threads| <= i < |run[k].c.threads|
    ensures var t := run[k].c.threads[i]; var page := Read(run[k].c.mem, t.rec + 44); var pt := run[k].s.table;
      && page == t.lo && t.hi == page + 0x1000 && page % 0x1000 == 0
      && page >= 0 && page / 0x40_0000 == 768 && |pt| == 1024 && pt[page / 0x1000 % 1024] % 2 == 1
      && Paging.Consistent(run[k].s, n) && !Paging.Panics(run[k].s, n, Paging.FreePage(page))
  {
    var t := run[k].c.threads[i];
    ThreadsRun(run, n);
    StackWordIsKept(Configs(run), k, i);
    StacksStayApart(run, n, k);
    StacksArePages(run, n, k, i);
    assert IsMapped(run[k].s.table, t);
    MappedPageIsPresent(run[k].s.table, t.lo);
  }
}
