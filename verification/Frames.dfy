/** The physical frame allocator: a bitmap of one bit per 4 KiB frame, in 32-bit words. */
module Frames {
  import opened Options
  import opened Bits

  const WORD_BITS := 32
  const MAP_WORDS := 0x2000
  const FRAME_SIZE := 0x1000

  /** Every word fits in 32 bits. */
  ghost predicate Bitmap(m: seq<nat>) {
    |m| == MAP_WORDS && forall w :: 0 <= w < |m| ==> m[w] < Pow2(WORD_BITS)
  }

  /** Frame `f` exists in the map. */
  predicate InMap(m: seq<nat>, f: nat) { f / WORD_BITS < |m| }

  predicate Used(m: seq<nat>, f: nat)
    requires InMap(m, f)
  {
    Bit(m[f / WORD_BITS], f % WORD_BITS)
  }

  /** The test of the scan in kalloc_frame, under which it goes on. */
  predicate Passed(m: seq<nat>, f: nat)
    requires InMap(m, f)
  {
    ShiftRight(m[f / WORD_BITS], f % WORD_BITS) != 0
  }

  /** The test looks at more than its frame: it holds exactly when that frame or a later one of the same
      word is in use. */
  lemma PassedMeans(m: seq<nat>, f: nat)
    requires Bitmap(m) && InMap(m, f)
    ensures Passed(m, f) <==> exists g: nat :: f <= g && g / WORD_BITS == f / WORD_BITS && Used(m, g)
  {
    var w, b := f / WORD_BITS, f % WORD_BITS;
    if Passed(m, f) {
      var c := StillThere(m[w], b, WORD_BITS);
      var g: nat := w * WORD_BITS + c;
      assert g / WORD_BITS == w && g % WORD_BITS == c;
      assert Used(m, g);
    } else {
      forall g: nat | f <= g && g / WORD_BITS == w ensures !Used(m, g) {
        ShiftedOut(m[w], b, g % WORD_BITS);
      }
    }
  }

  /** The map after frame `f` has been marked. */
  function Mark(m: seq<nat>, f: nat): seq<nat>
    requires InMap(m, f)
  {
    m[f / WORD_BITS := SetBit(m[f / WORD_BITS], f % WORD_BITS)]
  }

  /** kfree_frame as written: `&= 0 << frame` clears the whole word. */
  function ReleaseGroup(m: seq<nat>, f: nat): seq<nat>
    requires InMap(m, f)
  {
    m[f / WORD_BITS := 0]
  }

  /** kfree_frame as intended (repair F1): one bit is cleared. */
  function ReleaseOne(m: seq<nat>, f: nat): seq<nat>
    requires InMap(m, f)
  {
    m[f / WORD_BITS := ClearBit(m[f / WORD_BITS], f % WORD_BITS)]
  }

  lemma MarkMeans(m: seq<nat>, f: nat, g: nat)
    requires Bitmap(m) && InMap(m, f) && InMap(m, g)
    ensures Bitmap(Mark(m, f)) && (Used(Mark(m, f), g) <==> g == f || Used(m, g))
  {
    BitsOfSet(m[f / WORD_BITS], f % WORD_BITS, g % WORD_BITS);
    WidthOfSet(m[f / WORD_BITS], f % WORD_BITS, WORD_BITS);
  }

  /** As written, a free releases exactly the 32 frames that share the freed frame's word. */
  lemma ReleaseGroupMeans(m: seq<nat>, f: nat, g: nat)
    requires Bitmap(m) && InMap(m, f) && InMap(m, g)
    ensures Bitmap(ReleaseGroup(m, f))
    ensures Used(ReleaseGroup(m, f), g) <==> Used(m, g) && g / WORD_BITS != f / WORD_BITS
  {
    NoBits(g % WORD_BITS);
  }

  /** With repair F1 a free releases exactly the freed frame. */
  lemma ReleaseOneMeans(m: seq<nat>, f: nat, g: nat)
    requires Bitmap(m) && InMap(m, f) && InMap(m, g)
    ensures Bitmap(ReleaseOne(m, f)) && (Used(ReleaseOne(m, f), g) <==> Used(m, g) && g != f)
  {
    BitsOfClear(m[f / WORD_BITS], f % WORD_BITS, g % WORD_BITS);
    WidthOfClear(m[f / WORD_BITS], f % WORD_BITS);
  }

  /** The first frame from `k` on that the scan does not pass, or `n`. */
  function Scan(m: seq<nat>, n: nat, k: nat := 0): (f: nat)
    requires k <= n <= |m| * WORD_BITS
    ensures k <= f <= n
    ensures f < n ==> !Passed(m, f)
    ensures forall g :: k <= g < f ==> Passed(m, g)
    decreases n - k
  {
    if k == n || !Passed(m, k) then k else Scan(m, n, k + 1)
  }

  // ----- As written ------------------------------------------------------------------------------------

  /** Every word has exactly its lowest bits set, up to some bit. */
  ghost predicate Prefixes(m: seq<nat>) {
    |m| == MAP_WORDS && forall w :: 0 <= w < |m| ==> exists k :: 0 <= k <= WORD_BITS && m[w] == Ones(k)
  }

  lemma PrefixesAreBitmaps(m: seq<nat>)
    requires Prefixes(m)
    ensures Bitmap(m)
  {
    forall w | 0 <= w < |m| ensures m[w] < Pow2(WORD_BITS) {
      var k :| 0 <= k <= WORD_BITS && m[w] == Ones(k);
      WidthOfOnes(k, WORD_BITS);
    }
  }

  lemma LaterBit(f: nat, g: nat)
    requires f <= g && g / WORD_BITS == f / WORD_BITS
    ensures f % WORD_BITS <= g % WORD_BITS
  {
  }

  /** On such words the scan passes exactly the frames in use. */
  lemma PassedIsUsed(m: seq<nat>, f: nat)
    requires Prefixes(m) && InMap(m, f)
    ensures Passed(m, f) <==> Used(m, f)
  {
    PrefixesAreBitmaps(m);
    PassedMeans(m, f);
    var k :| 0 <= k <= WORD_BITS && m[f / WORD_BITS] == Ones(k);
    BitsOfOnes(k, f % WORD_BITS);
    if Passed(m, f) {
      var g: nat :| f <= g && g / WORD_BITS == f / WORD_BITS && Used(m, g);
      LaterBit(f, g);
      BitsOfOnes(k, g % WORD_BITS);
    }
  }

  lemma MarkPrefixes(m: seq<nat>, f: nat)
    requires Prefixes(m) && InMap(m, f) && !Used(m, f)
    requires f % WORD_BITS > 0 ==> Used(m, f - 1)
    ensures Prefixes(Mark(m, f))
  {
    var w, b := f / WORD_BITS, f % WORD_BITS;
    var k :| 0 <= k <= WORD_BITS && m[w] == Ones(k);
    BitsOfOnes(k, b);
    if b > 0 {
      PreviousBit(f);
      BitsOfOnes(k, b - 1);
    }
    assert k == b;
    NextOne(k);
    assert Mark(m, f)[w] == Ones(k + 1);
  }

  lemma PreviousBit(f: nat)
    requires f % WORD_BITS > 0
    ensures (f - 1) / WORD_BITS == f / WORD_BITS && (f - 1) % WORD_BITS == f % WORD_BITS - 1
  {
  }

  datatype Request = Alloc | Free(frame: nat)

  /** One request, as written; a panic stops the kernel and changes nothing here. */
  function Serve(m: seq<nat>, n: nat, q: Request): seq<nat>
    requires n <= |m| * WORD_BITS
  {
    match q
    case Alloc => var f := Scan(m, n); if f == n then m else Mark(m, f)
    case Free(f) => if f >= n then m else ReleaseGroup(m, f)
  }

  function Run(m: seq<nat>, n: nat, qs: seq<Request>): seq<nat>
    requires n <= |m| * WORD_BITS
    decreases |qs|
  {
    if qs == [] then m else Run(Serve(m, n, qs[0]), n, qs[1..])
  }

  lemma ServePrefixes(m: seq<nat>, n: nat, q: Request)
    requires Prefixes(m) && n <= |m| * WORD_BITS
    ensures Prefixes(Serve(m, n, q))
  {
    match q
    case Alloc =>
      var f := Scan(m, n);
      if f < n {
        PassedIsUsed(m, f);
        if f > 0 { PassedIsUsed(m, f - 1); assert Passed(m, f - 1); }
        MarkPrefixes(m, f);
      }
    case Free(f) =>
      if f < n {
        assert ReleaseGroup(m, f)[f / WORD_BITS] == Ones(0);
      }
  }

  /** As written, every reachable map consists of words of the form 2^k - 1. */
  lemma {:induction false} RunPrefixes(m: seq<nat>, n: nat, qs: seq<Request>)
    requires Prefixes(m) && n <= |m| * WORD_BITS
    ensures Prefixes(Run(m, n, qs))
    decreases |qs|
  {
    if qs != [] {
      ServePrefixes(m, n, qs[0]);
      RunPrefixes(Serve(m, n, qs[0]), n, qs[1..]);
    }
  }

  lemma ZeroPrefixes(m: seq<nat>)
    requires |m| == MAP_WORDS && forall w :: 0 <= w < |m| ==> m[w] == 0
    ensures Prefixes(m)
  {
    assert Ones(0) == 0;
  }

  /** As written, after any run from the empty map, the next allocation finds the lowest frame not in use,
      and panics only when all are. */
  lemma AllocationIsLowest(m: seq<nat>, n: nat, qs: seq<Request>)
    requires |m| == MAP_WORDS && (forall w :: 0 <= w < |m| ==> m[w] == 0) && n <= |m| * WORD_BITS
    ensures var r := Run(m, n, qs);
      && |r| == |m| && (Scan(r, n) < n ==> !Used(r, Scan(r, n)))
      && forall g :: 0 <= g < Scan(r, n) ==> Used(r, g)
  {
    ZeroPrefixes(m);
    RunPrefixes(m, n, qs);
    var r := Run(m, n, qs);
    forall g | 0 <= g < Scan(r, n) ensures Used(r, g) { assert Passed(r, g); PassedIsUsed(r, g); }
    if Scan(r, n) < n { PassedIsUsed(r, Scan(r, n)); }
  }

  // ----- With repair F1 ----------------------------------------------------------------------------------

  lemma FoundIsFree(m: seq<nat>, n: nat)
    requires Bitmap(m) && n <= |m| * WORD_BITS && Scan(m, n) < n
    ensures !Used(m, Scan(m, n))
  {
    PassedMeans(m, Scan(m, n));
  }

  /** With single frees holes appear, and the scan may skip them; but what it finds was not in use, and
      it panics exactly when every frame has a frame in use at or above it in its word. */
  lemma NeverReissued(m: seq<nat>, n: nat)
    requires Bitmap(m) && n <= |m| * WORD_BITS
    ensures Scan(m, n) < n ==> !Used(m, Scan(m, n))
    ensures Scan(m, n) == n <==>
      forall f: nat :: f < n ==> exists g: nat :: f <= g && g / WORD_BITS == f / WORD_BITS && Used(m, g)
  {
    var s := Scan(m, n);
    if s < n { FoundIsFree(m, n); PassedMeans(m, s); }
    forall f: nat | f < s ensures exists g: nat :: f <= g && g / WORD_BITS == f / WORD_BITS && Used(m, g) {
      assert Passed(m, f);
      PassedMeans(m, f);
    }
  }

  /** ... and holes are skipped: frame 0 is free here, and frame 2 is what the scan finds. */
  lemma HoleIsSkipped(m: seq<nat>, n: nat)
    requires |m| == MAP_WORDS && m[0] == 2 && 2 < n <= |m| * WORD_BITS
    ensures !Used(m, 0) && Scan(m, n) == 2
  {
    assert ShiftRight(m[0], 0) == 2 && ShiftRight(m[0], 1) == ShiftRight(1, 0) == 1;
    assert ShiftRight(m[0], 2) == ShiftRight(1, 1) == ShiftRight(0, 0) == 0;
    assert Passed(m, 0) && Passed(m, 1) && !Passed(m, 2);
  }

  /** The frames in use. */
  function Live(m: seq<nat>, n: nat): set<nat>
    requires n <= |m| * WORD_BITS
  {
    set f: nat | f < n && Used(m, f)
  }

  /** One request with repair F1. */
  function ServeOne(m: seq<nat>, n: nat, q: Request): seq<nat>
    requires n <= |m| * WORD_BITS
  {
    match q
    case Alloc => var f := Scan(m, n); if f == n then m else Mark(m, f)
    case Free(f) => if f >= n then m else ReleaseOne(m, f)
  }

  function RunOne(m: seq<nat>, n: nat, qs: seq<Request>): seq<nat>
    requires n <= |m| * WORD_BITS
    decreases |qs|
  {
    if qs == [] then m else RunOne(ServeOne(m, n, qs[0]), n, qs[1..])
  }

  /** What a run issues and takes back, kept as a plain set of frames. */
  function Ledger(live: set<nat>, m: seq<nat>, n: nat, qs: seq<Request>): set<nat>
    requires n <= |m| * WORD_BITS
    decreases |qs|
  {
    if qs == [] then live
    else
      var next := match qs[0]
        case Alloc => if Scan(m, n) < n then live + {Scan(m, n)} else live
        case Free(f) => live - {f};
      Ledger(next, ServeOne(m, n, qs[0]), n, qs[1..])
  }

  lemma ServeOneLive(m: seq<nat>, n: nat, q: Request)
    requires Bitmap(m) && n <= |m| * WORD_BITS
    ensures var m' := ServeOne(m, n, q);
      && Bitmap(m')
      && Live(m', n) == match q
         case Alloc => if Scan(m, n) < n then Live(m, n) + {Scan(m, n)} else Live(m, n)
         case Free(f) => Live(m, n) - {f}
  {
    match q
    case Alloc =>
      var s := Scan(m, n);
      if s < n {
        MarkMeans(m, s, s);
        forall f: nat | f < n ensures Used(Mark(m, s), f) <==> f == s || Used(m, f) { MarkMeans(m, s, f); }
      }
    case Free(g) =>
      if g < n {
        ReleaseOneMeans(m, g, g);
        forall f: nat | f < n ensures Used(ReleaseOne(m, g), f) <==> Used(m, f) && f != g { ReleaseOneMeans(m, g, f); }
      }
  }

  /** With repair F1, over every run: the bitmap holds exactly the frames issued and not taken back, and
      the next frame issued is none of them. */
  lemma {:induction false} RunOneKeepsLedger(m: seq<nat>, n: nat, qs: seq<Request>)
    requires Bitmap(m) && n <= |m| * WORD_BITS
    ensures var r := RunOne(m, n, qs);
      && |r| == |m| && Bitmap(r) && Live(r, n) == Ledger(Live(m, n), m, n, qs)
      && (Scan(r, n) < n ==> Scan(r, n) !in Ledger(Live(m, n), m, n, qs))
    decreases |qs|
  {
    if qs == [] {
      NeverReissued(m, n);
    } else {
      ServeOneLive(m, n, qs[0]);
      RunOneKeepsLedger(ServeOne(m, n, qs[0]), n, qs[1..]);
    }
  }

  // ----- The allocator ------------------------------------------------------------------------------------

  /** The first frame that lies behind the kernel, as the two init functions compute it from the kernel's end. */
  function FirstFree(endKernel: nat): (k: nat)
    ensures endKernel % 0x100_0000 < k * 0x1000 <= endKernel % 0x100_0000 + 0x1000
  {
    (endKernel % 0x100_0000) / FRAME_SIZE + 1
  }

  /** What the scan finds, and how it is marked, in numbers: the first frame whose word, divided by the value of the
      frame's bit, is zero; that value is then added to the word. */
  lemma ScanInNumbers(m: seq<nat>, n: nat)
    requires n <= |m| * 32
    ensures var f := Scan(m, n);
      && (forall g: nat :: g < f ==> m[g / 32] / Pow2(g % 32) != 0)
      && (f < n ==> m[f / 32] / Pow2(f % 32) == 0 && Mark(m, f) == m[f / 32 := m[f / 32] + Pow2(f % 32)])
  {
    var f := Scan(m, n);
    if f < n {
      BitInNumbers(m[f / 32], f % 32);
      SetInNumbers(m[f / 32], f % 32);
    }
    forall g: nat | g < f ensures m[g / 32] / Pow2(g % 32) != 0 {
      assert Passed(m, g);
      BitInNumbers(m[g / 32], g % 32);
    }
  }

  /** Freeing frame `f` with repair F1 takes the value of one bit from one word. */
  lemma ReleaseInNumbers(m: seq<nat>, f: nat)
    requires InMap(m, f) && Used(m, f)
    ensures m[f / 32] >= Pow2(f % 32) && m[f / 32] / Pow2(f % 32) % 2 == 1
    ensures |ReleaseOne(m, f)| == |m| && ReleaseOne(m, f)[f / 32] == m[f / 32] - Pow2(f % 32)
    ensures forall w :: 0 <= w < |m| && w != f / 32 ==> ReleaseOne(m, f)[w] == m[w]
  {
    BitInNumbers(m[f / 32], f % 32);
    SetInNumbers(m[f / 32], f % 32);
  }

  class FrameMap {
    var frameMap: seq<nat>
    var nframes: nat

    ghost predicate Valid()
      reads this
    {
      Bitmap(frameMap) && 0 < nframes <= |frameMap| * WORD_BITS
    }

    /** kalloc_frame; None is the panic. */
    method KallocFrame() returns (r: Option<nat>)
      requires Valid()
      modifies this`frameMap
      ensures Valid()
      ensures var f := Scan(old(frameMap), nframes);
        if f == nframes then r == None && frameMap == old(frameMap)
        else r == Some(f * 0x1000) && frameMap == Mark(old(frameMap), f)
    {
      var i: nat := 0;
      while ShiftRight(frameMap[i / WORD_BITS], i % WORD_BITS) != 0
        invariant 0 <= i < nframes && Scan(frameMap, nframes) == Scan(frameMap, nframes, i)
        decreases nframes - i
      {
        if i == nframes - 1 {
          return None;
        }
        i := i + 1;
      }
      MarkMeans(frameMap, i, i);
      frameMap := frameMap[i / WORD_BITS := SetBit(frameMap[i / WORD_BITS], i % WORD_BITS)];
      r := Some(i * FRAME_SIZE);
    }

    /** kfree_frame as written; false is the panic. */
    method KfreeFrame(frame: nat) returns (ok: bool)
      requires Valid()
      modifies this`frameMap
      ensures Valid()
      ensures ok <==> frame / 0x1000 < nframes
      ensures frameMap == if ok then ReleaseGroup(old(frameMap), frame / FRAME_SIZE) else old(frameMap)
      ensures ok ==> frameMap == old(frameMap)[frame / 0x1000 / 32 := 0]
    {
      var f := frame / FRAME_SIZE;
      if f >= nframes {
        return false;
      }
      ReleaseGroupMeans(frameMap, f, f);
      frameMap := frameMap[f / WORD_BITS := 0];
      ok := true;
    }

    /** kfree_frame with repair F1. */
    method KfreeOneFrame(frame: nat) returns (ok: bool)
      requires Valid()
      modifies this`frameMap
      ensures Valid()
      ensures ok <==> frame / 0x1000 < nframes
      ensures frameMap == if ok then ReleaseOne(old(frameMap), frame / FRAME_SIZE) else old(frameMap)
    {
      var f := frame / FRAME_SIZE;
      if f >= nframes {
        return false;
      }
      ReleaseOneMeans(frameMap, f, f);
      frameMap := frameMap[f / WORD_BITS := ClearBit(frameMap[f / WORD_BITS], f % WORD_BITS)];
      ok := true;
    }

    /** A map with no frame in use. */
    constructor (memSize: nat)
      requires 0 < memSize / 4 <= MAP_WORDS * WORD_BITS
      ensures Valid() && nframes == memSize / 4 && Lowest(frameMap, 0)
    {
      nframes := memSize / 4;
      frameMap := seq(MAP_WORDS, _ => 0);
      new;
      ZeroPrefixes(frameMap);
      PrefixesAreBitmaps(frameMap);
      forall f: nat | InMap(frameMap, f) ensures !Used(frameMap, f) { NoBits(f % WORD_BITS); }
    }
  }

  /** init_frames, on a map that starts out zero: the kernel's own frames are allocated one by one.  Null is the
      panic of a kernel that does not fit. */
  method InitFrames(endKernel: nat, memSize: nat) returns (r: FrameMap?)
    requires 0 < memSize / 4 <= MAP_WORDS * WORD_BITS
    ensures r == null <==> FirstFree(endKernel) > memSize / 4
    ensures r != null ==> fresh(r) && r.Valid() && r.nframes == memSize / 4 && Lowest(r.frameMap, FirstFree(endKernel))
  {
    var m := new FrameMap(memSize);
    for i := 0 to FirstFree(endKernel)
      invariant fresh(m) && m.Valid() && i <= m.nframes == memSize / 4 && Lowest(m.frameMap, i)
    {
      LowestScan(m.frameMap, m.nframes, i);
      var frame := m.KallocFrame();
      if frame.None? {
        return null;
      }
    }
    r := m;
  }

  /** Exactly the frames below `k` are in use. */
  ghost predicate Lowest(m: seq<nat>, k: nat) {
    |m| == MAP_WORDS && forall f: nat :: InMap(m, f) ==> (Used(m, f) <==> f < k)
  }

  lemma LowestScan(m: seq<nat>, n: nat, k: nat)
    requires Bitmap(m) && Lowest(m, k) && k <= n <= |m| * WORD_BITS
    ensures Scan(m, n) == k && (k < n ==> Lowest(Mark(m, k), k + 1))
  {
    forall f: nat | f < k ensures Passed(m, f) { PassedMeans(m, f); assert Used(m, f); }
    if k < n {
      PassedMeans(m, k);
      forall f: nat | InMap(m, f) ensures Used(Mark(m, k), f) <==> f < k + 1 { MarkMeans(m, k, f); }
    }
  }
}
