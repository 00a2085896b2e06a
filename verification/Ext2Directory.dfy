/** What a directory says, and the walk of ext2_lookup over the bytes of one of its sectors. */
module Ext2Directory {
  import opened BufferPool
  import opened CStrings

  const HEADER := 8  // inode number, entry size, name length and type
  const SKIP_DIR := 0
  const DIRECT_BLOCKS := 12

  // The fields of the entry at offset `o` of a sector.

  predicate HasHeader(s: Sector, o: nat) { o + HEADER <= BLOCK_SIZE }

  function InodeAt(s: Sector, o: nat): nat
    requires HasHeader(s, o)
  {
    s[o] as int + 0x100 * (s[o + 1] as int) + 0x1_0000 * (s[o + 2] as int) + 0x100_0000 * (s[o + 3] as int)
  }

  function SizeAt(s: Sector, o: nat): nat
    requires HasHeader(s, o)
  {
    s[o + 4] as int + 0x100 * (s[o + 5] as int)
  }

  function NameLengthAt(s: Sector, o: nat): nat
    requires HasHeader(s, o)
  {
    s[o + 6]
  }

  /** From offset `o` on, the walk stays in the sector and comes to an end: it steps from entry to entry, each
      with its name in the sector, up to one that reaches the end of the sector or lies across it. */
  predicate Walkable(s: Sector, o: nat)
    decreases BLOCK_SIZE - o
  {
    && HasHeader(s, o)
    && (o + SizeAt(s, o) >= BLOCK_SIZE
        || (SizeAt(s, o) > 0 && o + HEADER + NameLengthAt(s, o) <= BLOCK_SIZE && Walkable(s, o + SizeAt(s, o))))
  }

  // ----- What a directory says -----------------------------------------------------------------------------

  datatype Entry = Entry(inode: nat, size: nat, name: seq<int>)

  function EntryAt(s: Sector, o: nat): Entry
    requires HasHeader(s, o) && o + HEADER + NameLengthAt(s, o) <= BLOCK_SIZE
  {
    Entry(InodeAt(s, o), SizeAt(s, o), s[o + HEADER..o + HEADER + NameLengthAt(s, o)])
  }

  /** The entries that the walk looks at, from offset `o` on: not the one that reaches the end of the sector. */
  function Visible(s: Sector, o: nat): (es: seq<Entry>)
    requires Walkable(s, o)
    decreases BLOCK_SIZE - o
  {
    if o + SizeAt(s, o) >= BLOCK_SIZE then [] else [EntryAt(s, o)] + Visible(s, o + SizeAt(s, o))
  }

  /** An entry byte by byte: the inode in the first four, its size in the next two, the length of its name, and behind
      the type the name. */
  lemma EntryInBytes(s: Sector, o: nat)
    requires o + 8 <= 512 && o + 8 + s[o + 6] <= 512
    ensures EntryAt(s, o) == Entry(
      s[o] as int + 256 * (s[o + 1] as int + 256 * (s[o + 2] as int + 256 * (s[o + 3] as int))),
      s[o + 4] as int + 256 * (s[o + 5] as int), s[o + 8..o + 8 + s[o + 6]])
  {
    assert InodeAt(s, o) == s[o] as int + 256 * (s[o + 1] as int + 256 * (s[o + 2] as int + 256 * (s[o + 3] as int)));
  }

  /** Offset `i + 1` is where the entry at offset `i` ends. */
  ghost predicate StepsAt(s: Sector, os: seq<nat>, i: nat)
    requires i + 1 < |os|
  {
    os[i] + 8 <= 512 && os[i + 1] == os[i] + s[os[i] + 4] + 256 * s[os[i] + 5] < 512
  }

  /** Entry `i` lies at offset `i`. */
  ghost predicate ShowsAt(s: Sector, os: seq<nat>, es: seq<Entry>, i: nat)
    requires i < |es| && i < |os|
  {
    os[i] + 8 <= 512 && os[i] + 8 + s[os[i] + 6] <= 512 && es[i] == EntryAt(s, os[i])
  }

  /** The entries `es` lie at these offsets, one behind the other; the last offset is that of an entry that reaches the
      end of the sector. */
  ghost predicate LaidOut(s: Sector, os: seq<nat>, es: seq<Entry>) {
    && |os| == |es| + 1
    && (forall i :: 0 <= i < |es| ==> StepsAt(s, os, i) && ShowsAt(s, os, es, i))
    && var last := os[|es|]; last + 8 <= 512 && last + s[last + 4] + 256 * s[last + 5] >= 512
  }

  /** The visible entries are those that stepping by the size fields visits, as long as the next one is still in the sector. */
  lemma {:induction false} VisibleExactly(s: Sector, o: nat) returns (os: seq<nat>)
    requires Walkable(s, o)
    ensures LaidOut(s, os, Visible(s, o)) && os[0] == o
    decreases BLOCK_SIZE - o
  {
    if o + SizeAt(s, o) < BLOCK_SIZE {
      var later := VisibleExactly(s, o + SizeAt(s, o));
      os := LaidOutMore(s, o, later);
    } else {
      os := [o];
    }
  }

  lemma LaidOutMore(s: Sector, o: nat, later: seq<nat>) returns (os: seq<nat>)
    requires Walkable(s, o) && o + SizeAt(s, o) < BLOCK_SIZE
    requires LaidOut(s, later, Visible(s, o + SizeAt(s, o))) && later[0] == o + SizeAt(s, o)
    ensures LaidOut(s, os, Visible(s, o)) && os[0] == o
  {
    os := [o] + later;
    var es, rest := Visible(s, o), Visible(s, o + SizeAt(s, o));
    assert es == [EntryAt(s, o)] + rest;
    AllMoved(s, os, es, later, rest);
  }

  lemma AllMoved(s: Sector, os: seq<nat>, es: seq<Entry>, later: seq<nat>, rest: seq<Entry>)
    requires |os| == |es| + 1 && os[1..] == later && es != [] && es[1..] == rest && LaidOut(s, later, rest)
    requires StepsAt(s, os, 0) && ShowsAt(s, os, es, 0)
    ensures LaidOut(s, os, es)
  {
    forall i | 0 <= i < |es| ensures StepsAt(s, os, i) && ShowsAt(s, os, es, i) {
      if i > 0 {
        assert StepsAt(s, later, i - 1) && ShowsAt(s, later, rest, i - 1);
        assert os[i] == later[i - 1] && os[i + 1] == later[i] && es[i] == rest[i - 1];
      }
    }
  }

  /** The visible entries of the sectors of a block. */
  ghost function VisibleIn(sectors: seq<Sector>): (es: seq<Entry>)
    requires AllWalkable(sectors)
  {
    if sectors == [] then [] else Visible(sectors[0], 0) + VisibleIn(sectors[1..])
  }

  ghost predicate AllWalkable(sectors: seq<Sector>) {
    forall k :: 0 <= k < |sectors| ==> Walkable(sectors[k], 0)
  }

  /** The direct blocks up to the first that is zero have sectors that can be walked. */
  ghost predicate Readable(blocks: seq<nat>, contents: map<nat, seq<Sector>>) {
    blocks != [] && blocks[0] != 0 ==>
      blocks[0] in contents && AllWalkable(contents[blocks[0]]) && Readable(blocks[1..], contents)
  }

  /** The visible entries of these blocks. */
  ghost function Listing(blocks: seq<nat>, contents: map<nat, seq<Sector>>): seq<Entry>
    requires Readable(blocks, contents)
  {
    if blocks == [] || blocks[0] == 0 then []
    else VisibleIn(contents[blocks[0]]) + Listing(blocks[1..], contents)
  }

  lemma {:induction false} ListedInBlock(sectors: seq<Sector>, e: Entry)
    requires AllWalkable(sectors)
    ensures e in VisibleIn(sectors) <==> exists k :: 0 <= k < |sectors| && e in Visible(sectors[k], 0)
  {
    if sectors != [] {
      ListedInBlock(sectors[1..], e);
      if k :| 0 <= k < |sectors[1..]| && e in Visible(sectors[1..][k], 0) { assert sectors[1..][k] == sectors[k + 1]; }
      if k :| 0 < k < |sectors| && e in Visible(sectors[k], 0) { assert sectors[1..][k - 1] == sectors[k]; }
    }
  }

  /** Entry `e` is visible in block `i` of these, and no block up to it is zero. */
  ghost predicate ListedAt(blocks: seq<nat>, contents: map<nat, seq<Sector>>, e: Entry, i: nat) {
    && i < |blocks| && (forall j :: 0 <= j <= i ==> blocks[j] != 0) && blocks[i] in contents
    && exists k :: 0 <= k < |contents[blocks[i]]| && Walkable(contents[blocks[i]][k], 0) && e in Visible(contents[blocks[i]][k], 0)
  }

  lemma ListedLater(blocks: seq<nat>, contents: map<nat, seq<Sector>>, e: Entry, i: nat)
    requires blocks != [] && blocks[0] != 0 && i > 0
    ensures ListedAt(blocks, contents, e, i) <==> ListedAt(blocks[1..], contents, e, i - 1)
  {
    if ListedAt(blocks[1..], contents, e, i - 1) {
      forall j | 0 <= j <= i ensures blocks[j] != 0 { if j > 0 { assert blocks[1..][j - 1] != 0; } }
    }
    if ListedAt(blocks, contents, e, i) {
      forall j | 0 <= j <= i - 1 ensures blocks[1..][j] != 0 { assert blocks[j + 1] != 0; }
    }
  }

  lemma ListedFirst(blocks: seq<nat>, contents: map<nat, seq<Sector>>, e: Entry)
    requires blocks != [] && blocks[0] != 0 && blocks[0] in contents && AllWalkable(contents[blocks[0]])
    ensures ListedAt(blocks, contents, e, 0) <==> e in VisibleIn(contents[blocks[0]])
  {
    ListedInBlock(contents[blocks[0]], e);
  }

  /** A directory lists the visible entries of its blocks, up to the first block that is zero. */
  lemma {:induction false} ListedExactly(blocks: seq<nat>, contents: map<nat, seq<Sector>>, e: Entry)
    requires Readable(blocks, contents)
    ensures e in Listing(blocks, contents) <==> exists i: nat :: ListedAt(blocks, contents, e, i)
  {
    if blocks != [] && blocks[0] != 0 {
      ListedFirst(blocks, contents, e);
      ListedExactly(blocks[1..], contents, e);
      ListedSomewhere(blocks, contents, e);
    }
  }

  lemma ListedSomewhere(blocks: seq<nat>, contents: map<nat, seq<Sector>>, e: Entry)
    requires blocks != [] && blocks[0] != 0
    ensures (exists i: nat :: ListedAt(blocks, contents, e, i)) <==>
      ListedAt(blocks, contents, e, 0) || exists i: nat :: ListedAt(blocks[1..], contents, e, i)
  {
    if i: nat :| ListedAt(blocks[1..], contents, e, i) { ListedLater(blocks, contents, e, i + 1); }
    if i: nat :| i > 0 && ListedAt(blocks, contents, e, i) { ListedLater(blocks, contents, e, i); }
  }

  predicate Matches(e: Entry, name: seq<int>) {
    e.inode != SKIP_DIR && e.name == name
  }

  function TotalSize(es: seq<Entry>): nat {
    if es == [] then 0 else TotalSize(es[..|es| - 1]) + es[|es| - 1].size
  }

  /** The `k`-th entry is reached: those before it have not used up the directory's size. */
  ghost predicate Reached(es: seq<Entry>, budget: int, k: nat) {
    k < |es| && forall j :: 0 < j <= k ==> TotalSize(es[..j]) <= budget
  }

  /** `k` is the first entry with that name, and it is reached. */
  ghost predicate FoundAt(es: seq<Entry>, budget: int, name: seq<int>, k: nat) {
    && Reached(es, budget, k) && Matches(es[k], name)
    && forall j :: 0 <= j < k ==> !Matches(es[j], name)
  }

  /** The walk has gone through all of `es` without finding the name or using up the size. */
  ghost predicate Exhausted(es: seq<Entry>, budget: int, name: seq<int>) {
    && (forall e <- es :: !Matches(e, name))
    && (forall j :: 0 < j <= |es| ==> TotalSize(es[..j]) <= budget)
  }

  /** No reached entry has the name. */
  ghost predicate Missed(es: seq<Entry>, budget: int, name: seq<int>) {
    forall k :: 0 <= k < |es| && Reached(es, budget, k) ==> !Matches(es[k], name)
  }

  /** No reached entry has the name, and the entries come to more than the directory's size. */
  ghost predicate RunsOut(es: seq<Entry>, budget: int, name: seq<int>) {
    Missed(es, budget, name) && exists j :: 0 < j <= |es| && TotalSize(es[..j]) > budget
  }

  lemma OutOfSize(es: seq<Entry>, budget: int, name: seq<int>)
    requires Missed(es, budget, name) && !Exhausted(es, budget, name)
    ensures RunsOut(es, budget, name)
  {
    if e :| e in es && Matches(e, name) {
      var k :| 0 <= k < |es| && es[k] == e;
      assert !Reached(es, budget, k);
    }
  }

  lemma {:induction false} FirstOverBudget(es: seq<Entry>, budget: int, j: nat) returns (i: nat)
    requires 0 < j <= |es| && TotalSize(es[..j]) > budget
    ensures 0 < i <= j && TotalSize(es[..i]) > budget && forall k :: 0 < k < i ==> TotalSize(es[..k]) <= budget
    decreases j
  {
    i := j;
    if k :| 0 < k < j && TotalSize(es[..k]) > budget { i := FirstOverBudget(es, budget, k); }
  }

  /** A search runs out of the directory's size exactly when the entries up to some one come to more than that, and none
      of them is in use with the name. */
  lemma RunsOutExactly(es: seq<Entry>, budget: int, name: seq<int>)
    ensures RunsOut(es, budget, name) <==> exists j ::
      (&& 0 < j <= |es| && TotalSize(es[..j]) > budget
       && forall i :: 0 <= i < j ==> es[i].inode == 0 || es[i].name != name)
  {
    if RunsOut(es, budget, name) {
      var over :| 0 < over <= |es| && TotalSize(es[..over]) > budget;
      var j := FirstOverBudget(es, budget, over);
      forall i | 0 <= i < j ensures es[i].inode == 0 || es[i].name != name { assert Reached(es, budget, i); }
    }
    if j :| 0 < j <= |es| && TotalSize(es[..j]) > budget && forall i :: 0 <= i < j ==> es[i].inode == 0 || es[i].name != name {
      forall k | 0 <= k < |es| && Matches(es[k], name) ensures !Reached(es, budget, k) { assert k >= j; }
    }
  }

  /** It does happen: a directory of size 8, smaller than its first entry, is searched for another name. */
  lemma SizeBelowFirstEntry() returns (s: Sector)
    ensures Walkable(s, 0) && Visible(s, 0) == [Entry(2, 12, [46])]
    ensures RunsOut(Visible(s, 0), 8, [120])
  {
    s := [2, 0, 0, 0, 12, 0, 1, 2, 46, 0, 0, 0, 0, 0, 0, 0, 244, 1, 0, 0] + seq(BLOCK_SIZE - 20, _ => 0);
    assert s[8..9] == [46];
    assert Walkable(s, 12) && Visible(s, 12) == [];
    var es := Visible(s, 0);
    assert es == [Entry(2, 12, [46])] + Visible(s, 12);
    assert es[..1] == es && TotalSize(es) == TotalSize(es[..0]) + 12;
  }

  // ----- How the walk goes through it -----------------------------------------------------------------------

  lemma TotalSizeMore(es: seq<Entry>, e: Entry)
    ensures TotalSize([]) == 0 && TotalSize(es + [e]) == TotalSize(es) + e.size
  {
    assert (es + [e])[..|es|] == es;
  }

  lemma PrefixReached(es: seq<Entry>, rest: seq<Entry>, budget: int, name: seq<int>)
    requires Exhausted(es, budget, name)
    ensures forall j :: 0 <= j <= |es| ==> (es + rest)[..j] == es[..j]
    ensures forall j :: 0 < j <= |es| ==> TotalSize((es + rest)[..j]) <= budget
  {
    forall j | 0 <= j <= |es| ensures (es + rest)[..j] == es[..j] {}
  }

  lemma ExhaustedIsMissed(es: seq<Entry>, budget: int, name: seq<int>)
    requires Exhausted(es, budget, name)
    ensures Missed(es, budget, name)
  {
    forall k | 0 <= k < |es| ensures !Matches(es[k], name) { assert es[k] in es; }
  }

  /** How a walk over part of a directory has ended. */
  datatype Walk = Found(inode: nat) | Gone | Continue(size: nat)

  /** The walk has gone through `es`, which `seen` came before and `rest` would come after. */
  ghost predicate WalkedThrough(r: Walk, seen: seq<Entry>, es: seq<Entry>, rest: seq<Entry>, budget: int, name: seq<int>) {
    match r
    case Found(inode) => exists k: nat :: FoundAt(seen + es + rest, budget, name, k) && (seen + es + rest)[k].inode == inode
    case Gone => Missed(seen + es + rest, budget, name) && !Exhausted(seen + es + rest, budget, name)
    case Continue(size) => size == TotalSize(seen + es) && Exhausted(seen + es, budget, name)
  }

  /** The next entry is the one looked for. */
  lemma FoundNext(es: seq<Entry>, e: Entry, rest: seq<Entry>, budget: int, name: seq<int>)
    requires Exhausted(es, budget, name) && Matches(e, name)
    ensures WalkedThrough(Found(e.inode), es, [e], rest, budget, name)
  {
    PrefixReached(es, [e] + rest, budget, name);
    var all := es + [e] + rest;
    assert es + ([e] + rest) == all;
    assert all[|es|] == e;
    forall j | 0 <= j < |es| ensures !Matches(all[j], name) { assert all[j] == es[j] && es[j] in es; }
    assert FoundAt(all, budget, name, |es|);
  }

  /** The next entry is not, and fits the size. */
  lemma ExhaustedMore(es: seq<Entry>, e: Entry, rest: seq<Entry>, budget: int, name: seq<int>)
    requires Exhausted(es, budget, name) && !Matches(e, name) && TotalSize(es) + e.size <= budget
    ensures WalkedThrough(Continue(TotalSize(es) + e.size), es, [e], rest, budget, name)
  {
    PrefixReached(es, [e], budget, name);
    TotalSizeMore(es, e);
    assert (es + [e])[..|es| + 1] == es + [e];
  }

  /** The next entry is not, and uses up the size. */
  lemma MissedFrom(es: seq<Entry>, e: Entry, rest: seq<Entry>, budget: int, name: seq<int>)
    requires Exhausted(es, budget, name) && !Matches(e, name) && TotalSize(es) + e.size > budget
    ensures WalkedThrough(Gone, es, [e], rest, budget, name)
  {
    var all := es + [e] + rest;
    TotalSizeMore(es, e);
    assert all[..|es| + 1] == es + [e];
    assert !(TotalSize(all[..|es| + 1]) <= budget);
    forall k | 0 <= k < |all| && Reached(all, budget, k) ensures !Matches(all[k], name) {
      if k < |es| { assert all[k] == es[k] && es[k] in es; }
    }
  }

  /** The test on one entry. */
  method IsMatch(s: Sector, de: nat, filename: seq<int>, len: nat) returns (b: bool)
    requires Walkable(s, de) && de + SizeAt(s, de) < BLOCK_SIZE && 0 < len <= |filename|
    ensures b <==> Matches(EntryAt(s, de), filename[..len])
  {
    if InodeAt(s, de) != SKIP_DIR && NameLengthAt(s, de) == len {
      var difference := Strncmp(filename, s[de + HEADER..], len);
      assert s[de + HEADER..][..len] == s[de + HEADER..de + HEADER + len];
      return difference == 0;
    }
    b := false;
  }

  /** Walks over neighbouring parts compose. */
  lemma WalkedOn(r: Walk, seen: seq<Entry>, a: seq<Entry>, b: seq<Entry>, c: seq<Entry>, rest: seq<Entry>, budget: int, name: seq<int>)
    requires WalkedThrough(r, seen + a, b, c + rest, budget, name)
    ensures WalkedThrough(r, seen, if r.Continue? then a + b else a + b + c, rest, budget, name)
  {
    assert (seen + a) + b == seen + (a + b);
    assert (seen + a) + b + (c + rest) == seen + (a + b + c) + rest;
  }

  /** One turn of the inner loop of ext2_lookup. */
  method WalkEntry(s: Sector, de: nat, filename: seq<int>, len: nat, size: nat, budget: int, ghost seen: seq<Entry>, ghost rest: seq<Entry>)
    returns (r: Walk)
    requires Walkable(s, de) && de + SizeAt(s, de) < BLOCK_SIZE && 0 < len <= |filename|
    requires size == TotalSize(seen) && Exhausted(seen, budget, filename[..len])
    ensures WalkedThrough(r, seen, [EntryAt(s, de)], rest, budget, filename[..len])
  {
    ghost var e := EntryAt(s, de);
    var matches := IsMatch(s, de, filename, len);
    if matches {
      r := Found(InodeAt(s, de));
      FoundNext(seen, e, rest, budget, filename[..len]);
      return;
    }
    var total := size + SizeAt(s, de);
    if total > budget {
      r := Gone;
      MissedFrom(seen, e, rest, budget, filename[..len]);
      return;
    }
    r := Continue(total);
    ExhaustedMore(seen, e, rest, budget, filename[..len]);
  }

  lemma VisibleStep(s: Sector, de: nat, done: seq<Entry>)
    requires Walkable(s, 0) && Walkable(s, de) && Visible(s, 0) == done + Visible(s, de)
    ensures if de + SizeAt(s, de) < BLOCK_SIZE then
        Visible(s, 0) == done + [EntryAt(s, de)] + Visible(s, de + SizeAt(s, de))
      else Visible(s, 0) == done
  {
    if de + SizeAt(s, de) < BLOCK_SIZE {
      assert Visible(s, de) == [EntryAt(s, de)] + Visible(s, de + SizeAt(s, de));
    } else {
      assert Visible(s, de) == [];
    }
  }

  /** One turn, in terms of the whole sector. */
  method WalkTurn(s: Sector, de: nat, filename: seq<int>, len: nat, size: nat, budget: int,
                  ghost seen: seq<Entry>, ghost done: seq<Entry>, ghost rest: seq<Entry>)
    returns (r: Walk)
    requires Walkable(s, 0) && Walkable(s, de) && de + SizeAt(s, de) < BLOCK_SIZE && Visible(s, 0) == done + Visible(s, de)
    requires 0 < len <= |filename| && WalkedThrough(Continue(size), seen, done, rest, budget, filename[..len])
    ensures Visible(s, 0) == done + [EntryAt(s, de)] + Visible(s, de + SizeAt(s, de))
    ensures WalkedThrough(r, seen, if r.Continue? then done + [EntryAt(s, de)] else Visible(s, 0), rest, budget, filename[..len])
  {
    VisibleStep(s, de, done);
    ghost var e, later := EntryAt(s, de), Visible(s, de + SizeAt(s, de));
    r := WalkEntry(s, de, filename, len, size, budget, seen + done, later + rest);
    WalkedOn(r, seen, done, [e], later, rest, budget, filename[..len]);
  }

  /** The inner loop of ext2_lookup, over the entries of one sector. */
  method WalkSector(s: Sector, filename: seq<int>, len: nat, size: nat, budget: int, ghost seen: seq<Entry>, ghost rest: seq<Entry>)
    returns (r: Walk)
    requires Walkable(s, 0) && 0 < len <= |filename|
    requires size == TotalSize(seen) && Exhausted(seen, budget, filename[..len])
    ensures WalkedThrough(r, seen, Visible(s, 0), rest, budget, filename[..len])
  {
    var de := 0;
    ghost var done: seq<Entry> := [];
    r := Continue(size);
    assert seen + done == seen;
    while de + SizeAt(s, de) < BLOCK_SIZE
      invariant 0 <= de && Walkable(s, de) && Visible(s, 0) == done + Visible(s, de)
      invariant r.Continue? && WalkedThrough(r, seen, done, rest, budget, filename[..len])
      decreases BLOCK_SIZE - de
    {
      r := WalkTurn(s, de, filename, len, r.size, budget, seen, done, rest);
      if !r.Continue? {
        return;
      }
      done := done + [EntryAt(s, de)];
      de := de + SizeAt(s, de);
    }
    VisibleStep(s, de, done);
  }

  /** The inner loop, in terms of the whole directory. */
  method WalkNextSector(s: Sector, filename: seq<int>, len: nat, size: nat, budget: int, ghost done: seq<Entry>, ghost rest: seq<Entry>)
    returns (r: Walk)
    requires Walkable(s, 0) && 0 < len <= |filename|
    requires WalkedThrough(Continue(size), [], done, [], budget, filename[..len])
    ensures WalkedThrough(r, [], if r.Continue? then done + Visible(s, 0) else done + Visible(s, 0) + rest, [], budget, filename[..len])
  {
    ContinuesFrom(Continue(size), done, budget, filename[..len]);
    r := WalkSector(s, filename, len, size, budget, done, rest);
    WalkedFromStart(r, done, Visible(s, 0), rest, budget, filename[..len]);
  }

  lemma WalkedFromStart(r: Walk, seen: seq<Entry>, here: seq<Entry>, later: seq<Entry>, budget: int, name: seq<int>)
    requires WalkedThrough(r, seen, here, later, budget, name)
    ensures WalkedThrough(r, [], if r.Continue? then seen + here else seen + here + later, [], budget, name)
  {
    assert [] + seen == seen && later + [] == later;
    WalkedOn(r, [], seen, here, later, [], budget, name);
  }

  lemma ContinuesFrom(r: Walk, seen: seq<Entry>, budget: int, name: seq<int>)
    requires r.Continue? && WalkedThrough(r, [], seen, [], budget, name)
    ensures r.size == TotalSize(seen) && Exhausted(seen, budget, name)
  {
    assert [] + seen == seen;
  }

  lemma NothingFound(all: seq<Entry>, r: Walk, seen: seq<Entry>, budget: int, name: seq<int>)
    requires r.Continue? && WalkedThrough(r, [], seen, [], budget, name) && all == seen + []
    ensures Missed(all, budget, name) && Exhausted(all, budget, name)
  {
    assert [] + seen == seen == all;
    ExhaustedIsMissed(all, budget, name);
  }

  lemma WalkEnds(all: seq<Entry>, r: Walk, budget: int, name: seq<int>)
    requires !r.Continue? && WalkedThrough(r, [], all, [], budget, name)
    ensures r.Found? ==> exists k: nat :: FoundAt(all, budget, name, k) && all[k].inode == r.inode
    ensures r.Gone? ==> Missed(all, budget, name) && !Exhausted(all, budget, name)
  {
    assert [] + all + [] == all;
  }
}
