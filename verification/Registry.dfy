/** The filesystem registry: a singly linked list edited through slots, that is, pointers to links. */
module Registry {
  import opened Sequences
  import opened CStrings

  // ----- What the list of names guarantees ---------------------------------------------------------------

  /** The first name that `name` is a prefix of, or `|names|`. */
  function FirstMatch(names: seq<seq<int>>, name: seq<int>): (k: nat)
    ensures k <= |names|
    ensures k < |names| ==> name != [] && IsPrefix(name, names[k])
    ensures name != [] ==> forall j :: 0 <= j < k ==> !IsPrefix(name, names[j])
  {
    if names == [] || (name != [] && IsPrefix(name, names[0])) then 0 else 1 + FirstMatch(names[1..], name)
  }

  /** What of a name is compared: its length is passed in eight bits. */
  function Key(name: seq<int>): (key: seq<int>)
    ensures |name| <= 255 ==> key == name
    ensures IsPrefix(key, name)
  {
    name[..|name| % 256]
  }

  /** No key is a prefix of a name registered before it. */
  ghost predicate Ordered(names: seq<seq<int>>) {
    && (forall i :: 0 <= i < |names| ==> IsText(names[i]))
    && (forall i, j :: 0 <= i < j < |names| && Key(names[j]) != [] ==> !IsPrefix(Key(names[j]), names[i]))
  }

  /** Matching prefixes only is nevertheless exact: a registered name finds its own entry, unless nothing is left
      of its length in eight bits. */
  lemma RegisteredIsFound(names: seq<seq<int>>, k: nat)
    requires Ordered(names) && k < |names|
    ensures FirstMatch(names, Key(names[k])) == if |names[k]| % 256 == 0 then |names| else k
  {
    if |names[k]| % 256 == 0 { EmptyIsNotFound(names, Key(names[k])); }
  }

  lemma EmptyIsNotFound(names: seq<seq<int>>, key: seq<int>)
    requires key == []
    ensures FirstMatch(names, key) == |names|
    decreases |names|
  {
    if names != [] { EmptyIsNotFound(names[1..], key); }
  }

  /** In any list whatever, the entry at `k` is the one found under its name exactly when something is left of the
      length and no earlier name begins with what is left. */
  lemma FoundExactly(names: seq<seq<int>>, k: nat)
    requires k < |names|
    ensures FirstMatch(names, Key(names[k])) == k <==>
      |names[k]| % 256 != 0 && forall j :: 0 <= j < k ==> !IsPrefix(Key(names[k]), names[j])
  {
    if |names[k]| % 256 == 0 { EmptyIsNotFound(names, Key(names[k])); }
  }

  /** What the search compares, character by character: with `n` the length in eight bits, the entry found is the first
      whose name has the first `n` characters of the one sought, and with `n` zero there is none. */
  lemma FoundByPrefix(names: seq<seq<int>>, name: seq<int>)
    ensures var n, k := |name| % 256, FirstMatch(names, Key(name));
      && k <= |names|
      && (k < |names| ==> n != 0 && n <= |names[k]| && forall c :: 0 <= c < n ==> names[k][c] == name[c])
      && forall j :: 0 <= j < k && n != 0 && n <= |names[j]| ==> exists c :: 0 <= c < n && names[j][c] != name[c]
  {
    var k := FirstMatch(names, Key(name));
    if k < |names| { PrefixByCharacters(Key(name), names[k]); }
    forall j | 0 <= j < k && |name| % 256 != 0 && |name| % 256 <= |names[j]|
      ensures exists c :: 0 <= c < |name| % 256 && names[j][c] != name[c]
    {
      PrefixByCharacters(Key(name), names[j]);
    }
  }

  lemma PrefixByCharacters(p: seq<int>, s: seq<int>)
    ensures IsPrefix(p, s) <==> |p| <= |s| && forall c :: 0 <= c < |p| ==> s[c] == p[c]
  {
    if |p| <= |s| {
      assert forall c :: 0 <= c < |p| ==> s[..|p|][c] == s[c];
    }
  }

  /** What is found has the name asked for exactly when that name is registered at all; otherwise what is compared
      of the name is a prefix of the one found. */
  lemma FoundMeans(names: seq<seq<int>>, name: seq<int>)
    requires Ordered(names) && FirstMatch(names, Key(name)) < |names|
    ensures names[FirstMatch(names, Key(name))] == name <==> name in names
    ensures IsPrefix(Key(name), names[FirstMatch(names, Key(name))])
  {
    if name in names {
      var k :| 0 <= k < |names| && names[k] == name;
      RegisteredIsFound(names, k);
    }
  }

  /** A name may be added exactly when it is not found, that is, when no registered name begins with its key. */
  lemma AppendKeeps(names: seq<seq<int>>, name: seq<int>)
    requires Ordered(names) && IsText(name)
    ensures FirstMatch(names, Key(name)) == |names| <==> Ordered(names + [name])
  {
    var k := FirstMatch(names, Key(name));
    if k < |names| {
      assert (names + [name])[|names|] == name && (names + [name])[k] == names[k];
    } else if Key(name) != [] {
      forall i | 0 <= i < |names| ensures !IsPrefix(Key(name), names[i]) {}
    }
  }

  /** "ext" may not be added after "ext2", although nothing is registered under it. */
  lemma PrefixIsRefused()
    ensures var ext2, ext := [101, 120, 116, 50], [101, 120, 116];
      && Ordered([ext2]) && ext != ext2
      && FirstMatch([ext2], Key(ext)) == 0 && !Ordered([ext2] + [ext])
  {
    var ext2, ext := [101, 120, 116, 50], [101, 120, 116];
    assert IsPrefix(ext, ext2);
    AppendKeeps([ext2], ext);
  }

  lemma RemoveKeeps(names: seq<seq<int>>, k: nat)
    requires Ordered(names) && k < |names|
    ensures Ordered(Without(names, k))
  {
    var r := Without(names, k);
    forall i | 0 <= i < |r| ensures r[i] == names[if i < k then i else i + 1] {}
  }

  // ----- The list ------------------------------------------------------------------------------------------

  class FileSystemType {
    const name: seq<int>
    var next: FileSystemType?

    constructor (name: seq<int>)
      ensures this.name == name && next == null
    {
      this.name := name;
      next := null;
    }
  }

  /** A pointer to a pointer: to the head of the list, or to the link in an entry. */
  datatype Slot = Head | NextOf(fs: FileSystemType)

  function Names(list: seq<FileSystemType>): (names: seq<seq<int>>)
    ensures |names| == |list|
    ensures forall i :: 0 <= i < |list| ==> names[i] == list[i].name
  {
    seq(|list|, i requires 0 <= i < |list| => list[i].name)
  }

  /** What the slot at position `k` of the list holds. */
  function EntryAt(list: seq<FileSystemType>, k: int): FileSystemType? {
    if 0 <= k < |list| then list[k] else null
  }

  function SlotAt(list: seq<FileSystemType>, k: nat): Slot
    requires k <= |list|
  {
    if k == 0 then Head else NextOf(list[k - 1])
  }

  ghost predicate Linked(head: FileSystemType?, list: seq<FileSystemType>)
    reads list
  {
    && head == EntryAt(list, 0)
    && (forall i {:trigger list[i].next} :: 0 <= i < |list| ==> list[i].next == EntryAt(list, i + 1))
    && (forall i, j :: 0 <= i < j < |list| ==> list[i] != list[j])
  }

  class SuperBlock {
    var fsType: FileSystemType?
    var next: SuperBlock?
  }

  class FileSystems {
    var head: FileSystemType?

    /** The registered filesystems, in order. */
    ghost var list: seq<FileSystemType>

    constructor ()
      ensures Valid() && list == []
    {
      head := null;
      list := [];
    }

    ghost predicate Valid()
      reads this, list
    {
      Linked(head, list) && Ordered(Names(list))
    }

    function Deref(slot: Slot): FileSystemType?
      reads this, if slot.Head? then {} else {slot.fs}
    {
      match slot
      case Head => head
      case NextOf(fs) => fs.next
    }

    /** The test of the loop in find_file_system. */
    method Matches(fs: FileSystemType, name: seq<int>, len: nat) returns (b: bool)
      requires IsText(fs.name) && IsText(name) && len <= |name|
      ensures b <==> len != 0 && IsPrefix(name[..len], fs.name)
    {
      if len == 0 {
        return false;
      }
      PrefixIsDecided(name[..len], fs.name);
      DecidedByPrefix(name, fs.name + [NUL], len);
      var difference := Strncmp(name, fs.name + [NUL], len);
      b := difference == 0;
    }

    /** find_file_system: the slot of the first entry that matches, or the slot at the end. */
    method FindFileSystem(name: seq<int>, len: nat) returns (slot: Slot)
      requires Valid() && len <= |name| && IsText(name)
      ensures slot == SlotAt(list, FirstMatch(Names(list), name[..len]))
      ensures slot.NextOf? ==> slot.fs in list
      ensures Deref(slot) == EntryAt(list, FirstMatch(Names(list), name[..len]))
    {
      slot := Head;
      ghost var k := 0;
      ghost var names := Names(list);
      while Deref(slot) != null
        invariant 0 <= k <= |list| && slot == SlotAt(list, k) && Deref(slot) == EntryAt(list, k)
        invariant FirstMatch(names, name[..len]) == k + FirstMatch(names[k..], name[..len])
        decreases |list| - k
      {
        var fs := Deref(slot);
        MatchStep(names, name[..len], k);
        var matches := Matches(fs, name, len);
        if matches {
          break;
        }
        slot := NextOf(fs);
        k := k + 1;
      }
    }

    /** strlen of a name, as the callers of find_file_system pass it: in eight bits. */
    method NameLength(name: seq<int>) returns (len: nat)
      requires IsText(name)
      ensures len == |name| % 256 && name[..len] == Key(name)
    {
      var n := Strlen(name + [NUL]);
      TextLength(name, n);
      len := n % 256;
    }

    /** Stores through a slot. */
    method Assign(slot: Slot, fs: FileSystemType?)
      modifies this`head, (if slot.Head? then {} else {slot.fs})`next
      ensures Deref(slot) == fs
      ensures slot.NextOf? ==> head == old(head)
    {
      match slot
      case Head => head := fs;
      case NextOf(entry) => entry.next := fs;
    }

    /** `fs` ends the list, and nothing is left of its name to be found by: registered again, it would follow itself. */
    ghost predicate FollowsItself(fs: FileSystemType)
      reads this
    {
      list != [] && list[|list| - 1] == fs && |fs.name| % 256 == 0
    }

    /** register_filesystem.  The list stays one unless the last entry, with a name of a multiple of 256
        characters, is registered again: then it is linked to itself. */
    method RegisterFilesystem(fs: FileSystemType) returns (ok: bool)
      requires Valid() && IsText(fs.name)
      modifies this, list
      ensures ok <==> old(fs.next) == null && FirstMatch(Names(old(list)), Key(fs.name)) == |old(list)|
      ensures Valid() <==> !old(FollowsItself(fs))
      ensures old(FollowsItself(fs)) ==> ok && Looped(fs) && list == old(list)
      ensures ok && !old(FollowsItself(fs)) ==> fs !in old(list) && list == old(list) + [fs]
      ensures !ok ==> list == old(list) && head == old(head) && fs.next == old(fs.next) && forall e <- list :: e.next == old(e.next)
    {
      if fs.next != null {
        return false;
      }
      var len := NameLength(fs.name);
      var slot := FindFileSystem(fs.name, len);
      if FollowsItself(fs) { EmptyIsNotFound(Names(list), Key(fs.name)); }
      if Deref(slot) != null {
        return false;
      }
      if !FollowsItself(fs) {
        NotListed(head, list, fs);
      }
      AppendKeeps(Names(list), fs.name);
      Append(slot, fs);
      ok := true;
    }

    /** The store in register_filesystem, at the end of the list. */
    method Append(slot: Slot, fs: FileSystemType)
      requires Valid() && fs.next == null && slot == SlotAt(list, |list|)
      requires FollowsItself(fs) || (fs !in list && Ordered(Names(list) + [fs.name]))
      modifies this, list
      ensures if old(FollowsItself(fs)) then Looped(fs) && list == old(list) else Valid() && list == old(list) + [fs]
    {
      ghost var l, again := list, FollowsItself(fs);
      Assign(slot, fs);
      if !again {
        list := l + [fs];
        Appended(head, l, fs);
      }
    }

    /** The list as it is but for its last entry `fs`, which follows itself. */
    ghost predicate Looped(fs: FileSystemType)
      reads this, list
    {
      && list != [] && list[|list| - 1] == fs && fs.next == fs && head == list[0] && Ordered(Names(list))
      && (forall i {:trigger list[i].next} :: 0 <= i < |list| - 1 ==> list[i].next == list[i + 1])
      && (forall i, j :: 0 <= i < j < |list| ==> list[i] != list[j])
    }

    /** The removal in unregister_filesystem: the slot that held `fs` takes over its link.  An entry that follows
        itself takes its own place again. */
    method Unlink(slot: Slot, fs: FileSystemType, ghost k: nat)
      requires (Valid() || Looped(fs)) && k < |list| && slot == SlotAt(list, k) && list[k] == fs
      modifies this, list
      ensures Valid() && fs.next == null
      ensures list == if old(Valid()) then Without(old(list), k) else old(list)
      ensures old(Valid()) ==> fs !in list
    {
      ghost var l, valid := list, Valid();
      assert valid ==> fs.next == EntryAt(l, k + 1);
      Bypass(slot, fs);
      if valid {
        list := Without(l, k);
        Relinked(head, l, list, k);
      } else {
        Unlooped(head, l, k);
      }
    }

    /** The two stores of that. */
    method Bypass(slot: Slot, fs: FileSystemType)
      requires slot.NextOf? ==> slot.fs != fs
      modifies this`head, fs`next, (if slot.Head? then {} else {slot.fs})`next
      ensures fs.next == null && Deref(slot) == old(fs.next) && (slot.NextOf? ==> head == old(head))
    {
      Assign(slot, fs.next);
      fs.next := null;
    }

    /** unregister_filesystem. */
    method UnregisterFilesystem(fs: FileSystemType) returns (ok: bool)
      requires Valid() || Looped(fs)
      modifies this, list
      ensures Valid()
      ensures ok <==> fs in old(list)
      ensures ok ==> fs.next == null
      ensures ok && old(Valid()) ==>
        fs !in list && exists k :: 0 <= k < |old(list)| && old(list)[k] == fs && list == old(list)[..k] + old(list)[k + 1..]
      ensures !old(Valid()) ==> list == old(list)
      ensures !ok ==> list == old(list) && head == old(head) && forall e <- list :: e.next == old(e.next)
    {
      var slot := Head;
      ghost var k := 0;
      ghost var l := list;
      while Deref(slot) != null
        invariant 0 <= k <= |l| && slot == SlotAt(l, k) && (k < |l| || Valid() ==> Deref(slot) == EntryAt(l, k))
        invariant fs !in l[..k]
        decreases |l| - k
      {
        var entry := Deref(slot);
        if entry == fs {
          Unlink(slot, fs, k);
          return true;
        }
        slot := NextOf(entry);
        k := k + 1;
      }
      ok := false;
    }

    /** Registering a filesystem and unregistering it again leaves the list as it was, even if it followed itself
        in between. */
    method RegisterThenUnregister(fs: FileSystemType) returns (ok: bool)
      requires Valid() && IsText(fs.name)
      modifies this, list, fs
      ensures Valid() && list == old(list)
      ensures ok <==> old(fs.next) == null && FirstMatch(Names(list), Key(fs.name)) == |list|
      ensures ok ==> fs.next == null
    {
      ok := RegisterFilesystem(fs);
      if ok {
        ghost var valid := Valid();
        var _ := UnregisterFilesystem(fs);
        if valid { LastRemoved(old(list), fs, list); }
      }
    }

    /** find_super_block: the first mounted one of the named filesystem. */
    method FindSuperBlock(name: seq<int>, mounted: SuperBlock?, ghost sbs: seq<SuperBlock>) returns (sb: SuperBlock?)
      requires Valid() && IsText(name)
      requires mounted == (if sbs == [] then null else sbs[0])
      requires forall i :: 0 <= i < |sbs| ==> sbs[i].next == if i + 1 < |sbs| then sbs[i + 1] else null
      ensures var fs := EntryAt(list, FirstMatch(Names(list), Key(name)));
        if sb == null then fs == null || forall e <- sbs :: e.fsType != fs
        else fs != null && exists k :: 0 <= k < |sbs| && sbs[k] == sb && sb.fsType == fs && forall e <- sbs[..k] :: e.fsType != fs
    {
      var len := NameLength(name);
      var slot := FindFileSystem(name, len);
      var fs := Deref(slot);
      if fs == null {
        return null;
      }
      sb := mounted;
      ghost var k := 0;
      while sb != null
        invariant 0 <= k <= |sbs| && sb == (if k < |sbs| then sbs[k] else null)
        invariant forall e <- sbs[..k] :: e.fsType != fs
        decreases |sbs| - k
      {
        if sb.fsType == fs {
          return;
        }
        sb := sb.next;
        k := k + 1;
      }
    }
  }

  /** An entry already listed either has a successor or is found by its own name. */
  lemma NotListed(head: FileSystemType?, list: seq<FileSystemType>, fs: FileSystemType)
    requires Linked(head, list) && Ordered(Names(list)) && FirstMatch(Names(list), Key(fs.name)) == |list|
    requires fs.next == null && !(list != [] && list[|list| - 1] == fs && |fs.name| % 256 == 0)
    ensures fs !in list
  {
    if fs in list {
      var k :| 0 <= k < |list| && list[k] == fs;
      RegisteredIsFound(Names(list), k);
    }
  }

  /** The last entry no longer follows itself. */
  lemma Unlooped(head: FileSystemType?, list: seq<FileSystemType>, k: nat)
    requires k + 1 == |list| && list[k].next == null && head == list[0]
    requires forall i {:trigger list[i].next} :: 0 <= i < k ==> list[i].next == list[i + 1]
    requires forall i, j :: 0 <= i < j < |list| ==> list[i] != list[j]
    ensures Linked(head, list)
  {
  }

  lemma LastRemoved(list: seq<FileSystemType>, fs: FileSystemType, rest: seq<FileSystemType>)
    requires fs !in list
    requires exists k :: 0 <= k < |list| + 1 && (list + [fs])[k] == fs && rest == (list + [fs])[..k] + (list + [fs])[k + 1..]
    ensures rest == list
  {
  }

  lemma TextLength(name: seq<int>, n: nat)
    requires IsText(name) && n <= |name| && (name + [NUL])[n] == NUL
    ensures n == |name|
  {
  }

  lemma MatchStep(names: seq<seq<int>>, name: seq<int>, k: nat)
    requires k < |names|
    ensures FirstMatch(names[k..], name) ==
      if name != [] && IsPrefix(name, names[k]) then 0 else 1 + FirstMatch(names[k + 1..], name)
  {
    assert names[k..][0] == names[k] && names[k..][1..] == names[k + 1..];
  }

  lemma NamesAppend(list: seq<FileSystemType>, fs: FileSystemType)
    ensures Names(list + [fs]) == Names(list) + [fs.name]
  {
  }

  lemma NamesWithout(list: seq<FileSystemType>, k: nat)
    requires k < |list|
    ensures Names(Without(list, k)) == Without(Names(list), k)
  {
    var l, r := Without(list, k), Without(Names(list), k);
    forall i | 0 <= i < |l| ensures Names(l)[i] == r[i] {
      assert l[i] == list[if i < k then i else i + 1];
      assert r[i] == Names(list)[if i < k then i else i + 1];
    }
  }

  /** The list that is left when entry `k` has been taken out, and what follows each entry in it. */
  lemma ListWithout(list: seq<FileSystemType>, rest: seq<FileSystemType>, k: nat)
    requires k < |list| && rest == Without(list, k) && Ordered(Names(list))
    requires forall i, j :: 0 <= i < j < |list| ==> list[i] != list[j]
    ensures Ordered(Names(rest)) && list[k] !in rest
    ensures forall i, j :: 0 <= i < j < |rest| ==> rest[i] != rest[j]
    ensures EntryAt(rest, 0) == if k == 0 then EntryAt(list, 1) else EntryAt(list, 0)
    ensures forall i :: 0 <= i < |rest| ==> rest[i] == list[if i < k then i else i + 1]
  {
    RemoveKeeps(Names(list), k);
    NamesWithout(list, k);
    forall i | 0 <= i < |rest| ensures rest[i] == list[if i < k then i else i + 1] {}
  }

  /** Entry `k` has been taken out: the link that led to it now leads to what followed it. */
  lemma Relinked(head: FileSystemType?, list: seq<FileSystemType>, rest: seq<FileSystemType>, k: nat)
    requires k < |list| && rest == Without(list, k) && Ordered(Names(list))
    requires forall i, j :: 0 <= i < j < |list| ==> list[i] != list[j]
    requires head == if k == 0 then EntryAt(list, 1) else EntryAt(list, 0)
    requires forall i {:trigger list[i].next} :: 0 <= i < |list| && i != k ==>
      list[i].next == EntryAt(list, if i + 1 == k then i + 2 else i + 1)
    ensures Linked(head, rest) && Ordered(Names(rest)) && list[k] !in rest
  {
    ListWithout(list, rest, k);
    forall i {:trigger rest[i].next} | 0 <= i < |rest| ensures rest[i].next == EntryAt(rest, i + 1) {
      var at := if i < k then i else i + 1;
      assert rest[i] == list[at] && list[at].next == EntryAt(list, if at + 1 == k then at + 2 else at + 1);
    }
  }

  /** The slot at the end of the list now leads to `fs`. */
  lemma Appended(head: FileSystemType?, list: seq<FileSystemType>, fs: FileSystemType)
    requires fs.next == null && fs !in list && Ordered(Names(list) + [fs.name])
    requires forall i, j :: 0 <= i < j < |list| ==> list[i] != list[j]
    requires head == if list == [] then fs else list[0]
    requires forall i {:trigger list[i].next} :: 0 <= i < |list| ==>
      list[i].next == if i + 1 < |list| then list[i + 1] else fs
    ensures Linked(head, list + [fs]) && Ordered(Names(list + [fs]))
  {
    NamesAppend(list, fs);
  }

  lemma DecidedByPrefix(s1: seq<int>, s2: seq<int>, n: nat)
    requires n <= |s1| && Decided(s1[..n], s2, n)
    ensures Decided(s1, s2, n)
  {
    if !(n <= |s2|) {
      var i :| 0 <= i < n && i < |s2| && s1[..n][i] != s2[i];
      assert s1[i] != s2[i];
    }
  }

  /** An empty name is enough: registered twice, it makes the list of one entry follow itself. */
  method EmptyNameFollowsItself() returns (fs: FileSystemType, reg: FileSystems)
    ensures fs.next == fs && reg.head == fs && !reg.Valid()
  {
    fs := new FileSystemType([]);
    reg := new FileSystems();
    var ok := reg.RegisterFilesystem(fs);
    assert ok && reg.Valid() && reg.list == [fs];
    ok := reg.RegisterFilesystem(fs);
    assert ok && reg.Looped(fs);
  }
}
