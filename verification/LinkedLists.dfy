/** Doubly linked lists through two arrays of links.  A pointer is the number of an element, or NULL. */
module LinkedLists {
  import opened Sequences

  const NULL := -1

  function At(l: seq<int>, i: int): int {
    if 0 <= i < |l| then l[i] else NULL
  }

  ghost predicate Distinct(l: seq<int>) {
    forall i, j :: 0 <= i < j < |l| ==> l[i] != l[j]
  }

  /** Element `i` of `l` is linked to its neighbours. */
  ghost predicate Joined(next: seq<int>, prev: seq<int>, l: seq<int>, i: nat)
    requires i < |l|
  {
    && 0 <= l[i] < |next| && l[i] < |prev|
    && next[l[i]] == At(l, i + 1) && prev[l[i]] == At(l, i - 1)
  }

  /** Following `next` from `head` visits exactly `l`, and `prev` leads back. */
  ghost predicate Linked(next: seq<int>, prev: seq<int>, head: int, l: seq<int>) {
    && head == At(l, 0)
    && Distinct(l)
    && forall i {:trigger Joined(next, prev, l, i)} :: 0 <= i < |l| ==> Joined(next, prev, l, i)
  }

  lemma WithoutMembers(l: seq<int>, k: nat)
    requires k < |l| && Distinct(l)
    ensures Distinct(Without(l, k))
    ensures forall x :: x in Without(l, k) <==> x in l && x != l[k]
  {
    assert l == l[..k] + [l[k]] + l[k + 1..];
  }

  /** The links once `x` has been taken out. */
  function NextWithout(next: seq<int>, prev: seq<int>, x: int): seq<int>
    requires 0 <= x < |next| == |prev|
  {
    if 0 <= prev[x] < |next| then next[prev[x] := next[x]] else next
  }

  function PrevWithout(next: seq<int>, prev: seq<int>, x: int): seq<int>
    requires 0 <= x < |next| == |prev|
  {
    if 0 <= next[x] < |prev| then prev[next[x] := prev[x]] else prev
  }

  lemma PointersInRange(next: seq<int>, prev: seq<int>, head: int, l: seq<int>, k: nat)
    requires Linked(next, prev, head, l) && |next| == |prev| && k < |l|
    ensures 0 <= l[k] < |next|
    ensures NULL <= next[l[k]] < |next| && NULL <= prev[l[k]] < |next|
    ensures (next[l[k]] == NULL <==> k == |l| - 1) && (prev[l[k]] == NULL <==> k == 0)
  {
    assert Joined(next, prev, l, k);
    if k > 0 { assert Joined(next, prev, l, k - 1); }
    if k + 1 < |l| { assert Joined(next, prev, l, k + 1); }
  }

  /** Taking out an element leaves the list of the others. */
  lemma UnlinkKeeps(next: seq<int>, prev: seq<int>, head: int, l: seq<int>, k: nat)
    requires Linked(next, prev, head, l) && |next| == |prev| && k < |l|
    requires 0 <= l[k] < |next|
    ensures Linked(NextWithout(next, prev, l[k]), PrevWithout(next, prev, l[k]),
                   if k == 0 then next[l[k]] else head, Without(l, k))
  {
    var r := Without(l, k);
    var next', prev' := NextWithout(next, prev, l[k]), PrevWithout(next, prev, l[k]);
    WithoutMembers(l, k);
    PointersInRange(next, prev, head, l, k);
    assert Joined(next, prev, l, k);
    forall i | 0 <= i < |r| ensures Joined(next', prev', r, i) {
      var o := if i < k then i else i + 1;
      assert r[i] == l[o] && Joined(next, prev, l, o);
      assert k > 0 ==> prev[l[k]] == l[k - 1];
      assert k + 1 < |l| ==> next[l[k]] == l[k + 1];
    }
  }

  /** ... and leaves alone any list that shares no element with it. */
  lemma UnlinkElsewhere(next: seq<int>, prev: seq<int>, head: int, l: seq<int>, k: nat, head2: int, l2: seq<int>)
    requires Linked(next, prev, head, l) && |next| == |prev| && k < |l|
    requires 0 <= l[k] < |next|
    requires Linked(next, prev, head2, l2) && forall x <- l2 :: x !in l
    ensures Linked(NextWithout(next, prev, l[k]), PrevWithout(next, prev, l[k]), head2, l2)
  {
    var next', prev' := NextWithout(next, prev, l[k]), PrevWithout(next, prev, l[k]);
    PointersInRange(next, prev, head, l, k);
    assert Joined(next, prev, l, k);
    assert k > 0 ==> prev[l[k]] == l[k - 1] && l[k - 1] in l;
    assert k + 1 < |l| ==> next[l[k]] == l[k + 1] && l[k + 1] in l;
    forall i | 0 <= i < |l2| ensures Joined(next', prev', l2, i) {
      assert Joined(next, prev, l2, i) && l2[i] in l2;
    }
  }

  /** Putting `x` before the first element. */
  lemma PushFrontKeeps(next: seq<int>, prev: seq<int>, head: int, l: seq<int>, x: int, next': seq<int>, prev': seq<int>)
    requires Linked(next, prev, head, l) && |next| == |prev| == |next'| == |prev'| && 0 <= x < |next| && x !in l
    requires next' == next[x := head]
    requires |prev'| == |prev| && prev'[x] == NULL && (head != NULL ==> 0 <= head < |prev| && prev'[head] == x)
    requires forall y :: 0 <= y < |prev| && y != x && y != head ==> prev'[y] == prev[y]
    ensures Linked(next', prev', x, [x] + l)
  {
    var r := [x] + l;
    forall i | 0 <= i < |r| ensures Joined(next', prev', r, i) {
      if i > 0 { assert r[i] == l[i - 1] && Joined(next, prev, l, i - 1) && l[i - 1] in l; }
    }
  }

  /** Putting `x` behind the last element. */
  lemma PushBackKeeps(next: seq<int>, prev: seq<int>, head: int, l: seq<int>, x: int, next': seq<int>, prev': seq<int>)
    requires Linked(next, prev, head, l) && |next| == |prev| == |next'| == |prev'| && 0 <= x < |next| && x !in l
    requires prev' == prev[x := At(l, |l| - 1)]
    requires next'[x] == NULL && (l != [] ==> 0 <= l[|l| - 1] < |next| && next'[l[|l| - 1]] == x)
    requires forall y :: 0 <= y < |next| && y != x && y != At(l, |l| - 1) ==> next'[y] == next[y]
    ensures Linked(next', prev', if l == [] then x else head, l + [x])
  {
    var r := l + [x];
    forall i | 0 <= i < |r| ensures Joined(next', prev', r, i) {
      if i < |l| { assert r[i] == l[i] && Joined(next, prev, l, i) && l[i] in l; }
    }
  }

  /** Links of elements outside a list do not matter to it. */
  lemma LinksElsewhere(next: seq<int>, prev: seq<int>, head: int, l: seq<int>, next': seq<int>, prev': seq<int>)
    requires Linked(next, prev, head, l) && |next| == |prev| == |next'| == |prev'|
    requires forall x <- l :: 0 <= x < |next| ==> next'[x] == next[x] && prev'[x] == prev[x]
    ensures Linked(next', prev', head, l)
  {
    forall i | 0 <= i < |l| ensures Joined(next', prev', l, i) {
      assert Joined(next, prev, l, i) && l[i] in l;
    }
  }

  /** What an element leads to is in the list, but not its head. */
  lemma SuccessorIsBehind(next: seq<int>, prev: seq<int>, head: int, l: seq<int>, x: int)
    requires Linked(next, prev, head, l) && x in l && 0 <= x < |next| && next[x] != NULL
    ensures next[x] in l && next[x] != head
  {
    var k :| 0 <= k < |l| && l[k] == x;
    assert Joined(next, prev, l, k);
  }

  /** The head is in the list, and does not lead to itself. */
  lemma HeadIsAlone(next: seq<int>, prev: seq<int>, head: int, l: seq<int>)
    requires Linked(next, prev, head, l) && head != NULL
    ensures head in l && 0 <= head < |next| && next[head] != head
  {
    assert Joined(next, prev, l, 0);
  }
}
