/** The intrusive rings of list.h. A ring is given by the sequence of its entries, the head first;
    every operation rewrites a few pointers, and does to the sequence what its name says. */
module List {

  class ListHead {
    var next: ListHead?
    var prev: ListHead?

    /** INIT_LIST_HEAD of a new entry. */
    constructor ()
      ensures Ring([this])
    {
      new;
      next, prev := this, this;
    }
  }

  type Entries = seq<ListHead>

  // ---- Rings

  function After(s: Entries, i: nat): ListHead
    requires i < |s|
  {
    if i + 1 < |s| then s[i + 1] else s[0]
  }

  ghost predicate Distinct(s: Entries) { forall i, j :: 0 <= i < j < |s| ==> s[i] != s[j] }

  /** Each entry leads to the one after it and back, the last one to the first. */
  ghost predicate Ring(s: Entries)
    reads s
  {
    Distinct(s) && forall i :: 0 <= i < |s| ==> s[i].next == After(s, i) && After(s, i).prev == s[i]
  }

  ghost predicate Disjoint(s: Entries, t: Entries) { forall x :: x in s ==> x !in t }

  function Without(s: Entries, k: nat): (r: Entries)
    requires k < |s|
    ensures |r| == |s| - 1 && forall i :: 0 <= i < |r| ==> r[i] == s[if i < k then i else i + 1]
  {
    s[..k] + s[k + 1..]
  }

  /** The entry before the k-th. */
  function Before(s: Entries, k: nat): ListHead
    requires k < |s|
  {
    if k > 0 then s[k - 1] else s[|s| - 1]
  }

  /** next and prev undo each other, and lead from entry to entry. */
  lemma NextPrev(s: Entries, x: ListHead)
    requires Ring(s) && x in s
    ensures x.next != null && x.prev != null && x.next in s && x.prev in s
    ensures x.next.prev == x && x.prev.next == x
  {
    var i :| 0 <= i < |s| && s[i] == x;
    assert After(s, i) in s && x.next == After(s, i);
    if i > 0 { assert After(s, i - 1) == x; } else { assert After(s, |s| - 1) == x; }
  }

  lemma PrevIs(s: Entries, k: nat)
    requires Ring(s) && k < |s|
    ensures s[k].prev == Before(s, k) && s[k].next == After(s, k)
  {
    if k > 0 { assert After(s, k - 1) == s[k]; } else { assert After(s, |s| - 1) == s[k]; }
  }

  /** The entry `k` steps along the next pointers. */
  ghost function Follow(s: Entries, x: ListHead, k: nat): (y: ListHead)
    requires Ring(s) && x in s
    reads s
    ensures y in s
    decreases k
  {
    if k == 0 then x else
      NextPrev(s, x);
      Follow(s, x.next, k - 1)
  }

  /** It is one cycle: from the k-th entry, i steps lead to the (k + i)-th, and as many steps as
      there are entries lead back. */
  lemma {:induction false} OneCycle(s: Entries, k: nat, i: nat)
    requires Ring(s) && k < |s| && i <= |s|
    ensures Follow(s, s[k], i) == if k + i < |s| then s[k + i] else s[k + i - |s|]
    decreases i
  {
    hide Ring;
    if i > 0 {
      NextPrev(s, s[k]);
      PrevIs(s, k);
      if k + 1 < |s| { OneCycle(s, k + 1, i - 1); } else { OneCycle(s, 0, i - 1); }
    }
  }

  /** The same entries in the same order, from the k-th on. */
  lemma Rotated(s: Entries, k: nat)
    requires Ring(s) && k < |s|
    ensures Ring(s[k..] + s[..k])
  {
    var r := s[k..] + s[..k];
    forall i | 0 <= i < |r|
      ensures r[i].next == After(r, i) && After(r, i).prev == r[i]
    {
      var j := if k + i < |s| then k + i else k + i - |s|;
      assert r[i] == s[j] && After(r, i) == After(s, j);
    }
  }

  // ---- Adding

  /** __list_add. */
  method LinkBetween(p: ListHead, prev: ListHead, next: ListHead)
    requires p != prev && p != next
    modifies p, prev`next, next`prev
    ensures next.prev == p && p.next == next && p.prev == prev && prev.next == p
  {
    next.prev := p;
    p.next := next;
    p.prev := prev;
    prev.next := p;
  }

  /** list_add. */
  method Add(p: ListHead, head: ListHead, ghost s: Entries)
    requires Ring(s) && s != [] && s[0] == head && p !in s
    modifies p, s
    ensures Ring([head, p] + s[1..])
  {
    LinkBetween(p, head, head.next);
    ghost var r := [head, p] + s[1..];
    assert forall i :: 2 <= i < |r| ==> r[i] == s[i - 1];
  }

  /** list_add_tail. */
  method AddTail(p: ListHead, head: ListHead, ghost s: Entries)
    requires Ring(s) && s != [] && s[0] == head && p !in s
    modifies p, s
    ensures Ring(s + [p])
  {
    PrevIs(s, 0);
    LinkBetween(p, head.prev, head);
  }

  // ---- Deleting

  /** __list_del. */
  method Unlink(prev: ListHead, next: ListHead)
    modifies prev`next, next`prev
    ensures next.prev == prev && prev.next == next
  {
    next.prev := prev;
    prev.next := next;
  }

  /** The first lines of list_del, list_del_init and list_move: the others close up. */
  method CutOut(entry: ListHead, ghost s: Entries, ghost k: nat)
    requires Ring(s) && k < |s| && entry == s[k]
    modifies s
    ensures Ring(Without(s, k))
  {
    PrevIs(s, k);
    Steps(s);
    Unlink(entry.prev, entry.next);
    Closed(s, k);
  }

  /** The links of a ring, one by one. */
  lemma Steps(s: Entries)
    requires Ring(s)
    ensures Distinct(s) && forall i :: 0 <= i < |s| ==> s[i].next == After(s, i) && After(s, i).prev == s[i]
    ensures forall i, j :: 0 <= i < |s| && 0 <= j < |s| && After(s, i) == After(s, j) ==> i == j
  {
  }

  lemma Linked(s: Entries)
    requires Distinct(s) && forall i :: 0 <= i < |s| ==> s[i].next == After(s, i) && After(s, i).prev == s[i]
    ensures Ring(s)
  {
  }

  lemma Closed(s: Entries, k: nat)
    requires Distinct(s) && k < |s|
    requires |s| > 1 ==> Before(s, k).next == After(s, k) && After(s, k).prev == Before(s, k)
    requires forall i :: 0 <= i < |s| && i != k && s[i] != Before(s, k) ==> s[i].next == After(s, i) && After(s, i).prev == s[i]
    ensures Ring(Without(s, k))
  {
    var r := Without(s, k);
    forall i | 0 <= i < |r|
      ensures r[i].next == After(r, i) && After(r, i).prev == r[i]
    {
      var j := if i < k then i else i + 1;
      assert s[j] == r[i];
    }
  }

  /** list_del: the entry is left with NULL pointers. */
  method Del(entry: ListHead, ghost s: Entries, ghost k: nat)
    requires Ring(s) && k < |s| && entry == s[k]
    modifies s
    ensures Ring(Without(s, k)) && entry.next == null == entry.prev
  {
    NotIn(s, k);
    WithoutIn(s, k);
    hide Ring;
    CutOut(entry, s, k);
    entry.next := null;
    entry.prev := null;
  }

  /** list_del_init: the entry is left as a ring of its own. */
  method DelInit(entry: ListHead, ghost s: Entries, ghost k: nat)
    requires Ring(s) && k < |s| && entry == s[k]
    modifies s
    ensures Ring(Without(s, k)) && Ring([entry])
  {
    NotIn(s, k);
    WithoutIn(s, k);
    CutAndClose(entry, s, k);
  }

  method CutAndClose(entry: ListHead, ghost s: Entries, ghost k: nat)
    requires Ring(s) && k < |s| && entry == s[k] && entry in s
    requires entry !in Without(s, k) && forall x :: x in Without(s, k) ==> x in s
    modifies s
    ensures Ring(Without(s, k)) && Ring([entry])
  {
    hide Ring;
    CutOut(entry, s, k);
    entry.next, entry.prev := entry, entry;
    SelfRing(entry);
  }

  lemma SelfRing(x: ListHead)
    requires x.next == x == x.prev
    ensures Ring([x])
  {
  }

  lemma WithoutIn(s: Entries, k: nat)
    requires k < |s|
    ensures s[k] in s && forall x :: x in Without(s, k) ==> x in s
  {
  }

  lemma Others(s: Entries, k: nat)
    requires k < |s|
    ensures forall x :: x in s && x !in Without(s, k) ==> x == s[k]
  {
    var r := Without(s, k);
    forall i | 0 <= i < |s| && i != k
      ensures s[i] in r
    {
      assert r[if i < k then i else i - 1] == s[i];
    }
  }

  lemma NotIn(s: Entries, k: nat)
    requires Ring(s) && k < |s|
    ensures s[k] !in Without(s, k)
  {
  }

  // ---- Moving

  /** The first line of list_move: the ring that the entry goes to is not touched yet. */
  method CutFrom(list: ListHead, ghost s: Entries, ghost k: nat, ghost t: Entries)
    requires Ring(s) && k < |s| && list == s[k] && Ring(t) && Disjoint(s, t)
    modifies s
    ensures Ring(Without(s, k)) && Ring(t) && list !in t
    ensures forall x :: x in Without(s, k) ==> x != list && x !in t
  {
    NotIn(s, k);
    WithoutIn(s, k);
    Steps(t);
    assert forall i :: 0 <= i < |t| ==> t[i] in t && t[i] !in s;
    hide Ring;
    CutOut(list, s, k);
    Linked(t);
  }

  /** list_move, from one ring to the head of another. */
  method Move(list: ListHead, head: ListHead, ghost s: Entries, ghost k: nat, ghost t: Entries)
    requires Ring(s) && k < |s| && list == s[k] && Ring(t) && t != [] && t[0] == head && Disjoint(s, t)
    modifies s, t
    ensures Ring(Without(s, k)) && Ring([head, list] + t[1..])
  {
    hide Ring, Disjoint, Without;
    assert list in s;
    CutFrom(list, s, k, t);
    ghost var rest := Without(s, k);
    assert forall i :: 0 <= i < |rest| ==> rest[i] in rest;
    Add(list, head, t);
  }

  /** list_move_tail. */
  method MoveTail(list: ListHead, head: ListHead, ghost s: Entries, ghost k: nat, ghost t: Entries)
    requires Ring(s) && k < |s| && list == s[k] && Ring(t) && t != [] && t[0] == head && Disjoint(s, t)
    modifies s, t
    ensures Ring(Without(s, k)) && Ring(t + [list])
  {
    hide Ring, Disjoint, Without;
    assert list in s;
    CutFrom(list, s, k, t);
    ghost var rest := Without(s, k);
    assert forall i :: 0 <= i < |rest| ==> rest[i] in rest;
    AddTail(list, head, t);
  }

  /** list_move within one ring. */
  method MoveWithin(list: ListHead, head: ListHead, ghost s: Entries, ghost k: nat)
    requires Ring(s) && 0 < k < |s| && list == s[k] && s[0] == head
    modifies s
    ensures Ring([head, list] + Without(s, k)[1..])
  {
    NotIn(s, k);
    WithoutIn(s, k);
    CutOut(list, s, k);
    Add(list, head, Without(s, k));
  }

  // ---- Joining

  /** list_empty. */
  method Empty(head: ListHead, ghost s: Entries) returns (b: bool)
    requires Ring(s) && s != [] && s[0] == head
    ensures b <==> s == [head]
  {
    b := head.next == head;
    assert |s| > 1 ==> s[1] != s[0];
  }

  /** __list_splice. */
  method Join(list: ListHead, head: ListHead, ghost s: Entries, ghost t: Entries)
    requires Ring(s) && |s| > 1 && s[0] == list && Ring(t) && t != [] && t[0] == head && Disjoint(s, t)
    modifies s, t
    ensures Ring([head] + s[1..] + t[1..])
  {
    PrevIs(s, 0);
    Steps(s);
    Steps(t);
    Strangers(s, t);
    assert list in s && head in t && forall i :: 0 <= i < |s| ==> s[i] in s;
    assert After(t, 0) in t;
    hide *;
    var first := list.next;
    var last := list.prev;
    var at := head.next;
    LinkAround(first, head, last, at);
    Joined(s, t);
  }

  /** The entries whose pointers are rewritten are others than those whose pointers stay. */
  lemma Strangers(s: Entries, t: Entries)
    requires Distinct(s) && Distinct(t) && |s| > 1 && t != [] && Disjoint(s, t)
    ensures forall i :: 1 <= i < |s| - 1 ==> s[i] != s[|s| - 1] && s[i] != t[0] && After(s, i) != s[1] && After(s, i) != After(t, 0)
    ensures forall i :: 1 <= i < |t| ==> t[i] != t[0] && t[i] != s[|s| - 1] && After(t, i) != After(t, 0) && After(t, i) != s[1]
    ensures t[0] != s[|s| - 1] && s[1] == After(s, 0) != After(t, 0) && s[|s| - 1] == Before(s, 0)
  {
    assert s[0] in s && s[1] in s && s[|s| - 1] in s && t[0] in t && After(t, 0) in t;
    forall i | 1 <= i < |s| - 1
      ensures s[i] != s[|s| - 1] && s[i] != t[0] && After(s, i) != s[1] && After(s, i) != After(t, 0)
    {
      assert s[i] in s && After(s, i) == s[i + 1] && s[i + 1] in s;
    }
    forall i | 1 <= i < |t|
      ensures t[i] != t[0] && t[i] != s[|s| - 1] && After(t, i) != After(t, 0) && After(t, i) != s[1]
    {
      assert t[i] in t && After(t, i) in t;
    }
  }

  method LinkAround(first: ListHead, head: ListHead, last: ListHead, at: ListHead)
    requires head != last && first != at
    modifies first`prev, head`next, last`next, at`prev
    ensures first.prev == head && head.next == first && last.next == at && at.prev == last
  {
    first.prev := head;
    head.next := first;
    last.next := at;
    at.prev := last;
  }

  lemma Joined(s: Entries, t: Entries)
    requires Distinct(s) && Distinct(t) && Disjoint(s, t) && |s| > 1 && t != []
    requires t[0].next == s[1] && s[1].prev == t[0] && s[|s| - 1].next == After(t, 0) && After(t, 0).prev == s[|s| - 1]
    requires forall i :: 1 <= i < |s| - 1 ==> s[i].next == After(s, i) && After(s, i).prev == s[i]
    requires forall i :: 1 <= i < |t| ==> t[i].next == After(t, i) && After(t, i).prev == t[i]
    ensures Ring([t[0]] + s[1..] + t[1..])
  {
    var n := |s|;
    var r := [t[0]] + s[1..] + t[1..];
    assert forall i :: 1 <= i < n ==> r[i] == s[i];
    assert forall i :: 1 <= i < n - 1 ==> After(r, i) == After(s, i);
    assert forall i :: n <= i < |r| ==> r[i] == t[i - n + 1];
    JoinedDistinct(s, t, r);
    forall i | 0 <= i < |r|
      ensures r[i].next == After(r, i) && After(r, i).prev == r[i]
    {
      if i >= n { assert After(r, i) == After(t, i - n + 1); } else if i == n - 1 { assert After(r, i) == After(t, 0); }
    }
  }

  lemma JoinedDistinct(s: Entries, t: Entries, r: Entries)
    requires Distinct(s) && Distinct(t) && Disjoint(s, t) && |s| > 1 && t != [] && |r| == |s| + |t| - 1 && r[0] == t[0]
    requires forall i :: 1 <= i < |s| ==> r[i] == s[i]
    requires forall i :: |s| <= i < |r| ==> r[i] == t[i - |s| + 1]
    ensures Distinct(r)
  {
    forall i, j | 0 <= i < j < |r|
      ensures r[i] != r[j]
    {
      assert 1 <= i < |s| ==> r[i] in s;
      assert 1 <= j < |s| ==> r[j] in s;
      assert i == 0 || |s| <= i ==> r[i] in t;
      assert |s| <= j ==> r[j] in t;
    }
  }

  /** list_splice_init: the entries of one list are put after the head of another, in their order,
      and the list they came from is left empty. */
  method SpliceInit(list: ListHead, head: ListHead, ghost s: Entries, ghost t: Entries)
    requires Ring(s) && s != [] && s[0] == list && Ring(t) && t != [] && t[0] == head && Disjoint(s, t)
    modifies s, t
    ensures Ring([head] + s[1..] + t[1..]) && Ring([list])
  {
    var empty := Empty(list, s);
    if !empty {
      Join(list, head, s, t);
      assert forall x :: x in s[1..] ==> x != list;
      assert list in s;
      list.next, list.prev := list, list;
    } else {
      assert [head] + s[1..] + t[1..] == t;
    }
  }

  // ---- Loops

  /** list_for_each: the entries after the head, in order. */
  method ForEach(head: ListHead, ghost s: Entries) returns (visited: Entries)
    requires Ring(s) && s != [] && s[0] == head
    ensures visited == s[1..]
  {
    visited := [];
    var pos := head.next;
    ghost var i := 1;
    while pos != head
      invariant 1 <= i <= |s| && visited == s[1..i] && pos == (if i < |s| then s[i] else head)
      decreases |s| - i
    {
      visited := visited + [pos];
      pos := pos.next;
      i := i + 1;
    }
  }

  /** CListHead::FreeList: takes out the first entry until none is left, and leaves every one
      that was on the list as a ring of its own. */
  method FreeList(head: ListHead, ghost s: Entries)
    requires Ring(s) && s != [] && s[0] == head
    modifies s
    ensures forall x :: x in s ==> Ring([x])
  {
    hide Ring, Without;
    ghost var left: Entries, out: Entries := s, [];
    var empty := Empty(head, s);
    while !empty
      invariant Ring(left) && left != [] && left[0] == head && (empty <==> left == [head])
      invariant forall x :: x in left ==> x in s && x !in out
      invariant forall x :: x in out ==> Ring([x])
      invariant forall x :: x in s ==> x in left || x in out
      decreases |left|
    {
      assert forall i :: 0 <= i < |left| ==> left[i] in left && left[i] in s;
      left, out := ResetFirst(head, left, out);
      empty := Empty(head, left);
    }
  }

  /** One turn of FreeList. */
  method ResetFirst(head: ListHead, ghost left: Entries, ghost out: Entries) returns (ghost left': Entries, ghost out': Entries)
    requires Ring(left) && |left| > 1 && left[0] == head && forall x :: x in left ==> x !in out
    requires forall x :: x in out ==> Ring([x])
    modifies left
    ensures left' == Without(left, 1) && out' == out + [left[1]]
    ensures |left'| < |left| && left'[0] == head && Ring(left')
    ensures forall x :: x in out' ==> Ring([x])
    ensures forall x :: x in left ==> x in left' || x in out'
    ensures forall x :: x in left' ==> x in left && x !in out'
  {
    PrevIs(left, 0);
    Others(left, 1);
    WithoutIn(left, 1);
    NotIn(left, 1);
    assert left[1] in left;
    hide Ring;
    DelInit(head.next, left, 1);
    left', out' := Without(left, 1), out + [left[1]];
  }
}
