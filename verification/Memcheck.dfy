/** memcheck.cpp: the ledger of live allocations, as slots on hash chains and a free list. Every
    call holds the lock from beginning to end, so a call is one step. */
module Memcheck {
  import opened MemcheckBook

  const HASHBASE := 4097

  /** The chain of a pointer. */
  function HashOf(p: Ptr): (n: nat)
    ensures n < HASHBASE
  {
    p % HASHBASE
  }

  datatype Location = Location(ret: string, ln: int)

  class Slot {
    var next: Slot?
    var ptr: Ptr
    var size: nat
    var loc: Location

    constructor ()
    {
      next, ptr, size, loc := null, NULL, 0, Location("", 0);
    }
  }

  // ---- Lists of slots

  function At(s: seq<Slot>, i: nat): Slot? { if i < |s| then s[i] else null }

  /** A list is linked from its head to NULL. */
  ghost predicate Linked(head: Slot?, s: seq<Slot>)
    reads s`next
  {
    head == At(s, 0) && forall i :: 0 <= i < |s| ==> s[i].next == At(s, i + 1)
  }

  /** A chain holds exactly the blocks that hash to it, each once. */
  ghost predicate ChainOf(n: nat, s: seq<Slot>, blocks: Blocks)
    reads s`ptr, s`size
  {
    (forall i :: 0 <= i < |s| ==> HashOf(s[i].ptr) == n && s[i].ptr in blocks && blocks[s[i].ptr] == s[i].size)
    && (forall i, j :: 0 <= i < j < |s| ==> s[i].ptr != s[j].ptr)
    && (forall p :: p in blocks && HashOf(p) == n ==> exists i :: 0 <= i < |s| && s[i].ptr == p)
  }

  // ---- Slots on lists

  /** The hash chains, and the free list after them. */
  type Lists = seq<seq<Slot>>
  const FREE := HASHBASE

  /** Every slot is at one place only. */
  ghost predicate Apart(lists: Lists) {
    forall n, i, m, j :: 0 <= n < |lists| && 0 <= i < |lists[n]| && 0 <= m < |lists| && 0 <= j < |lists[m]| ==>
      (lists[n][i] == lists[m][j] ==> n == m && i == j)
  }

  ghost function SlotsOf(lists: Lists): (r: set<Slot>)
    ensures forall n, s :: 0 <= n < |lists| && s in lists[n] ==> s in r
    ensures forall s :: s in r ==> exists n :: 0 <= n < |lists| && s in lists[n]
  {
    set n, s | 0 <= n < |lists| && s in lists[n] :: s
  }

  ghost function Without(s: seq<Slot>, i: nat): (r: seq<Slot>)
    requires i < |s|
    ensures |r| == |s| - 1
    ensures forall j :: 0 <= j < |r| ==> r[j] == s[if j < i then j else j + 1]
  {
    s[..i] + s[i + 1..]
  }

  /** A slot taken off its list is on none. */
  lemma CutApart(lists: Lists, n: nat, i: nat)
    requires Apart(lists) && n < |lists| && i < |lists[n]|
    ensures var r := lists[n := Without(lists[n], i)];
            Apart(r) && lists[n][i] !in SlotsOf(r) && SlotsOf(r) <= SlotsOf(lists)
  {
    var r := lists[n := Without(lists[n], i)];
    var x := lists[n][i];
    forall s | s in SlotsOf(r)
      ensures s in SlotsOf(lists) && s != x
    {
      var k :| 0 <= k < |r| && s in r[k];
      var j :| 0 <= j < |r[k]| && r[k][j] == s;
      var j' := if k == n && j >= i then j + 1 else j;
      assert lists[k][j'] == s;
    }
  }

  /** A slot that is on no list put at the front of one. */
  lemma PushedApart(lists: Lists, n: nat, s: Slot)
    requires Apart(lists) && n < |lists| && s !in SlotsOf(lists)
    ensures var r := lists[n := [s] + lists[n]];
            Apart(r) && SlotsOf(r) == SlotsOf(lists) + {s}
  {
    var r := lists[n := [s] + lists[n]];
    assert forall x, y :: 0 <= x < |lists| && 0 <= y < |lists[x]| ==> lists[x][y] in lists[x];
    forall x
      ensures x in SlotsOf(r) <==> x in SlotsOf(lists) || x == s
    {
      if x in SlotsOf(lists) {
        var k :| 0 <= k < |lists| && x in lists[k];
        assert x in r[k];
      }
      assert s in r[n];
    }
  }

  /** Slots of other lists are other slots. */
  lemma OnOneList(lists: Lists, n: nat, i: nat, m: nat)
    requires Apart(lists) && n < |lists| && i < |lists[n]| && m < |lists| && m != n
    ensures lists[n][i] !in lists[m]
  {
  }

  /** The chains together hold exactly the blocks. */
  ghost predicate Chained(lists: Lists, blocks: Blocks)
    requires |lists| == HASHBASE + 1
    reads SlotsOf(lists)`ptr, SlotsOf(lists)`size
  {
    forall n :: 0 <= n < HASHBASE ==> ChainOf(n, lists[n], blocks)
  }

  /** The loop of del_ptr that looks for a pointer on its chain, and for the slot before it. */
  method Search(head: Slot?, ghost chain: seq<Slot>, ptr: Ptr) returns (p: Slot?, ps: Slot?, ghost i: nat)
    requires Linked(head, chain)
    ensures p == null ==> forall j :: 0 <= j < |chain| ==> chain[j].ptr != ptr
    ensures p != null ==> i < |chain| && p == chain[i] && p.ptr == ptr && ps == (if i == 0 then null else chain[i - 1])
  {
    ps, p := null, head;
    i := 0;
    while p != null
      invariant 0 <= i <= |chain| && p == At(chain, i) && ps == (if i == 0 then null else chain[i - 1])
      invariant forall j :: 0 <= j < i ==> chain[j].ptr != ptr
      decreases |chain| - i
    {
      if p.ptr == ptr { return; }
      ps, p := p, p.next;
      i := i + 1;
    }
  }

  // ---- The ledger

  class Ledger {
    var freelist: Slot?
    const usedlist: array<Slot?>
    var totalsize: nat
    var maxsize: nat
    var bypass: int
    ghost var lists: Lists
    ghost var blocks: Blocks

    ghost function Head(n: nat): Slot?
      requires n < usedlist.Length || n == FREE
      reads this`freelist, usedlist
    {
      if n == FREE then freelist else usedlist[n]
    }

    /** The lists are linked, and no slot is on two of them. */
    ghost predicate Sound()
      reads this`freelist, this`lists, usedlist, SlotsOf(lists)`next
    {
      usedlist.Length == HASHBASE && |lists| == HASHBASE + 1 && Apart(lists)
      && (forall n :: 0 <= n <= HASHBASE ==> Linked(Head(n), lists[n]))
    }

    /** The chains are the blocks, and the sizes add up. */
    ghost predicate Valid()
      reads this, usedlist, SlotsOf(lists)
    {
      Sound()
      && Chained(lists, blocks)
      && NULL !in blocks && totalsize == Sum(blocks) && maxsize >= totalsize
    }

    ghost function Value(): Book
      reads this`blocks, this`maxsize
    {
      Book(blocks, maxsize)
    }

    constructor ()
      ensures Valid() && Value() == Book(map[], 0) && bypass == 0 && SlotsOf(lists) == {}
      ensures fresh(usedlist)
    {
      freelist, totalsize, maxsize, bypass := null, 0, 0, 0;
      lists, blocks := seq(HASHBASE + 1, i => []), map[];
      usedlist := new Slot?[HASHBASE](i => null);
    }

    /** A slot off the free list, or a new one. */
    method TakeSlot() returns (s: Slot)
      requires Sound()
      modifies this`freelist, this`lists
      ensures Sound() && s !in SlotsOf(lists) && |lists| == HASHBASE + 1
      ensures lists[..HASHBASE] == old(lists[..HASHBASE])
      ensures SlotsOf(lists) <= old(SlotsOf(lists))
      ensures s in old(SlotsOf(lists)) || fresh(s)
    {
      if freelist != null {
        s := freelist;
        assert Linked(Head(FREE), lists[FREE]);
        CutApart(lists, FREE, 0);
        freelist := s.next;
        ghost var was := lists;
        lists := lists[FREE := Without(lists[FREE], 0)];
        assert forall n :: 0 <= n < HASHBASE ==> lists[n] == was[n] && Linked(usedlist[n], was[n]);
      } else {
        s := new Slot();
      }
    }

    /** A slot put at the head of a chain. */
    method PushUsed(n: nat, s: Slot)
      requires Sound() && n < HASHBASE && s !in SlotsOf(lists)
      modifies this`lists, usedlist, s`next
      ensures Sound() && |lists| == HASHBASE + 1 && lists == old(lists[n := [s] + lists[n]])
      ensures SlotsOf(lists) == old(SlotsOf(lists)) + {s}
    {
      ghost var was := lists;
      PushedApart(lists, n, s);
      s.next := usedlist[n];
      usedlist[n] := s;
      lists := lists[n := [s] + lists[n]];
      forall m | 0 <= m <= HASHBASE
        ensures Linked(Head(m), lists[m])
      {
        assert s !in was[m];
        if m == n {
          assert forall i :: 0 <= i < |was[n]| ==> lists[n][i + 1] == was[n][i] && was[n][i] in was[n];
        }
      }
    }

    /** A slot put at the head of the free list. */
    method PushFree(s: Slot)
      requires Sound() && s !in SlotsOf(lists)
      modifies this`lists, this`freelist, s`next
      ensures Sound() && lists == old(lists[FREE := [s] + lists[FREE]])
      ensures SlotsOf(lists) == old(SlotsOf(lists)) + {s}
    {
      ghost var was := lists;
      PushedApart(lists, FREE, s);
      s.next := freelist;
      freelist := s;
      lists := lists[FREE := [s] + lists[FREE]];
      forall m | 0 <= m <= HASHBASE
        ensures Linked(Head(m), lists[m])
      {
        assert s !in was[m];
        if m == FREE {
          assert forall i :: 0 <= i < |was[m]| ==> lists[m][i + 1] == was[m][i] && was[m][i] in was[m];
        }
      }
    }

    /** The i-th slot taken out of a chain, through the pointer `ps` that leads to it: the head of
        the chain, or the next field of the slot before. */
    method CutUsed(n: nat, ps: Slot?, ghost i: nat) returns (s: Slot)
      requires Sound() && n < HASHBASE && i < |lists[n]| && ps == (if i == 0 then null else lists[n][i - 1])
      modifies this`lists, usedlist, (if ps == null then {} else {ps})`next
      ensures Sound() && s == old(lists[n][i]) && s !in SlotsOf(lists)
      ensures lists == old(lists[n := Without(lists[n], i)]) && SlotsOf(lists) <= old(SlotsOf(lists))
    {
      ghost var was := lists;
      CutApart(lists, n, i);
      assert Linked(Head(n), lists[n]);
      if ps == null {
        s := usedlist[n];
        usedlist[n] := s.next;
      } else {
        s := ps.next;
        ps.next := s.next;
      }
      lists := lists[n := Without(lists[n], i)];
      forall m | 0 <= m <= HASHBASE && m != n
        ensures Linked(Head(m), lists[m])
      {
        assert Linked(old(Head(m)), was[m]) || ps != null;
        if ps != null { OnOneList(was, n, i - 1, m); }
      }
      assert forall j :: 0 <= j < |was[n]| && j != i - 1 ==> was[n][j] != ps;
    }

    /** add_ptr. */
    method AddPtr(ptr: Ptr, size: nat, ret: string, ln: int)
      requires Valid() && ptr != NULL && ptr !in blocks
      modifies this, usedlist, SlotsOf(lists)
      ensures Valid() && Value() == Entered(old(Value()), ptr, size) && bypass == old(bypass)
      ensures fresh(SlotsOf(lists) - old(SlotsOf(lists)))
    {
      hide Valid, Sound, Chained, Sum, SlotsOf;
      Parts();
      SumWith(blocks, ptr, size);
      ghost var before := blocks;
      var s := TakeSlot();
      ghost var was := lists;
      ChainsSame(lists, old(lists), before);
      var n := HashOf(ptr);
      s.ptr := ptr;
      s.size := size;
      s.loc := Location(ret, ln);
      assert Chained(was, before);
      PushUsed(n, s);
      totalsize := totalsize + size;
      if totalsize > maxsize { maxsize := totalsize; }
      blocks := blocks[ptr := size];
      ChainsPushed(was, before, s);
      Whole();
    }

    /** del_ptr: a pointer that is not on the books changes nothing. */
    method DelPtr(ptr: Ptr)
      requires Valid()
      modifies this, usedlist, SlotsOf(lists)
      ensures Valid() && Value() == Struck(old(Value()), ptr) && bypass == old(bypass)
      ensures SlotsOf(lists) <= old(SlotsOf(lists))
    {
      hide Valid, SlotsOf, HashOf, At;
      var n := HashOf(ptr);
      ChainParts(n);
      ghost var i;
      var p, ps;
      p, ps, i := Search(usedlist[n], lists[n], ptr);
      if p != null {
        Strike(n, ptr, p, ps, i);
      } else {
        NotOnChain(ptr);
        NotThere(blocks, ptr);
      }
    }

    lemma ChainParts(n: nat)
      requires Valid() && n < HASHBASE
      ensures usedlist.Length == HASHBASE && |lists| == HASHBASE + 1 && Linked(usedlist[n], lists[n])
    {
      hide Apart, Chained, Sum, Linked;
      assert Linked(Head(n), lists[n]);
    }

    lemma NotOnChain(ptr: Ptr)
      requires Valid() && |lists| == HASHBASE + 1
      requires forall j :: 0 <= j < |lists[HashOf(ptr)]| ==> lists[HashOf(ptr)][j].ptr != ptr
      ensures ptr !in blocks
    {
      hide Sound, Sum;
      assert ChainOf(HashOf(ptr), lists[HashOf(ptr)], blocks);
    }

    /** A slot moved from its chain to the free list. */
    method FreeSlot(n: nat, ps: Slot?, ghost i: nat)
      requires Sound() && n < HASHBASE && i < |lists[n]| && ps == (if i == 0 then null else lists[n][i - 1])
      modifies this`lists, this`freelist, usedlist, SlotsOf(lists)`next
      ensures Sound() && |lists| == HASHBASE + 1 && SlotsOf(lists) <= old(SlotsOf(lists))
      ensures lists[..HASHBASE] == old(lists[n := Without(lists[n], i)][..HASHBASE])
    {
      hide Linked, Apart;
      PsIn(lists, n, i);
      var s := CutUsed(n, ps, i);
      PushFree(s);
    }

    /** The end of del_ptr, once the pointer is found. */
    method Strike(n: nat, ptr: Ptr, p: Slot, ps: Slot?, ghost i: nat)
      requires Valid() && n == HashOf(ptr) && i < |lists[n]| && p == lists[n][i] && p.ptr == ptr
      requires ps == (if i == 0 then null else lists[n][i - 1])
      modifies this, usedlist, SlotsOf(lists)
      ensures Valid() && Value() == Struck(old(Value()), ptr) && bypass == old(bypass)
      ensures SlotsOf(lists) <= old(SlotsOf(lists))
    {
      ghost var was, before := lists, blocks;
      hide Valid, Sound, Chained, Sum, Without, SlotsOf;
      Parts();
      StruckOne(was, before, n, i);
      SumWithout(blocks, ptr);
      totalsize := totalsize - p.size;
      blocks := blocks - {ptr};
      FreeSlot(n, ps, i);
      ChainsCut(lists, was, before, ptr, i);
      Whole();
    }

    // ---- The calls of the program; `p` is what the C library answered

    /** malloc_debug, operator new and strdup_debug. */
    method MallocDebug(p: Ptr, size: nat, fn: string, ln: int)
      requires Valid() && Legal(blocks, Malloc(p, size))
      modifies this, usedlist, SlotsOf(lists)
      ensures Valid() && bypass == old(bypass) && fresh(SlotsOf(lists) - old(SlotsOf(lists)))
      ensures Value() == if bypass == 0 then Booked(old(Value()), Malloc(p, size)) else old(Value())
    {
      hide Sound, Chained, Sum, SlotsOf;
      if bypass == 0 && p != NULL { AddPtr(p, size, fn, ln); }
    }

    method CallocDebug(p: Ptr, size: nat, nmem: nat, fn: string, ln: int)
      requires Valid() && Legal(blocks, Calloc(p, size, nmem))
      modifies this, usedlist, SlotsOf(lists)
      ensures Valid() && bypass == old(bypass) && fresh(SlotsOf(lists) - old(SlotsOf(lists)))
      ensures Value() == if bypass == 0 then Booked(old(Value()), Calloc(p, size, nmem)) else old(Value())
    {
      hide Sound, Chained, Sum, SlotsOf;
      if bypass == 0 && p != NULL { AddPtr(p, size * nmem, fn, ln); }
    }

    /** realloc_debug: the old block is struck before the new one is entered, also when they are
        at the same address. */
    method ReallocDebug(o: Ptr, p: Ptr, size: nat, fn: string, ln: int)
      requires Valid() && Legal(blocks, Realloc(o, p, size))
      modifies this, usedlist, SlotsOf(lists)
      ensures Valid() && bypass == old(bypass) && fresh(SlotsOf(lists) - old(SlotsOf(lists)))
      ensures Value() == if bypass == 0 then Booked(old(Value()), Realloc(o, p, size)) else old(Value())
    {
      hide Sound, Chained, Sum, SlotsOf;
      if bypass == 0 && p != NULL {
        DelPtr(o);
        AddPtr(p, size, fn, ln);
      }
    }

    /** free_debug and operator delete. */
    method FreeDebug(p: Ptr)
      requires Valid() && Legal(blocks, Free(p))
      modifies this, usedlist, SlotsOf(lists)
      ensures Valid() && bypass == old(bypass) && fresh(SlotsOf(lists) - old(SlotsOf(lists)))
      ensures Value() == if bypass == 0 then Booked(old(Value()), Free(p)) else old(Value())
    {
      hide Sound, Chained, Sum, SlotsOf;
      if bypass == 0 && p != NULL { DelPtr(p); }
    }

    /** Any run of calls: the books are the live blocks, totalsize is the sum of their sizes, and
        maxsize the most it has been. */
    method Run(calls: seq<Call>)
      requires Valid() && bypass == 0 && LegalRun(blocks, calls)
      modifies this, usedlist, SlotsOf(lists)
      ensures Valid() && blocks == Trace(old(blocks), calls)[|calls|] && totalsize == Sum(blocks)
      ensures maxsize == Peak(old(maxsize), Trace(old(blocks), calls))
    {
      hide Sound, Chained, Sum, SlotsOf, Booked, Legal, Live, Missed, Trace, Peak;
      BookedRun(Value(), calls);
      ghost var goal := BookedAll(Value(), calls);
      var i := 0;
      assert calls[0..] == calls;
      while i < |calls|
        invariant 0 <= i <= |calls| && Valid() && bypass == 0
        invariant fresh(SlotsOf(lists) - old(SlotsOf(lists)))
        invariant LegalRun(blocks, calls[i..]) && BookedAll(Value(), calls[i..]) == goal
      {
        var c := calls[i];
        assert calls[i..][0] == c && calls[i..][1..] == calls[i + 1..];
        BookedIsLive(Value(), c);
        if c.Malloc? {
          MallocDebug(c.p, c.size, "", 0);
        } else if c.Calloc? {
          CallocDebug(c.p, c.size, c.nmem, "", 0);
        } else if c.Realloc? {
          ReallocDebug(c.o, c.p, c.size, "", 0);
        } else {
          FreeDebug(c.p);
        }
        i := i + 1;
      }
    }

    lemma Parts()
      requires Valid()
      ensures Sound() && |lists| == HASHBASE + 1 && Chained(lists, blocks)
      ensures NULL !in blocks && totalsize == Sum(blocks) && maxsize >= totalsize
    {
      hide Sum, ChainOf;
    }

    lemma Whole()
      requires Sound() && |lists| == HASHBASE + 1 && Chained(lists, blocks)
      requires NULL !in blocks && totalsize == Sum(blocks) && maxsize >= totalsize
      ensures Valid()
    {
      hide Sum, ChainOf;
    }
  }

  /** Every chain struck of one block. */
  lemma ChainsCut(lists: Lists, was: Lists, blocks: Blocks, ptr: Ptr, i: nat)
    requires |was| == |lists| == HASHBASE + 1 && Chained(was, blocks)
    requires var n := HashOf(ptr); i < |was[n]| && was[n][i].ptr == ptr
    requires var n := HashOf(ptr); lists[..HASHBASE] == was[n := Without(was[n], i)][..HASHBASE]
    ensures Chained(lists, blocks - {ptr})
  {
    hide ChainOf, Without;
    var n := HashOf(ptr);
    ChainsAre(lists, was[n := Without(was[n], i)]);
    forall m | 0 <= m < HASHBASE
      ensures ChainOf(m, lists[m], blocks - {ptr})
    {
      if m == n { ChainCut(was[m], blocks, ptr, i); } else { ChainLeft(m, was[m], blocks, ptr); }
    }
  }

  lemma PsIn(lists: Lists, n: nat, i: nat)
    requires n < |lists| && i < |lists[n]|
    ensures lists[n][i] in SlotsOf(lists) && (i > 0 ==> lists[n][i - 1] in SlotsOf(lists))
  {
  }

  lemma ChainsAre(lists: Lists, was: Lists)
    requires |lists| == |was| == HASHBASE + 1 && lists[..HASHBASE] == was[..HASHBASE]
    ensures forall m :: 0 <= m < HASHBASE ==> lists[m] == was[m]
  {
    assert forall m :: 0 <= m < HASHBASE ==> lists[..HASHBASE][m] == lists[m] && was[..HASHBASE][m] == was[m];
  }

  lemma ChainsSame(lists: Lists, was: Lists, blocks: Blocks)
    requires |lists| == |was| == HASHBASE + 1 && lists[..HASHBASE] == was[..HASHBASE] && Chained(was, blocks)
    ensures Chained(lists, blocks)
  {
    hide ChainOf;
    ChainsAre(lists, was);
  }

  /** All chains once a block is entered. */
  lemma ChainsPushed(lists: Lists, blocks: Blocks, s: Slot)
    requires |lists| == HASHBASE + 1 && Chained(lists, blocks) && s.ptr !in blocks
    ensures var n := HashOf(s.ptr);
            Chained(lists[n := [s] + lists[n]], blocks[s.ptr := s.size])
  {
    hide ChainOf;
    var n := HashOf(s.ptr);
    var r := lists[n := [s] + lists[n]];
    forall m | 0 <= m < HASHBASE
      ensures ChainOf(m, r[m], blocks[s.ptr := s.size])
    {
      ChainPushed(m, lists[m], blocks, s);
    }
  }

  /** The chains once a block is entered at the head of the chain it hashes to. */
  lemma ChainPushed(m: nat, chain: seq<Slot>, blocks: Blocks, s: Slot)
    requires ChainOf(m, chain, blocks) && s.ptr !in blocks
    ensures ChainOf(m, if m == HashOf(s.ptr) then [s] + chain else chain, blocks[s.ptr := s.size])
  {
    hide HashOf;
    var more := blocks[s.ptr := s.size];
    if m == HashOf(s.ptr) {
      var r := [s] + chain;
      forall i | 0 <= i < |r|
        ensures HashOf(r[i].ptr) == m && r[i].ptr in more && more[r[i].ptr] == r[i].size
      {
        if i > 0 { assert r[i] == chain[i - 1]; }
      }
      forall i, j | 0 <= i < j < |r|
        ensures r[i].ptr != r[j].ptr
      {
        assert r[j] == chain[j - 1];
        if i > 0 { assert r[i] == chain[i - 1]; }
      }
      forall p | p in more && HashOf(p) == m
        ensures exists i :: 0 <= i < |r| && r[i].ptr == p
      {
        if p == s.ptr {
          assert r[0].ptr == p;
        } else {
          var i :| 0 <= i < |chain| && chain[i].ptr == p;
          assert r[i + 1].ptr == p;
        }
      }
    }
  }

  lemma StruckOne(lists: Lists, blocks: Blocks, n: nat, i: nat)
    requires |lists| == HASHBASE + 1 && Chained(lists, blocks) && n < HASHBASE && i < |lists[n]|
    ensures lists[n][i].ptr in blocks && blocks[lists[n][i].ptr] == lists[n][i].size
  {
    assert ChainOf(n, lists[n], blocks);
  }

  /** The chain a struck block was on. */
  lemma ChainCut(chain: seq<Slot>, blocks: Blocks, ptr: Ptr, i: nat)
    requires ChainOf(HashOf(ptr), chain, blocks) && i < |chain| && chain[i].ptr == ptr
    ensures ChainOf(HashOf(ptr), Without(chain, i), blocks - {ptr})
  {
    var r, m := Without(chain, i), HashOf(ptr);
    forall p | p in blocks - {ptr} && HashOf(p) == m
      ensures exists j :: 0 <= j < |r| && r[j].ptr == p
    {
      var j :| 0 <= j < |chain| && chain[j].ptr == p;
      assert r[if j < i then j else j - 1].ptr == p;
    }
  }

  /** Any other chain. */
  lemma ChainLeft(m: nat, chain: seq<Slot>, blocks: Blocks, ptr: Ptr)
    requires ChainOf(m, chain, blocks) && m != HashOf(ptr)
    ensures ChainOf(m, chain, blocks - {ptr})
  {
  }
}
