/** BatchAllocator (json_batchallocator.h): blocks of a fixed number of objects, cut one after
    another from batches, and given out again through a list that is kept in the free blocks
    themselves. */
module BatchAllocator {

  /** A pointer to an object: its batch and its place in that batch's buffer. */
  datatype Pointer = Null | At(batch: BatchInfo, index: nat)

  /** A batch; the first object of a free block holds the pointer to the next free block, and
      any other may hold what its owner put there. */
  class BatchInfo {
    var next_: BatchInfo?
    var used_: nat
    const end_: nat
    const buffer_: array<Pointer>

    /** allocateBatch: there is memory for `objectsPerPage` blocks, but the end is put behind as
        many objects. */
    constructor (objectPerAllocation: nat, objectsPerPage: nat)
      ensures next_ == null && used_ == 0 && end_ == objectsPerPage && fresh(buffer_)
      ensures buffer_.Length == objectPerAllocation * objectsPerPage
    {
      next_, used_, end_ := null, 0, objectsPerPage;
      buffer_ := new Pointer[objectPerAllocation * objectsPerPage](i => Null);
    }
  }

  // ---- Cutting a page into blocks

  /** What allocate does to a batch, as far as its test goes: a batch found full is left alone,
      of any other one a block is cut. */
  function CutOnce(used: nat, end: nat, n: nat): nat {
    if used == end then used else used + n
  }

  /** used_ after `k` calls for this batch. */
  function UsedAfter(end: nat, n: nat, k: nat): nat {
    if k == 0 then 0 else CutOnce(UsedAfter(end, n, k - 1), end, n)
  }

  lemma {:induction false} UsedIs(end: nat, n: nat, k: nat)
    requires n > 0 && k > 0
    ensures UsedAfter(end, n, k - 1) == end ==> UsedAfter(end, n, k) == end
    ensures UsedAfter(end, n, k) != end ==> UsedAfter(end, n, k) == k * n
    ensures UsedAfter(end, n, k) % n == 0
  {
    if k == 1 {
      assert UsedAfter(end, n, 0) == 0 && UsedAfter(end, n, 1) == CutOnce(0, end, n);
      assert n % n == 0 && 0 % n == 0;
    } else {
      UsedIs(end, n, k - 1);
      OneMore(UsedAfter(end, n, k - 1), n);
    }
  }

  /** Calls enough for the whole blocks of a page fill it, if they do so without a rest. */
  lemma FilledBy(end: nat, n: nat)
    requires n > 0 && end % n == 0
    ensures UsedAfter(end, n, end / n) == end
  {
    var q := end / n;
    Product(end, n);
    if q > 0 { UsedIs(end, n, q); }
  }

  /** With a rest, the next block reaches past the end that the test compares with. */
  lemma Overrun(end: nat, n: nat)
    requires n > 0 && end % n != 0
    ensures UsedAfter(end, n, end / n + 1) > end
  {
    var q := end / n;
    Product(end, n);
    UsedIs(end, n, q + 1);
    assert (q + 1) * n == q * n + n;
  }

  lemma Product(end: nat, n: nat)
    requires n > 0
    ensures end == end / n * n + end % n && end % n < n
  {
  }

  /** The test for a full batch is an equality: over the calls for a batch it is met exactly if the
      size of the blocks divides that of the page; if not, used_ passes end_. */
  lemma FullIsMet(end: nat, n: nat)
    requires n > 0
    ensures (exists k :: UsedAfter(end, n, k) == end) <==> end % n == 0
    ensures end % n != 0 ==> UsedAfter(end, n, end / n + 1) > end
  {
    hide UsedAfter;
    if k: nat :| UsedAfter(end, n, k) == end {
      if k > 0 { UsedIs(end, n, k); } else { NoneUsed(end, n); }
    }
    if end % n == 0 { FilledBy(end, n); } else { Overrun(end, n); }
  }

  lemma NoneUsed(end: nat, n: nat)
    requires n > 0
    ensures UsedAfter(end, n, 0) == 0 && 0 % n == 0
  {
  }

  /** The block that the `k`-th call for a batch cuts off it lies in its memory, which holds `end`
      blocks. */
  predicate Inside(end: nat, n: nat, k: nat)
    requires k > 0
  {
    UsedAfter(end, n, k - 1) != end ==> UsedAfter(end, n, k - 1) + n <= n * end
  }

  /** Every block that is cut lies in the memory if the size of the blocks divides that of the page;
      if not, exactly the first `end` blocks do. */
  lemma FirstOutside(end: nat, n: nat, k: nat)
    requires n > 0 && k > 0
    ensures Inside(end, n, k) <==> end % n == 0 || k <= end
  {
    hide UsedAfter;
    FullIsMet(end, n);
    var used := UsedAfter(end, n, k - 1);
    UsedIs(end, n, k);
    if k == 1 { NoneUsed(end, n); } else { UsedIs(end, n, k - 1); }
    if used != end {
      assert used == (k - 1) * n;
      if end % n == 0 {
        UsedBelow(end, n, k - 1);
        OneMore(used, n);
        Blocks(end, n);
      } else {
        assert used + n == k * n;
        Scale(k, end, n);
      }
    }
  }

  lemma Scale(k: nat, end: nat, n: nat)
    requires n > 0
    ensures k * n <= n * end <==> k <= end
  {
  }

  lemma OneBlock(n: nat, end: nat)
    requires end > 0
    ensures n <= n * end
  {
  }

  lemma Blocks(end: nat, n: nat)
    requires n > 0
    ensures end <= n * end
  {
  }

  lemma {:induction false} UsedBelow(end: nat, n: nat, k: nat)
    requires n > 0 && end % n == 0
    ensures UsedAfter(end, n, k) <= end && UsedAfter(end, n, k) % n == 0
  {
    if k == 0 {
      NoneUsed(end, n);
    } else {
      UsedBelow(end, n, k - 1);
      OneMore(UsedAfter(end, n, k - 1), n);
    }
  }

  /** Blocks of 8 on a page of 255: the test is never met, and the 256th block is the first that
      lies outside the memory. */
  lemma NeverFull()
    ensures forall k :: UsedAfter(255, 8, k) != 255
    ensures forall k :: k > 0 ==> (Inside(255, 8, k) <==> k < 256)
  {
    hide UsedAfter, Inside;
    FullIsMet(255, 8);
    forall k: nat | k > 0
      ensures Inside(255, 8, k) <==> k < 256
    {
      FirstOutside(255, 8, k);
    }
  }

  /** How far a batch may have been cut. */
  predicate Within(used: nat, end: nat, n: nat)
    requires n > 0
  {
    used % n == 0 && used <= n * end && (end % n == 0 ==> used <= end)
  }

  /** A batch that is not full has no room for a block exactly if the blocks do not divide the page
      and all its memory is used. */
  lemma RoomFor(used: nat, end: nat, n: nat)
    requires n > 0 && Within(used, end, n) && used != end
    ensures used + n <= n * end <==> end % n == 0 || used != n * end
  {
    OneMore(used, n);
    Blocks(end, n);
    Quotient(end, n);
    assert end * n == n * end;
  }

  /** Up to the end of a page that the blocks divide there is always room for a whole one. */
  lemma OneMore(used: nat, n: nat)
    requires n > 0 && used % n == 0
    ensures (used + n) % n == 0
    ensures forall end :: end % n == 0 && used < end ==> used + n <= end
    ensures forall i :: 0 <= i && i % n == 0 ==> (i + n <= used + n <==> i + n <= used || i == used)
  {
    var q := used / n;
    assert used == q * n;
    assert (used + n) % n == 0 by { assert used + n == (q + 1) * n; Quotient(q + 1, n); }
    forall end | end % n == 0 && used < end
      ensures used + n <= end
    {
      Gap(used, end, n);
    }
    forall i | 0 <= i && i % n == 0
      ensures i + n <= used + n <==> i + n <= used || i == used
    {
      if i < used { Gap(i, used, n); }
    }
  }

  lemma Quotient(q: nat, n: nat)
    requires n > 0
    ensures q * n % n == 0
  {
    var x := q * n;
    var d, r := x / n - q, x % n;
    assert d * n + r == 0 by { assert x == x / n * n + r; assert d * n == x / n * n - q * n; }
    assert d > 0 ==> d * n >= n;
    assert d < 0 ==> d * n <= 0 - n;
  }

  /** Different multiples are at least one block apart. */
  lemma Gap(i: nat, j: nat, n: nat)
    requires n > 0 && i % n == 0 && j % n == 0 && i < j
    ensures i + n <= j
  {
    var p, q := i / n, j / n;
    assert i == p * n && j == q * n;
    assert q <= p ==> q * n <= p * n;
    assert (p + 1) * n <= q * n;
  }

  lemma AllUsed(end: nat, n: nat)
    requires n > 0 && end > 0 && n * end == end
    ensures end % n == 0
  {
    assert n > 1 ==> n * end >= 2 * end;
    assert n == 1;
  }

  // ---- Lists

  function BatchAt(s: seq<BatchInfo>, i: nat): BatchInfo? { if i < |s| then s[i] else null }

  function PointerAt(s: seq<Pointer>, i: nat): Pointer { if i < |s| then s[i] else Null }

  ghost predicate Linked(s: seq<BatchInfo>)
    reads s`next_
  {
    (forall i :: 0 <= i < |s| ==> s[i].next_ == BatchAt(s, i + 1))
    && (forall i, j :: 0 <= i < j < |s| ==> s[i] != s[j] && s[i].buffer_ != s[j].buffer_)
  }

  /** Whole blocks are cut off each batch, inside its memory. */
  ghost predicate Cuts(s: seq<BatchInfo>, n: nat)
    requires n > 0
    reads s`used_
  {
    forall i :: 0 <= i < |s| ==>
      Within(s[i].used_, s[i].end_, n) && s[i].buffer_.Length == n * s[i].end_
  }

  ghost predicate Full(s: seq<BatchInfo>)
    reads s`used_
  {
    forall i :: 0 <= i < |s| ==> s[i].used_ == s[i].end_
  }

  /** A block that has been cut off a batch. */
  ghost predicate IsCut(p: Pointer, s: seq<BatchInfo>, n: nat)
    requires n > 0
    reads s`used_
  {
    p.At? && p.batch in s && p.index % n == 0 && p.index + n <= p.batch.used_
  }

  /** These are all the blocks that have been cut. */
  ghost predicate AllCut(ps: set<Pointer>, s: seq<BatchInfo>, n: nat)
    requires n > 0
    reads s`used_
  {
    (forall p :: p in ps ==> IsCut(p, s, n))
    && (forall b, i: nat :: b in s && IsCut(At(b, i), s, n) ==> At(b, i) in ps)
  }

  ghost function Elements(s: seq<Pointer>): set<Pointer> { set p | p in s }

  /** No object belongs to both blocks. */
  predicate Apart(p: Pointer, q: Pointer, n: nat) {
    p.At? && q.At? && (p.batch != q.batch || p.index + n <= q.index || q.index + n <= p.index)
  }

  lemma CutsApart(p: Pointer, q: Pointer, s: seq<BatchInfo>, n: nat)
    requires n > 0 && IsCut(p, s, n) && IsCut(q, s, n) && p != q
    ensures Apart(p, q, n)
  {
    if p.batch == q.batch {
      if p.index < q.index { Gap(p.index, q.index, n); } else { Gap(q.index, p.index, n); }
    }
  }

  /** The free blocks are linked through their first objects. */
  ghost predicate FreeList(free: seq<Pointer>, s: seq<BatchInfo>, n: nat)
    requires n > 0
    reads s`used_, set b | b in s :: b.buffer_
  {
    (forall i :: 0 <= i < |free| ==>
      IsCut(free[i], s, n) && free[i].index < free[i].batch.buffer_.Length
      && free[i].batch.buffer_[free[i].index] == PointerAt(free, i + 1))
    && (forall i, j :: 0 <= i < j < |free| ==> free[i] != free[j])
  }

  // ---- The allocator

  class Allocator {
    const objectPerAllocation: nat
    const objectsPerPage_: nat
    var batches_: BatchInfo
    var currentBatch_: BatchInfo?
    var freeHead_: Pointer
    ghost var chain: seq<BatchInfo>
    ghost var free: seq<Pointer>
    ghost var held: set<Pointer>

    ghost predicate Pages()
      reads this`batches_, this`chain, chain`next_, chain`used_
    {
      objectPerAllocation > 0 && objectsPerPage_ >= 16 && (forall b :: b in chain ==> b.end_ == 0 || b.end_ == objectsPerPage_)
      && |chain| > 0 && batches_ == chain[0] && Linked(chain) && Cuts(chain, objectPerAllocation)
    }

    /** The blocks cut so far are the ones held and the free ones; every batch but the first one,
        which is the current one, is full. */
    ghost predicate Valid()
      reads this, chain, set b | b in chain :: b.buffer_
    {
      Pages() && currentBatch_ == batches_ && Full(chain[1..])
      && freeHead_ == PointerAt(free, 0) && FreeList(free, chain, objectPerAllocation)
      && AllCut(held + Elements(free), chain, objectPerAllocation) && held !! Elements(free)
    }

    /** The next block that is cut lies inside the memory of its page. */
    ghost predicate Room()
      requires Valid()
      reads this, chain, set b | b in chain :: b.buffer_
    {
      currentBatch_.used_ != currentBatch_.end_ ==>
        currentBatch_.used_ + objectPerAllocation <= currentBatch_.buffer_.Length
    }

    /** There is none exactly if the blocks do not divide the page and all its memory is used. */
    lemma RoomUnlessUsed()
      requires Valid()
      ensures Room() <==> objectsPerPage_ % objectPerAllocation == 0
                          || currentBatch_.used_ != objectPerAllocation * objectsPerPage_
    {
      var b, n := currentBatch_, objectPerAllocation;
      assert b == chain[0] && b in chain && Within(b.used_, b.end_, n);
      assert n * objectsPerPage_ > 0 && n * 0 == 0;
      if b.used_ != b.end_ { RoomFor(b.used_, b.end_, n); }
      if b.used_ == n * objectsPerPage_ && b.used_ == b.end_ {
        AllUsed(objectsPerPage_, n);
      }
    }

    constructor (n: nat, objectsPerPage: nat)
      requires n > 0 && objectsPerPage >= 16
      ensures Valid() && held == {} && objectPerAllocation == n && objectsPerPage_ == objectsPerPage
      ensures fresh(chain) && forall b :: b in chain ==> fresh(b.buffer_)
    {
      objectPerAllocation, objectsPerPage_ := n, objectsPerPage;
      freeHead_ := Null;
      var batch := new BatchInfo(n, 0);
      batches_ := batch;
      currentBatch_ := batch;
      chain, free, held := [batch], [], {};
    }

    /** A new page at the head of the chain. */
    method AddBatch()
      requires Pages() && Full(chain)
      modifies this`batches_, this`currentBatch_, this`chain
      ensures Pages() && currentBatch_ == batches_ && Full(chain[1..])
      ensures chain == [batches_] + old(chain) && fresh(batches_) && fresh(batches_.buffer_)
      ensures batches_.used_ == 0 && batches_.end_ == objectsPerPage_ && objectPerAllocation <= batches_.buffer_.Length
    {
      hide Linked, Cuts;
      OneBlock(objectPerAllocation, objectsPerPage_);
      ghost var was := chain;
      var batch := new BatchInfo(objectPerAllocation, objectsPerPage_);
      currentBatch_ := batch;
      batch.next_ := batches_;
      batches_ := batch;
      chain := [batch] + chain;
      assert chain[1..] == was;
      LinkedHead(was, batch);
      CutsHead(was, batch, objectPerAllocation);
    }

    /** The part of allocate that finds a batch with room: all batches after the current one are
        full, so the search ends at the end of the chain and a new batch is put at its head. */
    method FindBatch()
      requires Valid() && Room()
      modifies this`batches_, this`currentBatch_, this`chain
      ensures Valid() && currentBatch_.used_ != currentBatch_.end_ && Room()
      ensures held == old(held) && free == old(free) && freeHead_ == old(freeHead_)
      ensures forall b :: b in chain && b !in old(chain) ==> fresh(b) && fresh(b.buffer_)
      ensures chain == if old(currentBatch_.used_ != currentBatch_.end_) then old(chain) else [batches_] + old(chain)
    {
      hide Linked, FreeList, AllCut, Cuts;
      if currentBatch_.used_ == currentBatch_.end_ {
        FullTail(chain);
        SkipFull();
        if currentBatch_ == null {
          ghost var was := chain;
          AddBatch();
          HeadAdded(was, batches_, free, held + Elements(free), objectPerAllocation);
        }
      }
    }

    /** The loop over full batches: here it runs to the end of the chain. */
    method SkipFull()
      requires Pages() && Full(chain) && currentBatch_ == batches_
      modifies this`currentBatch_
      ensures currentBatch_ == null
    {
      hide Linked, Cuts;
      ghost var i := 1;
      NextIs(chain, 0);
      currentBatch_ := currentBatch_.next_;
      while currentBatch_ != null && currentBatch_.used_ == currentBatch_.end_
        invariant 1 <= i <= |chain| && currentBatch_ == BatchAt(chain, i)
        decreases |chain| - i
      {
        NextIs(chain, i);
        currentBatch_ := currentBatch_.next_;
        i := i + 1;
      }
    }

    /** allocate: a block nobody holds, apart from every block that is held. */
    method Allocate() returns (block: Pointer)
      requires Valid() && (freeHead_ == Null ==> Room())
      modifies this, chain`used_
      ensures Valid() && block !in old(held) && held == old(held) + {block}
      ensures IsCut(block, chain, objectPerAllocation) && block.index + objectPerAllocation <= block.batch.buffer_.Length
      ensures objectsPerPage_ % objectPerAllocation == 0 ==> block.index + objectPerAllocation <= block.batch.end_
      ensures forall q :: q in old(held) ==> Apart(block, q, objectPerAllocation)
      ensures forall b :: b in chain && b !in old(chain) ==> fresh(b) && fresh(b.buffer_)
    {
      PositiveSize();
      hide Valid, Room, IsCut, Apart;
      if freeHead_ != Null {
        block := TakeFree();
      } else {
        FindBatch();
        block := CutNext();
      }
      HeldIs(block);
    }

    lemma PositiveSize()
      requires Valid()
      ensures objectPerAllocation > 0
    {
    }

    /** What is held is a block of a page, and shares no object with the others. */
    lemma HeldIs(block: Pointer)
      requires Valid() && block in held
      ensures objectPerAllocation > 0 && IsCut(block, chain, objectPerAllocation)
      ensures block.index + objectPerAllocation <= block.batch.buffer_.Length
      ensures objectsPerPage_ % objectPerAllocation == 0 ==> block.index + objectPerAllocation <= block.batch.end_
      ensures forall q :: q in held && q != block ==> Apart(block, q, objectPerAllocation)
    {
      hide FreeList, Full, Linked;
      assert block in held + Elements(free);
      InPage(block, chain, objectPerAllocation);
      forall q | q in held && q != block
        ensures Apart(block, q, objectPerAllocation)
      {
        assert q in held + Elements(free);
        CutsApart(block, q, chain, objectPerAllocation);
      }
    }

    /** The branch of allocate that takes the head of the free list. */
    method TakeFree() returns (block: Pointer)
      requires Valid() && freeHead_ != Null
      modifies this`freeHead_, this`free, this`held
      ensures Valid() && block !in old(held) && held == old(held) + {block}
    {
      hide Linked, Cuts, Full, FreeList, AllCut;
      FreeTail(free, chain, objectPerAllocation);
      block := freeHead_;
      freeHead_ := block.batch.buffer_[block.index];
      ghost var ps := held + Elements(free);
      free := free[1..];
      held := held + {block};
      assert held + Elements(free) == ps;
    }

    /** The branch of allocate that cuts a block off the current batch. */
    method CutNext() returns (block: Pointer)
      requires Valid() && currentBatch_.used_ != currentBatch_.end_ && Room()
      modifies this`held, currentBatch_`used_
      ensures Valid() && block !in old(held) && held == old(held) + {block}
      ensures block == At(currentBatch_, old(currentBatch_.used_))
      ensures currentBatch_.used_ == CutOnce(old(currentBatch_.used_), currentBatch_.end_, objectPerAllocation)
    {
      hide Linked, FreeList, AllCut;
      ghost var ps := held + Elements(free);
      OneMore(currentBatch_.used_, objectPerAllocation);
      assert currentBatch_ == chain[0] && forall i :: 0 < i < |chain| ==> chain[i] != currentBatch_ by {
        FirstOnly(chain);
      }
      assert forall i :: 0 <= i < |chain[1..]| ==> chain[1..][i] == chain[i + 1];
      block := CutBlock(currentBatch_, ps);
      assert block !in ps;
      held := held + {block};
      assert held + Elements(free) == ps + {block};
    }

    /** The pointer is moved on by one block: that is one block more. */
    method CutBlock(batch: BatchInfo, ghost ps: set<Pointer>) returns (block: Pointer)
      requires objectPerAllocation > 0 && batch in chain && batch.used_ % objectPerAllocation == 0
      requires AllCut(ps, chain, objectPerAllocation) && FreeList(free, chain, objectPerAllocation)
      modifies batch`used_
      ensures block == At(batch, old(batch.used_)) && batch.used_ == old(batch.used_) + objectPerAllocation
      ensures block !in ps && AllCut(ps + {block}, chain, objectPerAllocation)
      ensures FreeList(free, chain, objectPerAllocation)
    {
      OneMore(batch.used_, objectPerAllocation);
      block := At(batch, batch.used_);
      assert !IsCut(block, chain, objectPerAllocation);
      batch.used_ := batch.used_ + objectPerAllocation;
      forall b, i: nat | b in chain && IsCut(At(b, i), chain, objectPerAllocation)
        ensures At(b, i) in ps + {block}
      {
        assert At(b, i) == block || old(IsCut(At(b, i), chain, objectPerAllocation));
      }
      assert forall p :: p in ps ==> old(IsCut(p, chain, objectPerAllocation));
    }

    /** release: the block goes to the head of the free list. */
    method Release(block: Pointer)
      requires Valid() && block in held
      modifies this`freeHead_, this`free, this`held, block.batch.buffer_
      ensures Valid() && held == old(held) - {block} && free == [block] + old(free)
    {
      hide Full, Linked, AllCut, FreeList, Cuts;
      CutInside(block, held + Elements(free), chain, objectPerAllocation);
      CellsApart(block, free, chain, objectPerAllocation);
      LinkCell(block, freeHead_);
      ghost var ps := held + Elements(free);
      FreePush(block, free, chain, objectPerAllocation);
      freeHead_ := block;
      free := [block] + free;
      held := held - {block};
      assert held + Elements(free) == ps;
    }

    /** The pointer to the next free block is written into a block. */
    method LinkCell(block: Pointer, next: Pointer)
      requires objectPerAllocation > 0 && block.At? && block.index < block.batch.buffer_.Length
      requires FreeList(free, chain, objectPerAllocation)
      requires forall q :: q in free ==> q.At? && (q.batch.buffer_ != block.batch.buffer_ || q.index != block.index)
      modifies block.batch.buffer_
      ensures block.batch.buffer_[block.index] == next && FreeList(free, chain, objectPerAllocation)
    {
      hide IsCut, PointerAt;
      assert forall i :: 0 <= i < |free| ==> free[i] in free;
      block.batch.buffer_[block.index] := next;
      assert forall i :: 0 <= i < |free| ==>
        free[i].batch.buffer_[free[i].index] == old(free[i].batch.buffer_[free[i].index]);
    }

    /** What an owner puts into its own block leaves the allocator as it is. */
    method Write(block: Pointer, k: nat, value: Pointer)
      requires Valid() && block in held && k < objectPerAllocation
      modifies block.batch.buffer_
      ensures Valid()
    {
      hide Full, Linked, AllCut, Cuts, FreeList;
      CutInside(block, held + Elements(free), chain, objectPerAllocation);
      OtherCells(block, k, held, free, chain, objectPerAllocation);
      var cell := At(block.batch, block.index + k);
      LinkCell(cell, value);
    }
  }

  lemma FirstOnly(s: seq<BatchInfo>)
    requires Linked(s)
    ensures forall i :: 0 < i < |s| ==> s[i] != s[0]
  {
  }

  lemma FreeTail(free: seq<Pointer>, s: seq<BatchInfo>, n: nat)
    requires n > 0 && FreeList(free, s, n) && free != []
    ensures free[0].At? && free[0].index < free[0].batch.buffer_.Length && free[0] !in free[1..]
    ensures FreeList(free[1..], s, n) && free[0].batch.buffer_[free[0].index] == PointerAt(free[1..], 0)
    ensures Elements(free) == {free[0]} + Elements(free[1..])
  {
    hide IsCut;
    var r := free[1..];
    assert free == [free[0]] + r;
    assert IsCut(free[0], s, n) && PointerAt(free, 1) == PointerAt(r, 0);
    assert free[0].At? by { CutIsAt(free[0], s, n); }
    forall i | 0 <= i < |r|
      ensures IsCut(r[i], s, n) && r[i].At? && r[i].index < r[i].batch.buffer_.Length
      ensures r[i].batch.buffer_[r[i].index] == PointerAt(r, i + 1)
    {
      assert r[i] == free[i + 1] && PointerAt(r, i + 1) == PointerAt(free, i + 2);
      CutIsAt(free[i + 1], s, n);
    }
    assert forall i, j :: 0 <= i < j < |r| ==> r[i] == free[i + 1] && r[j] == free[j + 1];
  }

  lemma CutIsAt(p: Pointer, s: seq<BatchInfo>, n: nat)
    requires n > 0 && IsCut(p, s, n)
    ensures p.At? && p.batch in s
  {
  }

  /** A block lies inside its batch. */
  lemma CutInside(p: Pointer, ps: set<Pointer>, s: seq<BatchInfo>, n: nat)
    requires n > 0 && p in ps && AllCut(ps, s, n) && Cuts(s, n)
    ensures IsCut(p, s, n) && p.index + n <= p.batch.buffer_.Length
  {
    assert IsCut(p, s, n);
  }

  lemma InPage(p: Pointer, s: seq<BatchInfo>, n: nat)
    requires n > 0 && IsCut(p, s, n) && Cuts(s, n)
    ensures p.index + n <= p.batch.buffer_.Length && (p.batch.end_ % n == 0 ==> p.index + n <= p.batch.end_)
  {
    assert Within(p.batch.used_, p.batch.end_, n);
  }

  lemma CellsApart(p: Pointer, free: seq<Pointer>, s: seq<BatchInfo>, n: nat)
    requires n > 0 && FreeList(free, s, n) && Linked(s) && IsCut(p, s, n) && p !in free
    ensures forall q :: q in free ==> q.At? && (q.batch.buffer_ != p.batch.buffer_ || q.index != p.index)
  {
    forall q | q in free
      ensures q.At? && (q.batch.buffer_ != p.batch.buffer_ || q.index != p.index)
    {
      assert IsCut(q, s, n);
    }
  }

  /** The first object of a free block is no object of a held one. */
  lemma OtherCells(p: Pointer, k: nat, held: set<Pointer>, free: seq<Pointer>, s: seq<BatchInfo>, n: nat)
    requires k < n && FreeList(free, s, n) && Linked(s) && IsCut(p, s, n) && p in held && held !! Elements(free)
    ensures forall q :: q in free ==> q.At? && (q.batch.buffer_ != p.batch.buffer_ || q.index != p.index + k)
  {
    forall q | q in free
      ensures q.At? && (q.batch.buffer_ != p.batch.buffer_ || q.index != p.index + k)
    {
      assert IsCut(q, s, n) && q in Elements(free);
      CutsApart(p, q, s, n);
    }
  }

  lemma FreePush(p: Pointer, free: seq<Pointer>, s: seq<BatchInfo>, n: nat)
    requires n > 0 && FreeList(free, s, n) && IsCut(p, s, n) && p !in free && p.index < p.batch.buffer_.Length
    requires p.batch.buffer_[p.index] == PointerAt(free, 0)
    ensures FreeList([p] + free, s, n) && Elements([p] + free) == {p} + Elements(free)
  {
  }

  lemma FullTail(s: seq<BatchInfo>)
    requires s != [] && Full(s[1..]) && s[0].used_ == s[0].end_
    ensures Full(s)
  {
    assert forall i :: 1 <= i < |s| ==> s[1..][i - 1] == s[i];
  }

  lemma NextIs(s: seq<BatchInfo>, i: nat)
    requires Linked(s) && i < |s|
    ensures s[i].next_ == BatchAt(s, i + 1)
  {
  }

  lemma LinkedHead(s: seq<BatchInfo>, b: BatchInfo)
    requires Linked(s) && b !in s && b.next_ == BatchAt(s, 0) && forall x :: x in s ==> x.buffer_ != b.buffer_
    ensures Linked([b] + s)
  {
    var r := [b] + s;
    forall i | 0 <= i < |r|
      ensures r[i].next_ == BatchAt(r, i + 1)
    {
      assert i > 0 ==> r[i] == s[i - 1] && BatchAt(r, i + 1) == BatchAt(s, i);
    }
    forall i, j | 0 <= i < j < |r|
      ensures r[i] != r[j] && r[i].buffer_ != r[j].buffer_
    {
      assert r[j] == s[j - 1] && s[j - 1] in s;
      assert i > 0 ==> r[i] == s[i - 1];
    }
  }

  lemma CutsHead(s: seq<BatchInfo>, b: BatchInfo, n: nat)
    requires n > 0 && Cuts(s, n) && b.used_ == 0 && b.buffer_.Length == n * b.end_
    ensures Cuts([b] + s, n)
  {
  }

  /** A batch no block has been cut off adds no block. */
  lemma HeadAdded(s: seq<BatchInfo>, b: BatchInfo, free: seq<Pointer>, ps: set<Pointer>, n: nat)
    requires n > 0 && b.used_ == 0 && AllCut(ps, s, n) && FreeList(free, s, n)
    ensures AllCut(ps, [b] + s, n) && FreeList(free, [b] + s, n)
  {
  }
}
