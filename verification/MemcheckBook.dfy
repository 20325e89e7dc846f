/** What the allocation ledger of memcheck.cpp stands for: the live blocks with their sizes, and
    the most bytes that were live at one time. */
module MemcheckBook {

  type Ptr = nat
  const NULL: Ptr := 0

  type Blocks = map<Ptr, nat>

  // ---- The bytes of all blocks

  ghost function Sum(m: Blocks): (n: nat)
    decreases |m|
  {
    if m == map[] then 0
    else
      var p :| p in m;
      m[p] + Sum(m - {p})
  }

  /** Whichever block is taken away first. */
  lemma {:induction false} SumWithout(m: Blocks, p: Ptr)
    requires p in m
    ensures Sum(m) == m[p] + Sum(m - {p})
    decreases |m|
  {
    var q :| q in m && Sum(m) == m[q] + Sum(m - {q});
    if q != p {
      SumWithout(m - {q}, p);
      SumWithout(m - {p}, q);
      assert m - {q} - {p} == m - {p} - {q};
    }
  }

  lemma SumWith(m: Blocks, p: Ptr, size: nat)
    requires p !in m
    ensures Sum(m[p := size]) == Sum(m) + size
  {
    SumWithout(m[p := size], p);
    assert m[p := size] - {p} == m;
  }

  lemma NotThere(m: Blocks, p: Ptr)
    requires p !in m
    ensures m - {p} == m
  {
  }

  // ---- The ledger as a value

  /** The blocks on the books, and the peak of their bytes. */
  datatype Book = Book(blocks: Blocks, peak: nat)

  ghost function Entered(b: Book, p: Ptr, size: nat): (r: Book)
    requires p !in b.blocks
  {
    var blocks := b.blocks[p := size];
    Book(blocks, if Sum(blocks) > b.peak then Sum(blocks) else b.peak)
  }

  ghost function Struck(b: Book, p: Ptr): (r: Book) { Book(b.blocks - {p}, b.peak) }

  // ---- Calls of the program, with what the allocator answered

  datatype Call =
    | Malloc(p: Ptr, size: nat)       // also operator new and strdup
    | Calloc(p: Ptr, size: nat, nmem: nat)
    | Realloc(o: Ptr, p: Ptr, size: nat)
    | Free(p: Ptr)                    // also operator delete

  /** What the C library holds to: a new block is at an address that is not live, and only a live
      block is resized or freed. */
  ghost predicate Legal(live: Blocks, c: Call) {
    match c
    case Malloc(p, _) => p != NULL ==> p !in live
    case Calloc(p, _, _) => p != NULL ==> p !in live
    case Realloc(o, p, _) => (o != NULL ==> o in live) && (p != NULL && p != o ==> p !in live)
    case Free(p) => p != NULL ==> p in live
  }

  /** The live blocks after a call. A failed realloc leaves the old block, except that one to
      size 0 frees it. */
  ghost function Live(live: Blocks, c: Call): (r: Blocks) {
    match c
    case Malloc(p, size) => if p == NULL then live else live[p := size]
    case Calloc(p, size, nmem) => if p == NULL then live else live[p := size * nmem]
    case Realloc(o, p, size) =>
      if p != NULL then (live - {o})[p := size] else if size == 0 then live - {o} else live
    case Free(p) => live - {p}
  }

  /** The one call the ledger misses: realloc to size 0 that frees the block and answers NULL. */
  predicate Missed(c: Call) { c.Realloc? && c.p == NULL && c.size == 0 && c.o != NULL }

  /** What a call does to the ledger. */
  ghost function Booked(b: Book, c: Call): (r: Book)
    requires Legal(b.blocks, c) && NULL !in b.blocks
    ensures NULL !in r.blocks
  {
    match c
    case Malloc(p, size) => if p == NULL then b else Entered(b, p, size)
    case Calloc(p, size, nmem) => if p == NULL then b else Entered(b, p, size * nmem)
    case Realloc(o, p, size) => if p == NULL then b else Entered(Struck(b, o), p, size)
    case Free(p) => if p == NULL then b else Struck(b, p)
  }

  /** The books are the live blocks after every call but the missed one. */
  lemma BookedIsLive(b: Book, c: Call)
    requires Legal(b.blocks, c) && NULL !in b.blocks
    ensures Booked(b, c).blocks == Live(b.blocks, c) <==> !Missed(c)
  {
    hide Sum;
    if c.Realloc? && c.p == NULL && c.size == 0 && c.o != NULL {
      assert c.o in b.blocks && c.o !in Live(b.blocks, c);
    }
  }

  // ---- Runs

  /** The live blocks at the start and after each call. */
  ghost function Trace(live: Blocks, calls: seq<Call>): (r: seq<Blocks>)
    ensures |r| == |calls| + 1 && r[0] == live
    decreases |calls|
  {
    if calls == [] then [live] else [live] + Trace(Live(live, calls[0]), calls[1..])
  }

  ghost predicate LegalRun(live: Blocks, calls: seq<Call>)
    decreases |calls|
  {
    calls == [] || (Legal(live, calls[0]) && !Missed(calls[0]) && LegalRun(Live(live, calls[0]), calls[1..]))
  }

  ghost function BookedAll(b: Book, calls: seq<Call>): (r: Book)
    requires NULL !in b.blocks && LegalRun(b.blocks, calls)
    decreases |calls|
  {
    if calls == [] then b
    else
      BookedIsLive(b, calls[0]);
      BookedAll(Booked(b, calls[0]), calls[1..])
  }

  /** The greatest sum of the states of a run, from a given one up. */
  ghost function Peak(least: nat, states: seq<Blocks>): (n: nat)
    decreases |states|
  {
    if states == [] then least
    else Peak(if Sum(states[0]) > least then Sum(states[0]) else least, states[1..])
  }

  lemma {:induction false} PeakIsMost(least: nat, states: seq<Blocks>)
    ensures Peak(least, states) >= least
    ensures forall i :: 0 <= i < |states| ==> Sum(states[i]) <= Peak(least, states)
    ensures Peak(least, states) == least || exists i :: 0 <= i < |states| && Sum(states[i]) == Peak(least, states)
    decreases |states|
  {
    hide Sum;
    if states != [] {
      var next := if Sum(states[0]) > least then Sum(states[0]) else least;
      PeakIsMost(next, states[1..]);
      assert forall i :: 0 < i < |states| ==> states[1..][i - 1] == states[i];
      assert Peak(next, states[1..]) >= Sum(states[0]);
    }
  }

  /** Over a whole run the books are the live blocks, and the peak is the greatest sum that any
      state of the run reached. */
  lemma {:induction false} BookedRun(b: Book, calls: seq<Call>)
    requires NULL !in b.blocks && LegalRun(b.blocks, calls) && b.peak >= Sum(b.blocks)
    ensures BookedAll(b, calls).blocks == Trace(b.blocks, calls)[|calls|]
    ensures BookedAll(b, calls).peak == Peak(b.peak, Trace(b.blocks, calls))
    decreases |calls|
  {
    hide Sum, Live, Legal;
    if calls == [] {
      PeakOne(b.peak, b.blocks);
    } else {
      var c := calls[0];
      var next := Booked(b, c);
      BookedIsLive(b, c);
      PeakNext(b, c);
      BookedRun(next, calls[1..]);
      PeakStays(b.peak, next.peak, b.blocks, Trace(next.blocks, calls[1..]));
    }
  }

  lemma PeakOne(least: nat, m: Blocks)
    requires least >= Sum(m)
    ensures Peak(least, [m]) == least
  {
    hide Sum;
  }

  lemma PeakNext(b: Book, c: Call)
    requires Legal(b.blocks, c) && NULL !in b.blocks && !Missed(c) && b.peak >= Sum(b.blocks)
    ensures var next := Booked(b, c);
            next.peak == if Sum(next.blocks) > b.peak then Sum(next.blocks) else b.peak
  {
    hide Sum;
    if c.Free? && c.p != NULL { SumWithout(b.blocks, c.p); }
  }

  lemma PeakStays(least: nat, next: nat, m: Blocks, states: seq<Blocks>)
    requires least >= Sum(m) && states != [] && next == if Sum(states[0]) > least then Sum(states[0]) else least
    ensures Peak(least, [m] + states) == Peak(next, states)
  {
    hide Sum;
    assert ([m] + states)[1..] == states;
  }
}
