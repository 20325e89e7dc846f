/** How x_ParseElem builds the position array: children linked one after the other, and
    one round of its search for a tag read off the whole document. */
module MarkupBuild {
  import opened MarkupText
  import opened MarkupGrammar
  import opened MarkupTree
  import opened MarkupAdjust
  import opened MarkupEdits
  import opened MarkupPlaces
  import opened MarkupParse

  /** What one call of x_ParseElem reads: an element after some text, or the text before
      an end tag. */
  datatype NextRead = NextElem(at: nat, x: Forest, used: nat, free: nat) | NextClose(at: nat) | NextBad(fault: Fault) | NextHang

  function ReadNext(s: string, free: nat): (r: NextRead)
    ensures r.NextElem? ==>
      !r.x.End? && r.x.slot == free && r.x.gap == "" && r.x.rest == End("") && r.at + r.used <= |s| && 0 < r.used && free < r.free
    ensures r.NextClose? ==> r.at < |s|
  {
    var h := Scan(s);
    if h.Stuck? then NextHang
    else if h.Fails? then NextBad(h.fault)
    else if h.Closes? then NextClose(h.at)
    else
      var x := ReadElem(s[h.at..], free);
      if x.Hang? then NextHang
      else if x.Bad? then NextBad(x.fault)
      else NextElem(h.at, x.f, x.used, x.free)
  }

  lemma ReadNextCases(s: string, free: nat)
    ensures var r, h := ReadNext(s, free), Scan(s);
      && (h.Stuck? ==> r == NextHang)
      && (h.Fails? ==> r == NextBad(h.fault))
      && (h.Closes? ==> r == NextClose(h.at))
      && (h.Opens? ==>
            var x := ReadElem(s[h.at..], free);
            r == (if x.Hang? then NextHang else if x.Bad? then NextBad(x.fault) else NextElem(h.at, x.f, x.used, x.free)))
  {
    hide Scan, ReadElem;
  }

  lemma NextHangs(s: string, free: nat)
    ensures ReadNext(s, free).NextHang? <==> Endless(s)
  {
    hide Scan, ReadElem, Endless;
    ReadNextCases(s, free);
    ElementHangs(s, free);
  }

  /** The loop over the children, one call of x_ParseElem at a time. */
  lemma ReadKidsNext(s: string, free: nat)
    ensures var r, k := ReadNext(s, free), ReadKids(s, free);
      && (r.NextHang? ==> k == Hang)
      && (r.NextBad? ==> k == Bad(r.fault))
      && (r.NextClose? ==> k == Read(End(s[..r.at]), r.at, free))
      && (r.NextElem? ==>
            var rest := ReadKids(s[r.at + r.used..], r.free);
            k == (if rest.Read? then Read(Attach(r.x, s[..r.at], rest.f), r.at + r.used + rest.used, rest.free) else rest))
  {
    hide Scan, ReadElem, ReadKids;
    ReadKidsCases(s, free);
  }

  // ---- Children one after the other

  /** The siblings `f` followed by `g`. */
  function Then(f: Forest, g: Forest): Forest {
    match f
    case End(_) => g
    case EmptyElem(slot, gap, start, rest) => EmptyElem(slot, gap, start, Then(rest, g))
    case FullElem(slot, gap, start, kids, close, rest) => FullElem(slot, gap, start, kids, close, Then(rest, g))
  }

  /** No text behind the last sibling. */
  predicate NoTail(f: Forest) {
    if f.End? then f.gap == "" else NoTail(f.rest)
  }

  lemma {:induction false} ThenThen(f: Forest, x: Forest, gap: string, g: Forest)
    requires !x.End?
    ensures Then(f, Attach(x, gap, g)) == Then(Then(f, Attach(x, gap, End(""))), g)
  {
    if !f.End? {
      ThenThen(f.rest, x, gap, g);
    }
  }

  lemma {:induction false} ThenOrder(f: Forest, g: Forest)
    ensures Order(Then(f, g)) == Order(f) + Order(g)
  {
    hide Attach;
    if !f.End? {
      ThenOrder(f.rest, g);
      ThenHead(f, g);
      ElemOrder(f);
      ElemOrder(Then(f, g));
      assert ([f.slot] + Order(Kids(f))) + (Order(f.rest) + Order(g)) == ([f.slot] + Order(Kids(f)) + Order(f.rest)) + Order(g);
    }
  }

  lemma {:induction false} ThenSlots(f: Forest, g: Forest)
    ensures Slots(Then(f, g)) == Slots(f) + Slots(g)
    ensures NoTail(g) ==> NoTail(Then(f, g))
  {
    if !f.End? { ThenSlots(f.rest, g); }
  }

  lemma ThenHead(f: Forest, g: Forest)
    ensures First(Then(f, g)) == if f.End? then First(g) else First(f)
    ensures f.End? ==> Then(f, g) == g
    ensures !f.End? ==> Then(f, g) == Attach(f, f.gap, Then(f.rest, g))
  {
  }

  lemma {:induction false} ThenPlaced(a: seq<ElemPos>, f: Forest, g: Forest, base: int)
    requires NoTail(f) && Placed(a, f, base) && Placed(a, g, base + |Text(f)|)
    ensures Placed(a, Then(f, g), base) && |Text(Then(f, g))| == |Text(f)| + |Text(g)|
  {
    hide EmptyAt, FullAt;
    match f
    case End(_) =>
    case EmptyElem(_, gap, start, rest) =>
      ThenPlaced(a, rest, g, base + |gap| + |start|);
    case FullElem(_, gap, start, kids, close, rest) =>
      ThenPlaced(a, rest, g, base + |gap| + |start| + |Text(kids)| + |close|);
  }

  /** Linking `g` in behind the last of the siblings. */
  lemma {:induction false} ThenLinked(a: seq<ElemPos>, b: seq<ElemPos>, f: Forest, g: Forest, p: nat)
    requires Linked(a, f, p) && Linked(a, g, p) && Distinct(Order(f)) && Disjoint(Order(f), Order(g))
    requires var last := Last(Slots(f));
      && last < |a| == |b|
      && (forall s :: 0 <= s < |a| && s != last ==> b[s] == a[s])
      && (last != 0 ==> b[last] == a[last].(next := First(g)))
      && (last == 0 ==> b == a)
    ensures Linked(b, Then(f, g), p)
  {
    hide Then, Linked, Slots, Order;
    ThenHead(f, g);
    if f.End? {
      NoSlots(f);
    } else {
      ThenHead(f.rest, g);
      LinkedFull(a, f, p);
      var last := Last(Slots(f));
      ElemOrder(f);
      DistinctParts([f.slot] + Order(Kids(f)), Order(f.rest));
      DistinctParts([f.slot], Order(Kids(f)));
      assert f.slot in [f.slot] && f.slot in [f.slot] + Order(Kids(f)) && f.slot in Order(f);
      if f.rest.End? {
        assert last == f.slot by { assert Slots(f) == [f.slot] + Slots(f.rest) && Slots(f.rest) == [] by { SlotsOnce(f); SlotsOnce(f.rest); } }
        LinkedFrame(a, b, Kids(f), f.slot);
        LinkedFrame(a, b, g, p);
      } else {
        LastOfRest(f);
        LinkedFrame(a, b, Kids(f), f.slot);
        ThenLinked(a, b, f.rest, g, p);
      }
      LinkedOnce(b, Then(f, g), p, f);
    }
  }

  lemma NoSlots(f: Forest)
    requires f.End?
    ensures Last(Slots(f)) == 0
  {
  }

  lemma LinkedFull(a: seq<ElemPos>, f: Forest, p: nat)
    requires !f.End? && Linked(a, f, p)
    ensures 0 < f.slot < |a| && a[f.slot].parent == p && a[f.slot].next == First(f.rest) && a[f.slot].child == First(Kids(f))
    ensures Linked(a, Kids(f), f.slot) && Linked(a, f.rest, p)
  {
  }

  lemma LastOfRest(f: Forest)
    requires !f.End? && !f.rest.End? && Distinct(Order(f))
    ensures Last(Slots(f)) == Last(Slots(f.rest)) && Last(Slots(f)) in Order(f.rest)
  {
    ElemOrder(f);
    DistinctParts([f.slot] + Order(Kids(f)), Order(f.rest));
    SlotsDistinct(f.rest);
    assert Slots(f.rest) != [];
    assert Last(Slots(f.rest)) in Slots(f.rest);
  }

  lemma LinkedOnce(b: seq<ElemPos>, y: Forest, p: nat, f: Forest)
    requires !y.End? && !f.End? && y.slot == f.slot && Kids(y) == Kids(f) && (y.FullElem? <==> f.FullElem?)
    requires 0 < y.slot < |b| && b[y.slot].parent == p && b[y.slot].next == First(y.rest)
    requires b[y.slot].child == First(Kids(y)) && Linked(b, Kids(y), y.slot) && Linked(b, y.rest, p)
    ensures Linked(b, y, p)
  {
  }

  lemma {:induction false} ThenEnd(a: seq<ElemPos>, f: Forest, gap: string, p: nat)
    requires Linked(a, f, p)
    ensures Linked(a, Then(f, End(gap)), p)
  {
    if !f.End? {
      ThenEnd(a, f.rest, gap, p);
      assert First(Then(f.rest, End(gap))) == First(f.rest);
    }
  }

  lemma AttachFacts(a: seq<ElemPos>, x: Forest, gap: string, base: int, p: nat)
    requires !x.End? && x.gap == "" && x.rest == End("")
    ensures Linked(a, x, p) <==> Linked(a, Attach(x, gap, End("")), p)
    ensures Placed(a, x, base + |gap|) <==> Placed(a, Attach(x, gap, End("")), base)
    ensures |Text(Attach(x, gap, End("")))| == |gap| + |Text(x)|
    ensures Order(Attach(x, gap, End(""))) == Order(x) && Slots(Attach(x, gap, End(""))) == [x.slot] && NoTail(Attach(x, gap, End("")))
  {
    hide Linked, Placed, Text, Order, Slots;
    AttachPlaced(a, x, gap, base, p);
    AttachText(x, gap, End(""));
    AttachOrder(x, gap, End(""));
    AttachSlots(x, gap);
  }

  lemma AttachPlaced(a: seq<ElemPos>, x: Forest, gap: string, base: int, p: nat)
    requires !x.End? && x.gap == "" && x.rest == End("")
    ensures Linked(a, x, p) <==> Linked(a, Attach(x, gap, End("")), p)
    ensures Placed(a, x, base + |gap|) <==> Placed(a, Attach(x, gap, End("")), base)
  {
    hide Text, EmptyAt, FullAt;
  }

  lemma AttachSlots(x: Forest, gap: string)
    requires !x.End?
    ensures Order(x) + Order(End("")) == Order(x) && Text(End("")) == ""
    ensures Slots(Attach(x, gap, End(""))) == [x.slot] && NoTail(Attach(x, gap, End("")))
  {
    assert Order(End("")) == [];
  }

  // ---- One round of the search, in offsets of the document

  lemma RoundAt(doc: string, at: nat)
    requires at <= |doc|
    ensures var j := at + FirstOf(doc[at..], {'<'});
      && j <= |doc| && (j < |doc| ==> doc[j] == '<')
      && HeadStep(doc[at..]) == (if j == |doc| then Fail(j - at, ElementTagNotFound) else TagStep(doc[j..]).Shift(j - at))
  {
    hide FirstOf, TagStep;
    assert doc[at..][FirstOf(doc[at..], {'<'})..] == doc[at + FirstOf(doc[at..], {'<'})..];
  }

  /** One round of the search for a tag that began at `pos`. */
  lemma SearchRound(doc: string, pos: nat, at: nat, goal: ScanResult)
    requires pos <= at <= |doc| && goal == Scan(doc[at..]).Shift(at - pos)
    ensures var j := at + FirstOf(doc[at..], {'<'});
      && j <= |doc| && (j < |doc| ==> doc[j] == '<')
      && (j == |doc| ==> goal.Fails? && goal.fault == ElementTagNotFound)
      && (j < |doc| ==>
            var h := TagStep(doc[j..]);
            && (h.Fail? ==> goal.Fails? && goal.fault == h.fault)
            && (h.Open? ==> goal == Opens(j - pos))
            && (h.Close? ==> goal == Closes(j - pos))
            && (h.Again? ==>
                  && j + h.next <= |doc|
                  && if j + h.next == at then goal == Stuck else goal == Scan(doc[j + h.next..]).Shift(j + h.next - pos)))
  {
    hide Scan, FirstOf, TagStep, HeadStep;
    RoundAt(doc, at);
    ScanOnce(doc[at..]);
    var j := at + FirstOf(doc[at..], {'<'});
    if j < |doc| && TagStep(doc[j..]).Again? {
      var n := TagStep(doc[j..]).next;
      assert doc[at..][j + n - at..] == doc[j + n..];
      TagOpensAtOnce(doc[j..]);
    } else if j < |doc| {
      TagOpensAtOnce(doc[j..]);
    }
  }

  lemma TagOpensAtOnce(t: string)
    requires t != "" && t[0] == '<'
    ensures TagStep(t).Again? ==> TagStep(t).next <= |t|
    ensures !TagStep(t).Again? ==> TagStep(t).at == 0
  {
    hide FindToken, ParseNode;
  }

  lemma TagAt(doc: string, j: nat)
    requires j < |doc| && doc[j] == '<'
    ensures var t, n := FindToken(doc[j + 1..]).Shift(j + 1), ParseNode(doc[j..]);
      && (t.found && !t.isString ==> t.l < |doc|)
      && TagStep(doc[j..]) ==
           (if !t.found then Fail(0, AbruptEnd)
            else if t.isString then Fail(0, TagStartsWithQuote)
            else if doc[t.l] == '?' || doc[t.l] == '!' then (if n.Some? then Again(n.value.next) else Fail(0, InvalidNode))
            else if doc[t.l] == '/' then Close(0)
            else Open(0))
  {
    hide FindToken, ParseNode;
    assert doc[j..][1..] == doc[j + 1..];
    var t := FindToken(doc[j + 1..]);
    if t.found && !t.isString { assert doc[j + 1..][t.l] == doc[j + 1 + t.l]; }
  }

  /** The name and the end of a start tag, in offsets of the document. */
  lemma StartAt(doc: string, j: nat)
    requires j < |doc|
    ensures var t, k := doc[j..], FindToken(doc[j + 1..]).Shift(j + 1);
      && k.next <= |doc| && StartEnd(t) + j == k.next + FirstOf(doc[k.next..], {'>'})
      && (k.found && !k.isString ==> k.l <= k.next && TagName(t) == doc[k.l..k.next])
  {
    hide FindToken, FirstOf;
    var t := doc[j..];
    SliceOfRest(doc, j, 1, 1);
    var k := FindToken(t[1..]);
    SliceOfRest(doc, j, 1 + k.next, 1 + k.next);
    if k.found && !k.isString { SliceOfRest(doc, j + 1, k.l, k.next); }
  }

  // ---- The loop over the tokens of an end tag

  function ShiftEnd(e: TagEnd, n: nat): TagEnd {
    if e.TagEnd? then TagEnd(n + e.at) else e
  }

  lemma EndTagAt(doc: string, at: nat, count: nat, name: string)
    requires at <= |doc|
    ensures var t, e := FindToken(doc[at..]).Shift(at), EndTagScan(doc[at..], count, name);
      && t.next <= |doc| && (t.found && !t.isString ==> t.l <= t.next && t.l < |doc|) && at <= t.next
      && (if !t.found then t.l == |doc| && e == TagFault(EndTagNotCompleted(name))
          else if !t.isString && count == 0 && doc[t.l] != '/' then e == TagFault(ExpectingEndTag(name))
          else if !t.isString && count == 1 && !Match(doc[t.l..t.next], name) then e == TagFault(EndTagMismatch(name))
          else if !t.isString && doc[t.l] == '>' then e == TagEnd(t.l - at)
          else at < t.next && e == ShiftEnd(EndTagScan(doc[t.next..], count + 1, name), t.next - at))
  {
    hide FindToken, EndTagScan, Match;
    var s := doc[at..];
    EndTagCases(s, count, name);
    TokenStart(s);
    var t := FindToken(s);
    assert s[t.next..] == doc[at + t.next..];
    if t.found && !t.isString {
      assert s[t.l] == doc[at + t.l];
      assert s == doc[at..|doc|];
      SliceOfSlice(doc, at, |doc|, t.l, t.next);
    }
  }

  // ---- The loop over the children

  /** What was read of the children so far, `n` characters, and what is still to come. */
  function Continue(done: Forest, n: nat, r: Result): Result {
    if r.Read? then Read(Then(done, r.f), n + r.used, r.free) else r
  }

  lemma ContinueStart(r: Result)
    ensures Continue(End(""), 0, r) == r
  {
  }

  /** One more child. */
  lemma ContinueElem(done: Forest, n: nat, s: string, free: nat)
    requires ReadNext(s, free).NextElem?
    ensures var r := ReadNext(s, free);
      Continue(done, n, ReadKids(s, free))
        == Continue(Then(done, Attach(r.x, s[..r.at], End(""))), n + r.at + r.used, ReadKids(s[r.at + r.used..], r.free))
  {
    hide ReadNext, ReadKids, Attach;
    ReadKidsNext(s, free);
    var r := ReadNext(s, free);
    var rest := ReadKids(s[r.at + r.used..], r.free);
    if rest.Read? { ThenThen(done, r.x, s[..r.at], rest.f); }
  }

  lemma NextText(s: string, free: nat)
    requires ReadNext(s, free).NextElem?
    ensures var r := ReadNext(s, free);
      && |Text(r.x)| == r.used && Order(r.x) == Range(free, r.free) && |s[..r.at]| == r.at
  {
    hide Scan, ReadElem;
    var h := Scan(s);
    ReadElemText(s[h.at..], free);
    ReadElemOrder(s[h.at..], free);
  }

  lemma ElemEnds(a: seq<ElemPos>, x: Forest, base: int)
    requires !x.End? && x.gap == "" && x.rest == End("") && Placed(a, x, base)
    ensures x.slot < |a| && a[x.slot].endR + 1 == base + |Text(x)|
  {
    TextWidth(x);
    assert Text(End("")) == "";
  }

  /** The children read so far are linked and placed, in slots from `from` to `to`. */
  predicate Built(a: seq<ElemPos>, f: Forest, p: nat, base: int, from: nat, to: nat) {
    && from <= to <= |a| && Linked(a, f, p) && Placed(a, f, base) && NoTail(f)
    && Order(f) == Range(from, to)
  }

  lemma BuiltStart(a: seq<ElemPos>, p: nat, base: int, from: nat)
    requires from <= |a|
    ensures Built(a, End(""), p, base, from, from) && Last(Slots(End(""))) == 0 && First(End("")) == 0 && |Text(End(""))| == 0
  {
    assert Order(End("")) == [] == Range(from, from);
  }

  /** Later slots do not matter. */
  lemma BuiltKept(a: seq<ElemPos>, b: seq<ElemPos>, f: Forest, p: nat, base: int, from: nat, to: nat)
    requires Built(a, f, p, base, from, to) && |a| <= |b| && forall s :: from <= s < to ==> b[s] == a[s]
    ensures Built(b, f, p, base, from, to)
  {
    hide Linked, Placed;
    assert forall s :: s in Order(f) ==> from <= s < to;
    LinkedFrame(a, b, f, p);
    PlacedFrame(a, b, f, base);
  }

  /** The next child linked in behind the others. */
  lemma BuiltMore(a: seq<ElemPos>, b: seq<ElemPos>, f: Forest, x: Forest, gap: string, p: nat, base: int, from: nat, to: nat, free: nat)
    requires Built(a, f, p, base, from, to) && 0 < from
    requires !x.End? && x.gap == "" && x.rest == End("") && Linked(a, x, p) && Placed(a, x, base + |Text(f)| + |gap|)
    requires to <= free <= |a| && Order(x) == Range(to, free) && x.slot == to
    requires var last := Last(Slots(f));
      && |b| == |a| && last < |a|
      && (forall s :: from <= s < |a| && s != last ==> b[s] == a[s])
      && (last != 0 ==> b[last] == a[last].(next := x.slot))
    ensures var g := Then(f, Attach(x, gap, End("")));
      && Built(b, g, p, base, from, free) && Last(Slots(g)) == x.slot && |Text(g)| == |Text(f)| + |gap| + |Text(x)|
      && First(g) == if f.End? then x.slot else First(f)
  {
    hide Built, Linked, Placed, Text, Attach, Order, Slots, Then, NoTail;
    var y := Attach(x, gap, End(""));
    AttachFacts(a, x, gap, base + |Text(f)|, p);
    var c := if Last(Slots(f)) != 0 then a[Last(Slots(f)) := b[Last(Slots(f))]] else a;
    BuiltJoin(a, c, f, y, p, base, from, to, free);
    BuiltKept(c, b, Then(f, y), p, base, from, free);
  }

  lemma BuiltJoin(a: seq<ElemPos>, c: seq<ElemPos>, f: Forest, y: Forest, p: nat, base: int, from: nat, to: nat, free: nat)
    requires Built(a, f, p, base, from, to) && 0 < from && to <= free <= |a|
    requires !y.End? && Linked(a, y, p) && Placed(a, y, base + |Text(f)|) && NoTail(y)
    requires Order(y) == Range(to, free) && Slots(y) == [y.slot]
    requires var last := Last(Slots(f));
      && last < |a| && (if last != 0 then c == a[last := a[last].(next := y.slot)] else c == a)
    ensures var g := Then(f, y);
      && Built(c, g, p, base, from, free) && Last(Slots(g)) == y.slot && |Text(g)| == |Text(f)| + |Text(y)|
      && First(g) == if f.End? then y.slot else First(f)
  {
    hide Linked, Placed, Text, Attach, Order, Slots, Then, NoTail;
    ThenOrder(f, y); ThenSlots(f, y); ThenHead(f, y);
    RangeJoin(from, to, free);
    ThenLinked(a, c, f, y, p);
    ThenPlaced(a, f, y, base);
    SameOffsetsPlaced(a, c, Then(f, y), base);
  }

  /** The text before the end tag closes the list of the children. */
  lemma BuiltEnd(a: seq<ElemPos>, f: Forest, gap: string, p: nat, base: int, from: nat, to: nat)
    requires Built(a, f, p, base, from, to)
    ensures var g := Then(f, End(gap));
      Linked(a, g, p) && Placed(a, g, base) && First(g) == First(f)
  {
    hide Text;
    ThenEnd(a, f, gap, p);
    ThenPlaced(a, f, End(gap), base);
    ThenHead(f, End(gap));
  }

  // ---- The element itself

  lemma EmptyAtEnd(doc: string, at: nat, n: nat)
    requires at < n < |doc|
    ensures EmptyTag(doc[at..][..n - at + 1]) <==> doc[n - 1] == '/'
  {
    var t := doc[at..][..n - at + 1];
    assert t[|t| - 2] == doc[n - 1];
  }

  /** x_ParseElem from a start tag on, in offsets of the document. */
  lemma ReadElemAt(doc: string, at: nat, free: nat)
    requires at < |doc|
    ensures var r, n := ReadElem(doc[at..], free), at + StartEnd(doc[at..]);
      && at < n <= |doc| && (n < |doc| ==> doc[n] == '>')
      && (if n == |doc| then r == Bad(EndOfTagNotFound)
          else if doc[n - 1] == '/' then r == Read(EmptyElem(free, "", doc[at..n + 1], End("")), n + 1 - at, free + 1)
          else
            var kids := ReadKids(doc[n + 1..], free + 1);
            !kids.Read? ==> r == kids)
  {
    hide *;
    var t := doc[at..];
    ReadElemCases(t, free);
    var w := StartEnd(t);
    if w < |t| {
      EmptyAtEnd(doc, at, at + w);
      SliceOfRest(doc, at, 0, w + 1);
      assert t[w] == doc[at + w];
    }
  }

  /** The rest of it, for an element with a body: its end tag at `m` behind its children. */
  lemma ReadFullAt(doc: string, at: nat, n: nat, free: nat, m: nat)
    requires at < |doc| && n == at + StartEnd(doc[at..]) && at < n < |doc| && doc[n - 1] != '/'
    requires ReadKids(doc[n + 1..], free + 1).Read? && m == n + 1 + ReadKids(doc[n + 1..], free + 1).used
    ensures m < |doc|
    ensures var r, kids := ReadElem(doc[at..], free), ReadKids(doc[n + 1..], free + 1);
      var e := EndTagScan(doc[m + 1..], 0, TagName(doc[at..]));
      if e.TagFault? then r == Bad(e.fault)
      else
        m + e.at + 2 <= |doc|
        && r == Read(FullElem(free, "", doc[at..n + 1], kids.f, doc[m..m + e.at + 2], End("")), m + e.at + 2 - at, kids.free)
  {
    hide *;
    var t := doc[at..];
    ReadElemCases(t, free);
    EmptyAtEnd(doc, at, n);
    SliceOfRest(doc, at, 0, n + 1 - at);
    SameSlices(doc, at, m - at, TagName(t));
    assert t[m - at + 1..] == doc[m + 1..];
  }

  lemma SameSlices(doc: string, at: nat, m: nat, name: string)
    requires at + m < |doc|
    ensures var t := doc[at..];
      && t[m + 1..] == doc[at + m + 1..]
      && var e := EndTagScan(t[m + 1..], 0, name);
         e.TagEnd? ==> m + e.at + 2 <= |t| && t[m..m + e.at + 2] == doc[at + m..at + m + e.at + 2]
  {
    hide EndTagScan;
    var t := doc[at..];
    assert t[m + 1..] == doc[at + m + 1..];
    var e := EndTagScan(t[m + 1..], 0, name);
    if e.TagEnd? { assert t[m..m + e.at + 2] == doc[at + m..at + m + e.at + 2]; }
  }

  lemma EmptyBuilt(a: seq<ElemPos>, slot: nat, p: nat, base: int, start: string)
    requires 0 < slot < |a| && a[slot].parent == p && a[slot].child == 0 && a[slot].next == 0
    requires EmptyAt(a[slot], base, |start|)
    ensures var x := EmptyElem(slot, "", start, End("")); Linked(a, x, p) && Placed(a, x, base)
  {
  }

  lemma FullBuilt(a: seq<ElemPos>, slot: nat, p: nat, base: int, start: string, kids: Forest, close: string)
    requires 0 < slot < |a| && a[slot].parent == p && a[slot].child == First(kids) && a[slot].next == 0
    requires FullAt(a[slot], base, |start|, |Text(kids)|, |close|)
    requires Linked(a, kids, slot) && Placed(a, kids, base + |start|)
    ensures var x := FullElem(slot, "", start, kids, close, End("")); Linked(a, x, p) && Placed(a, x, base)
  {
  }

  // ---- The document

  lemma RootBuilt(a: seq<ElemPos>, x: Forest, gap: string, tail: string)
    requires !x.End? && x.gap == "" && x.rest == End("") && Linked(a, x, 0) && Placed(a, x, |gap|)
    ensures var f := Attach(x, gap, End(tail)); Linked(a, f, 0) && Placed(a, f, 0) && First(f) == x.slot
  {
  }

  lemma RangeDistinct(from: nat, to: nat)
    requires 0 < from <= to
    ensures Distinct(Range(from, to)) && 0 !in Range(from, to)
  {
  }

  lemma ReadDocNext(doc: string)
    ensures var r, n := ReadDoc(doc), ReadNext(doc, 1);
      && (r.Hang? <==> n.NextHang?) && (r.Read? <==> n.NextElem?)
      && (n.NextElem? ==> r.f == Attach(n.x, doc[..n.at], End(doc[n.at + n.used..])) && r.free == n.free)
  {
    hide Scan, ReadElem, Attach;
  }

  /** The index after a document was read. */
  lemma RootRead(doc: string, a: seq<ElemPos>)
    requires 0 < |a| && ReadNext(doc, 1).NextElem?
    requires var n := ReadNext(doc, 1); Linked(a, n.x, 0) && Placed(a, n.x, n.at)
    ensures var n, r := ReadNext(doc, 1), ReadDoc(doc);
      && r.Read? && r.free == n.free && Represents(a[0 := a[0].(child := 1)], r.f)
      && Text(r.f) == doc && Tagged(r.f) && WellFormed(r.f, false) && |Slots(r.f)| == 1
      && forall s :: s in Order(r.f) ==> s < r.free
  {
    hide ReadNext, ReadDoc, Linked, Placed, Text, Tagged, WellFormed, Order, Attach, Distinct, Slots;
    var n, r := ReadNext(doc, 1), ReadDoc(doc);
    var b := a[0 := a[0].(child := 1)];
    ReadDocNext(doc);
    ReadDocText(doc); ReadDocOrder(doc); ReadDocForm(doc);
    FormTagged(r.f, false);
    RootBuilt(a, n.x, doc[..n.at], doc[n.at + n.used..]);
    SlotsOnce(r.f); SlotsOnce(r.f.rest);
    RangeDistinct(1, n.free);
    LinkedFrame(a, b, r.f, 0);
    PlacedFrame(a, b, r.f, 0);
  }
}
