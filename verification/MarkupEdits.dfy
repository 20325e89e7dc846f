/** Edits of a document seen at the place where they happen: the forest in the hole of a
    `Ctx` changes, and the position array has to represent the new one. */
module MarkupEdits {
  import opened MarkupText
  import opened MarkupGrammar
  import opened MarkupTree
  import opened MarkupAdjust

  /** The position array `a` represents the document with `f` in the hole of `c`. */
  predicate RepAt(a: seq<ElemPos>, c: Ctx, f: Forest) {
    && LinkedCtx(a, c, First(f), 0) && Linked(a, f, ParentOf(c, 0))
    && PlacedCtx(a, c, |Text(f)|, 0) && Placed(a, f, |Pre(c)|)
    && DistinctAt(c, f)
  }

  /** The position array `a` represents the document `f`: its links are the tree, its
      offsets the places of the tags, and no slot serves two elements. */
  predicate Represents(a: seq<ElemPos>, f: Forest) {
    && 0 < |a| && a[0].child == First(f) && Linked(a, f, 0) && Placed(a, f, 0)
    && Distinct(Order(f)) && 0 !in Order(f)
  }

  lemma RepPlug(a: seq<ElemPos>, c: Ctx, f: Forest)
    ensures Represents(a, Plug(c, f)) <==> RepAt(a, c, f)
  {
    hide Plug, Linked, LinkedCtx, Placed, PlacedCtx, Order, Distinct;
    PlugLinked(a, c, f, 0);
    PlugPlaced(a, c, f, 0);
    DistinctPlug(c, f);
  }

  // ---- Frames

  predicate Agree(a: seq<ElemPos>, b: seq<ElemPos>, o: seq<nat>) {
    |a| <= |b| && forall s :: s in o && s < |a| ==> a[s] == b[s]
  }

  lemma {:induction false} LinkedFrame(a: seq<ElemPos>, b: seq<ElemPos>, f: Forest, p: nat)
    requires Linked(a, f, p) && Agree(a, b, Order(f))
    ensures Linked(b, f, p)
  {
    if !f.End? {
      ElemOrder(f);
      assert f.slot in Order(f);
      if f.FullElem? { LinkedFrame(a, b, f.kids, f.slot); }
      LinkedFrame(a, b, f.rest, p);
    }
  }

  lemma {:induction false} PlacedFrame(a: seq<ElemPos>, b: seq<ElemPos>, f: Forest, base: int)
    requires Placed(a, f, base) && Agree(a, b, Order(f))
    ensures Placed(b, f, base)
  {
    match f
    case End(_) =>
    case EmptyElem(slot, gap, start, rest) =>
      assert slot in Order(f);
      PlacedFrame(a, b, rest, base + |gap| + |start|);
    case FullElem(slot, gap, start, kids, close, rest) =>
      assert slot in Order(f);
      PlacedFrame(a, b, kids, base + |gap| + |start|);
      PlacedFrame(a, b, rest, base + |gap| + |start| + |Text(kids)| + |close|);
  }

  lemma {:induction false} LinkedCtxFrame(a: seq<ElemPos>, b: seq<ElemPos>, c: Ctx, head: nat, root: nat)
    requires LinkedCtx(a, c, head, root) && Agree(a, b, Before(c)) && Agree(a, b, Behind(c)) && Agree(a, b, [root])
    ensures LinkedCtx(b, c, head, root)
  {
    match c
    case Top => assert root in [root];
    case AfterEmpty(outer, slot, _, _) =>
      assert slot in Before(c);
      LinkedCtxFrame(a, b, outer, slot, root);
    case AfterFull(outer, slot, _, _, kids, _) =>
      assert slot in Before(c);
      LinkedFrame(a, b, kids, slot);
      LinkedCtxFrame(a, b, outer, slot, root);
    case Inside(outer, slot, _, _, _, rest) =>
      assert slot in Before(c);
      LinkedFrame(a, b, rest, ParentOf(outer, root));
      LinkedCtxFrame(a, b, outer, slot, root);
  }

  lemma AgreeOuter(a: seq<ElemPos>, b: seq<ElemPos>, c: Ctx)
    requires Agree(a, b, Before(c)) && Agree(a, b, Behind(c)) && !c.Top?
    ensures Agree(a, b, Before(c.outer)) && Agree(a, b, Behind(c.outer)) && Agree(a, b, [c.slot])
    ensures c.AfterFull? ==> Agree(a, b, Order(c.kids))
    ensures c.Inside? ==> Agree(a, b, Order(c.rest))
  {
    assert forall s :: s in [c.slot] ==> s in Before(c);
  }

  lemma {:induction false} PlacedCtxFrame(a: seq<ElemPos>, b: seq<ElemPos>, c: Ctx, width: nat, base: int)
    requires PlacedCtx(a, c, width, base) && Agree(a, b, Before(c)) && Agree(a, b, Behind(c))
    ensures PlacedCtx(b, c, width, base)
  {
    hide Text, Pre, Order, Before, Behind, EmptyAt, FullAt;
    if !c.Top? {
      AgreeOuter(a, b, c);
      assert c.slot in [c.slot];
    }
    match c
    case Top =>
    case AfterEmpty(outer, slot, gap, start) =>
      PlacedCtxFrame(a, b, outer, |gap| + |start| + width, base);
    case AfterFull(outer, slot, gap, start, kids, close) =>
      PlacedFrame(a, b, kids, base + |Pre(outer)| + |gap| + |start|);
      PlacedCtxFrame(a, b, outer, |gap| + |start| + |Text(kids)| + |close| + width, base);
    case Inside(outer, slot, gap, start, close, rest) =>
      PlacedFrame(a, b, rest, base + |Pre(outer)| + |gap| + |start| + width + |close|);
      PlacedCtxFrame(a, b, outer, |gap| + |start| + width + |close| + |Text(rest)|, base);
  }

  /** A longer position array represents what the shorter one did. */
  lemma RepGrow(a: seq<ElemPos>, b: seq<ElemPos>, f: Forest)
    requires Represents(a, f) && |a| <= |b| && b[..|a|] == a
    ensures Represents(b, f)
  {
    hide Linked, Placed, Order, Distinct;
    assert forall s :: 0 <= s < |a| ==> b[s] == b[..|a|][s];
    LinkedFrame(a, b, f, 0);
    PlacedFrame(a, b, f, 0);
  }

  lemma {:induction false} LinkedSame(a: seq<ElemPos>, b: seq<ElemPos>, f: Forest, p: nat)
    requires Linked(a, f, p) && SameLinks(a, b)
    ensures Linked(b, f, p)
  {
    if !f.End? {
      if f.FullElem? { LinkedSame(a, b, f.kids, f.slot); }
      LinkedSame(a, b, f.rest, p);
    }
  }

  lemma {:induction false} LinkedCtxSame(a: seq<ElemPos>, b: seq<ElemPos>, c: Ctx, head: nat, root: nat)
    requires LinkedCtx(a, c, head, root) && SameLinks(a, b)
    ensures LinkedCtx(b, c, head, root)
  {
    match c
    case Top =>
    case AfterEmpty(outer, slot, _, _) =>
      LinkedCtxSame(a, b, outer, slot, root);
    case AfterFull(outer, slot, _, _, kids, _) =>
      LinkedSame(a, b, kids, slot);
      LinkedCtxSame(a, b, outer, slot, root);
    case Inside(outer, slot, _, _, _, rest) =>
      LinkedSame(a, b, rest, ParentOf(outer, root));
      LinkedCtxSame(a, b, outer, slot, root);
  }

  /** What holds of the text in the hole and of the moved text around it. */
  lemma RepMoved(a: seq<ElemPos>, b: seq<ElemPos>, c: Ctx, f: Forest, g: Forest, n: int)
    requires PlacedCtx(a, c, |Text(f)|, 0) && CtxMoved(a, b, c, n) && |Text(g)| == |Text(f)| + n
    requires LinkedCtx(b, c, First(g), 0) && Linked(b, g, ParentOf(c, 0)) && Placed(b, g, |Pre(c)|) && DistinctAt(c, g)
    ensures RepAt(b, c, g)
  {
    hide Text, Pre, LinkedCtx, Linked, Placed, PlacedCtx, CtxMoved, DistinctAt;
    PlacedCtxMoves(a, b, c, |Text(f)|, 0, n);
  }

  // ---- Changing a start tag

  function WithStart(x: Forest, t: string): Forest
    requires !x.End?
  {
    match x
    case EmptyElem(slot, gap, _, rest) => EmptyElem(slot, gap, t, rest)
    case FullElem(slot, gap, _, kids, close, rest) => FullElem(slot, gap, t, kids, close, rest)
  }

  lemma CtxMovedFrom(a: seq<ElemPos>, a1: seq<ElemPos>, b: seq<ElemPos>, c: Ctx, n: int)
    requires |a| == |a1| && Agree(a, a1, Before(c)) && Agree(a, a1, Behind(c)) && CtxMoved(a1, b, c, n)
    ensures CtxMoved(a, b, c, n)
  {
    match c
    case Top =>
    case AfterEmpty(outer, slot, _, _) =>
      assert slot in Before(c);
      CtxMovedFrom(a, a1, b, outer, n);
    case AfterFull(outer, slot, _, _, kids, _) =>
      assert slot in Before(c);
      CtxMovedFrom(a, a1, b, outer, n);
    case Inside(outer, slot, _, _, _, rest) =>
      assert slot in Before(c);
      CtxMovedFrom(a, a1, b, outer, n);
  }

  /** x_SetAttrib and x_RemoveAttrib: the tag grows by `n`, its own offsets and those
      behind it move. */
  lemma StartChanged(a: seq<ElemPos>, b: seq<ElemPos>, c: Ctx, x: Forest, t: string, n: int)
    requires !x.End? && RepAt(a, c, x) && n == |t| - |x.start|
    requires x.slot < |a|
    requires var p := a[x.slot];
      var a1 := a[x.slot := p.(startR := p.startR + n).AdjustEnd(n)];
      b == Apply(a1, Work(x, c, false), n) && SameLinks(b, a1)
    ensures RepAt(b, c, WithStart(x, t))
  {
    hide Apply, Work, Order, Before, Behind, Text, Pre;
    var p := a[x.slot];
    var a1 := a[x.slot := p.(startR := p.startR + n).AdjustEnd(n)];
    var y := WithStart(x, t);
    ElemOrder(x); ElemOrder(y);
    AdjustMoves(a1, x, c, false, n);
    CtxMovedFrom(a, a1, b, c, n);
    assert SameLinks(a, b);
    LinkedSame(a, b, x, ParentOf(c, 0));
    LinkedCtxSame(a, b, c, x.slot, 0);
    TextWidth(x); TextWidth(y);
    StartPlaced(a, a1, b, x, t, |Pre(c)|, n);
    RepMoved(a, b, c, x, y, n);
  }

  lemma StartPlaced(a: seq<ElemPos>, a1: seq<ElemPos>, b: seq<ElemPos>, x: Forest, t: string, base: int, n: int)
    requires !x.End? && Placed(a, x, base) && n == |t| - |x.start| && x.slot < |a|
    requires Distinct(Order(x))
    requires var p := a[x.slot]; a1 == a[x.slot := p.(startR := p.startR + n).AdjustEnd(n)]
    requires |b| == |a| && b[x.slot] == a1[x.slot] && Moved(a1, b, x.rest, n) && Moved(a1, b, Kids(x), n)
    ensures Placed(b, WithStart(x, t), base)
  {
    hide Text;
    ElemOrder(x);
    DistinctParts([x.slot] + Order(Kids(x)), Order(x.rest));
    DistinctParts([x.slot], Order(Kids(x)));
    assert Agree(a, a1, Order(x.rest)) && Agree(a, a1, Order(Kids(x)));
    if x.FullElem? {
      var inner := base + |x.gap| + |x.start|;
      PlacedMoves(a, b, x.kids, inner, n);
      PlacedMoves(a, b, x.rest, inner + |Text(x.kids)| + |x.close|, n);
    } else {
      PlacedMoves(a, b, x.rest, base + |x.gap| + |x.start|, n);
    }
  }

  // ---- Gaps

  function Gap(f: Forest): string { f.gap }

  function WithGap(f: Forest, g: string): Forest {
    match f
    case End(_) => End(g)
    case EmptyElem(slot, _, start, rest) => EmptyElem(slot, g, start, rest)
    case FullElem(slot, _, start, kids, close, rest) => FullElem(slot, g, start, kids, close, rest)
  }

  lemma RegapFacts(a: seq<ElemPos>, f: Forest, g: string, base: int, p: nat)
    ensures Placed(a, f, base) <==> Placed(a, WithGap(f, g), base + |f.gap| - |g|)
    ensures Linked(a, f, p) <==> Linked(a, WithGap(f, g), p)
    ensures Order(WithGap(f, g)) == Order(f) && First(WithGap(f, g)) == First(f)
    ensures Text(f) == f.gap + Text(f)[|f.gap|..] && |f.gap| <= |Text(f)|
    ensures Text(WithGap(f, g)) == g + Text(f)[|f.gap|..]
  {
    RegapText(f, g);
    match f
    case End(_) =>
    case EmptyElem(slot, gap, start, rest) =>
      assert base + |gap| + |start| == base + |gap| - |g| + |g| + |start|;
    case FullElem(slot, gap, start, kids, close, rest) =>
  }

  lemma RegapText(f: Forest, g: string)
    ensures |f.gap| <= |Text(f)| && Text(f) == f.gap + Text(f)[|f.gap|..]
    ensures Text(WithGap(f, g)) == g + Text(f)[|f.gap|..]
  {
    hide *;
    BehindText(f);
    BehindText(WithGap(f, g));
    RegapBehind(f, g);
    assert Text(f)[|f.gap|..] == BehindGap(f);
  }

  /** The text behind the first gap. */
  function BehindGap(f: Forest): string {
    match f
    case End(_) => ""
    case EmptyElem(_, _, start, rest) => start + Text(rest)
    case FullElem(_, _, start, kids, close, rest) => start + Text(kids) + (close + Text(rest))
  }

  lemma BehindText(f: Forest)
    ensures Text(f) == f.gap + BehindGap(f)
  {
    match f
    case End(_) =>
    case EmptyElem(_, gap, start, rest) =>
      assert gap + start + Text(rest) == gap + (start + Text(rest));
    case FullElem(_, gap, start, kids, close, rest) =>
      assert gap + start + Text(kids) + (close + Text(rest)) == gap + (start + Text(kids) + (close + Text(rest)));
  }

  lemma RegapBehind(f: Forest, g: string)
    ensures WithGap(f, g).gap == g && BehindGap(WithGap(f, g)) == BehindGap(f)
  {
    hide Text;
  }

  // ---- The link that leads into a hole

  function SetHole(a: seq<ElemPos>, c: Ctx, root: nat, head: nat): (b: seq<ElemPos>)
    ensures |b| == |a|
  {
    match c
    case Top => if root < |a| then a[root := a[root].(child := head)] else a
    case AfterEmpty(_, slot, _, _) => if slot < |a| then a[slot := a[slot].(next := head)] else a
    case AfterFull(_, slot, _, _, _, _) => if slot < |a| then a[slot := a[slot].(next := head)] else a
    case Inside(_, slot, _, _, _, _) => if slot < |a| then a[slot := a[slot].(child := head)] else a
  }

  function HoleSlot(c: Ctx, root: nat): nat {
    if c.Top? then root else c.slot
  }

  lemma HoleSlotBefore(c: Ctx, root: nat)
    ensures HoleSlot(c, root) == root || HoleSlot(c, root) in Before(c)
  {
  }

  lemma LinkedSetHole(a: seq<ElemPos>, c: Ctx, root: nat, h0: nat, head: nat)
    requires LinkedCtx(a, c, h0, root)
    requires Distinct(Before(c)) && Disjoint(Before(c), Behind(c)) && root !in Before(c) && root !in Behind(c)
    ensures LinkedCtx(SetHole(a, c, root, head), c, head, root)
  {
    hide Linked;
    var b := SetHole(a, c, root, head);
    match c
    case Top =>
    case AfterEmpty(outer, slot, _, _) =>
      DistinctParts(Before(outer), [slot]);
      assert slot in Before(c) && slot in [slot];
      LinkedCtxFrame(a, b, outer, slot, root);
    case AfterFull(outer, slot, _, _, kids, _) =>
      DistinctParts(Before(outer), [slot] + Order(kids));
      DistinctParts([slot], Order(kids));
      assert slot in Before(c) && slot in [slot] && slot in [slot] + Order(kids);
      LinkedFrame(a, b, kids, slot);
      LinkedCtxFrame(a, b, outer, slot, root);
    case Inside(outer, slot, _, _, _, rest) =>
      DistinctParts(Before(outer), [slot]);
      assert slot in Before(c) && slot in [slot];
      assert forall s :: s in Order(rest) || s in Behind(outer) ==> s in Behind(c);
      LinkedFrame(a, b, rest, ParentOf(outer, root));
      LinkedCtxFrame(a, b, outer, slot, root);
  }

  lemma {:induction false} PlacedCtxSetHole(a: seq<ElemPos>, c: Ctx, root: nat, head: nat, width: nat, base: int)
    requires PlacedCtx(a, c, width, base)
    ensures PlacedCtx(SetHole(a, c, root, head), c, width, base)
  {
    SameOffsetsCtx(a, SetHole(a, c, root, head), c, width, base);
  }

  predicate SameOffsets(a: seq<ElemPos>, b: seq<ElemPos>) {
    |a| == |b| && forall k :: 0 <= k < |a| ==>
      a[k].startL == b[k].startL && a[k].startR == b[k].startR && a[k].endL == b[k].endL && a[k].endR == b[k].endR
  }

  lemma {:induction false} SameOffsetsPlaced(a: seq<ElemPos>, b: seq<ElemPos>, f: Forest, base: int)
    requires Placed(a, f, base) && SameOffsets(a, b)
    ensures Placed(b, f, base)
  {
    match f
    case End(_) =>
    case EmptyElem(slot, gap, start, rest) =>
      SameOffsetsPlaced(a, b, rest, base + |gap| + |start|);
    case FullElem(slot, gap, start, kids, close, rest) =>
      SameOffsetsPlaced(a, b, kids, base + |gap| + |start|);
      SameOffsetsPlaced(a, b, rest, base + |gap| + |start| + |Text(kids)| + |close|);
  }

  lemma {:induction false} SameOffsetsCtx(a: seq<ElemPos>, b: seq<ElemPos>, c: Ctx, width: nat, base: int)
    requires PlacedCtx(a, c, width, base) && SameOffsets(a, b)
    ensures PlacedCtx(b, c, width, base)
  {
    hide Text, Pre, Placed;
    match c
    case Top =>
    case AfterEmpty(outer, slot, gap, start) =>
      SameOffsetsCtx(a, b, outer, |gap| + |start| + width, base);
    case AfterFull(outer, slot, gap, start, kids, close) =>
      SameOffsetsPlaced(a, b, kids, base + |Pre(outer)| + |gap| + |start|);
      SameOffsetsCtx(a, b, outer, |gap| + |start| + |Text(kids)| + |close| + width, base);
    case Inside(outer, slot, gap, start, close, rest) =>
      SameOffsetsPlaced(a, b, rest, base + |Pre(outer)| + |gap| + |start| + width + |close|);
      SameOffsetsCtx(a, b, outer, |gap| + |start| + width + |close| + |Text(rest)|, base);
  }

  // ---- Removing an element

  /** What is left of `x` and its siblings when `x` and the first `k` characters after it
      are gone. */
  function Without(x: Forest, k: nat): Forest
    requires !x.End? && k <= |x.rest.gap|
  {
    WithGap(x.rest, x.gap + x.rest.gap[k..])
  }

  /** Unlinking `x` leaves the links by which x_Adjust walks on from it. */
  lemma UnlinkedGood(a: seq<ElemPos>, c: Ctx, x: Forest)
    requires !x.End? && RepAt(a, c, x)
    ensures var a1 := SetHole(a, c, 0, First(x.rest));
      && Good(a1, StartWalk(x, c, true)) && x.slot < |a|
      && LinkedCtx(a1, c, First(x.rest), 0) && Linked(a1, x.rest, ParentOf(c, 0))
  {
    hide Order, Before, Behind, Placed, PlacedCtx, Good, StartWalk;
    var a1 := SetHole(a, c, 0, First(x.rest));
    ElemOrder(x);
    HoleSlotBefore(c, 0);
    assert x.slot in Order(x) by { assert x.slot in [x.slot]; }
    assert forall s :: s in Order(x.rest) ==> s in Order(x);
    LinkedSetHole(a, c, 0, x.slot, First(x.rest));
    SetHoleAgrees(a, c, 0, First(x.rest), Order(x.rest));
    SetHoleAgrees(a, c, 0, First(x.rest), [x.slot]);
    LinkedFrame(a, a1, x.rest, ParentOf(c, 0));
    assert a1[x.slot] == a[x.slot] by { assert x.slot in [x.slot]; }
    StartGood(a1, x, c, true, First(x.rest));
  }

  lemma SetHoleAgrees(a: seq<ElemPos>, c: Ctx, root: nat, head: nat, o: seq<nat>)
    requires HoleSlot(c, root) !in o
    ensures Agree(a, SetHole(a, c, root, head), o)
  {
  }

  lemma ElemRemoved(a: seq<ElemPos>, b: seq<ElemPos>, c: Ctx, x: Forest, k: nat)
    requires !x.End? && RepAt(a, c, x) && k <= |x.rest.gap|
    requires var a1 := SetHole(a, c, 0, First(x.rest));
      b == Apply(a1, Work(x, c, true), |Text(Without(x, k))| - |Text(x)|) && SameLinks(b, a1)
    ensures RepAt(b, c, Without(x, k))
  {
    hide Order, Before, Behind, Text, Pre, Apply, Work, Linked, LinkedCtx, Placed, PlacedCtx, CtxMoved, Moved, SetHole, Distinct;
    var f := Without(x, k);
    var n := |Text(f)| - |Text(x)|;
    var a1 := SetHole(a, c, 0, First(x.rest));
    var g := x.gap + x.rest.gap[k..];
    UnlinkedGood(a, c, x);
    AdjustMoves(a1, x, c, true, n);
    LinkedSame(a1, b, x.rest, ParentOf(c, 0));
    LinkedCtxSame(a1, b, c, First(x.rest), 0);
    RemovedWidth(x, k);
    PlacedCtxSetHole(a, c, 0, First(x.rest), |Text(x)|, 0);
    var base := |Pre(c)| + |Text(x)| - |Text(x.rest)|;
    assert Placed(a, x.rest, base) by { PlacedRest(a, x, |Pre(c)|); }
    SameOffsetsPlaced(a, a1, x.rest, base) by { SetHoleOffsets(a, c, 0, First(x.rest)); }
    PlacedMoves(a1, b, x.rest, base, n);
    RegapFacts(b, x.rest, g, base + n, ParentOf(c, 0));
    DistinctRest(c, x);
    RepMoved(a1, b, c, x, f, n);
  }

  lemma SetHoleOffsets(a: seq<ElemPos>, c: Ctx, root: nat, head: nat)
    ensures SameOffsets(a, SetHole(a, c, root, head))
  {
  }

  lemma PlacedRest(a: seq<ElemPos>, x: Forest, base: int)
    requires !x.End? && Placed(a, x, base)
    ensures Placed(a, x.rest, base + |Text(x)| - |Text(x.rest)|)
  {
    TextWidth(x);
  }

  lemma RemovedWidth(x: Forest, k: nat)
    requires !x.End? && k <= |x.rest.gap|
    ensures |Text(Without(x, k))| == |x.gap| + |Text(x.rest)| - k
  {
    hide Text;
    RegapText(x.rest, x.gap + x.rest.gap[k..]);
  }

  lemma DistinctRest(c: Ctx, x: Forest)
    requires !x.End? && DistinctAt(c, x)
    ensures forall g :: DistinctAt(c, WithGap(x.rest, g)) <==> DistinctAt(c, x.rest)
    ensures DistinctAt(c, x.rest)
  {
    ElemOrder(x);
    DistinctParts([x.slot] + Order(Kids(x)), Order(x.rest));
    assert forall s :: s in Order(x.rest) ==> s in Order(x);
  }

  // ---- Changing the text of an element without children

  /** x_SetData: the element `x` keeps its slot and its gap and gets a new body. */
  function WithBody(x: Forest, start: string, data: string, close: string): Forest
    requires !x.End?
  {
    FullElem(x.slot, x.gap, start, End(data), close, x.rest)
  }

  lemma BodyGood(a: seq<ElemPos>, p: ElemPos, c: Ctx, x: Forest)
    requires !x.End? && Kids(x).End? && RepAt(a, c, x) && x.slot < |a|
    requires p.parent == a[x.slot].parent && p.child == a[x.slot].child && p.next == a[x.slot].next
    ensures Good(a[x.slot := p], StartWalk(x, c, false))
  {
    hide Order, Before, Behind, Placed, PlacedCtx, Good, StartWalk, LinkedCtx, Distinct;
    var a1 := a[x.slot := p];
    LinkedSame(a, a1, x, ParentOf(c, 0));
    LinkedCtxSame(a, a1, c, x.slot, 0);
    StartGood(a1, x, c, false, x.slot);
  }

  lemma BodyChanged(a: seq<ElemPos>, p: ElemPos, b: seq<ElemPos>, c: Ctx, x: Forest, y: Forest, n: int)
    requires !x.End? && Kids(x).End? && RepAt(a, c, x) && x.slot < |a|
    requires y.FullElem? && y.kids.End? && y == WithBody(x, y.start, y.kids.gap, y.close)
    requires n == |Text(y)| - |Text(x)|
    requires p.parent == a[x.slot].parent && p.child == a[x.slot].child && p.next == a[x.slot].next
    requires FullAt(p.AdjustEnd(n), a[x.slot].startL, |y.start|, |y.kids.gap|, |y.close|)
    requires var b0 := Apply(a[x.slot := p], Work(x, c, false), n);
      SameLinks(b0, a) && b == b0[x.slot := b0[x.slot].AdjustEnd(n)]
    ensures RepAt(b, c, y)
  {
    hide Order, Before, Behind, Text, Pre, Apply, Work, Linked, LinkedCtx, Placed, PlacedCtx, CtxMoved, Moved, Distinct, FullAt;
    var a1 := a[x.slot := p];
    var b0 := Apply(a1, Work(x, c, false), n);
    SlotApart(c, x);
    AdjustMoves(a1, x, c, false, n);
    CtxMovedFrom(a, a1, b0, c, n);
    CtxMovedTo(a, b0, b, c, n);
    assert SameLinks(a, b);
    LinkedSame(a, b, x, ParentOf(c, 0));
    LinkedCtxSame(a, b, c, x.slot, 0);
    LinkedElem(b, x, y, ParentOf(c, 0));
    BodyPlaced(a, p, b0, x, y, |Pre(c)|, n);
    DistinctBody(c, x, y);
    RepMoved(a, b, c, x, y, n);
  }

  lemma BodyPlaced(a: seq<ElemPos>, p: ElemPos, b0: seq<ElemPos>, x: Forest, y: Forest, base: int, n: int)
    requires !x.End? && Kids(x).End? && Placed(a, x, base) && x.slot < |a| == |b0|
    requires y.FullElem? && y.kids.End? && y == WithBody(x, y.start, y.kids.gap, y.close)
    requires n == |Text(y)| - |Text(x)| && x.slot !in Order(x.rest)
    requires FullAt(p.AdjustEnd(n), a[x.slot].startL, |y.start|, |y.kids.gap|, |y.close|)
    requires b0[x.slot] == p && Moved(a[x.slot := p], b0, x.rest, n)
    ensures Placed(b0[x.slot := p.AdjustEnd(n)], y, base)
  {
    hide Placed, Order, FullAt, Moved;
    var a1 := a[x.slot := p];
    var b := b0[x.slot := p.AdjustEnd(n)];
    var at := base + |Text(x)| - |Text(x.rest)|;
    PlacedRest(a, x, base);
    PlacedFrame(a, a1, x.rest, at);
    PlacedMoves(a1, b0, x.rest, at, n);
    PlacedFrame(b0, b, x.rest, at + n);
    TextWidth(y);
    PlacedElem(a, x, base);
    PlacedFull(b, y, base);
  }

  lemma DistinctBody(c: Ctx, x: Forest, y: Forest)
    requires DistinctAt(c, x) && !x.End? && y.FullElem? && y.kids.End? && Kids(x).End?
    requires y.slot == x.slot && y.rest == x.rest
    ensures DistinctAt(c, y)
  {
    ElemOrder(x); ElemOrder(y);
    assert Order(y) == Order(x);
  }

  lemma LinkedElem(b: seq<ElemPos>, x: Forest, y: Forest, p: nat)
    requires !x.End? && !y.End? && Linked(b, x, p)
    requires y.slot == x.slot && y.rest == x.rest && Kids(x).End? && Kids(y).End?
    ensures Linked(b, y, p)
  {
  }

  lemma PlacedElem(a: seq<ElemPos>, x: Forest, base: int)
    requires !x.End? && Placed(a, x, base)
    ensures x.slot < |a| && a[x.slot].startL == base + |x.gap|
  {
  }

  lemma PlacedFull(b: seq<ElemPos>, y: Forest, base: int)
    requires y.FullElem? && y.kids.End? && y.slot < |b|
    requires FullAt(b[y.slot], base + |y.gap|, |y.start|, |y.kids.gap|, |y.close|)
    requires Placed(b, y.rest, base + |y.gap| + |y.start| + |y.kids.gap| + |y.close|)
    ensures Placed(b, y, base)
  {
  }

  /** The slot of `x` is none of the others. */
  lemma SlotApart(c: Ctx, x: Forest)
    requires !x.End? && DistinctAt(c, x)
    ensures x.slot !in Before(c) && x.slot !in Behind(c) && x.slot !in Order(x.rest) && x.slot !in Order(Kids(x))
    ensures x.slot > 0 && x.slot in Order(x)
  {
    ElemOrder(x);
    DistinctParts([x.slot] + Order(Kids(x)), Order(x.rest));
    DistinctParts([x.slot], Order(Kids(x)));
    assert x.slot in [x.slot] && x.slot in [x.slot] + Order(Kids(x)) && x.slot in Order(x);
  }

  lemma {:induction false} CtxMovedTo(a: seq<ElemPos>, b: seq<ElemPos>, b1: seq<ElemPos>, c: Ctx, n: int)
    requires CtxMoved(a, b, c, n) && |b1| == |b| && Agree(b, b1, Before(c)) && Agree(b, b1, Behind(c))
    ensures CtxMoved(a, b1, c, n)
  {
    match c
    case Top =>
    case AfterEmpty(outer, slot, _, _) =>
      assert slot in Before(c);
      CtxMovedTo(a, b, b1, outer, n);
    case AfterFull(outer, slot, _, _, kids, _) =>
      assert slot in Before(c);
      CtxMovedTo(a, b, b1, outer, n);
    case Inside(outer, slot, _, _, _, rest) =>
      assert slot in Before(c);
      CtxMovedTo(a, b, b1, outer, n);
  }

  // ---- Adding an element

  /** The slots of `c` and `f` and slot 0 are in use, `s` is not. */
  predicate Unused(s: nat, c: Ctx, f: Forest) {
    0 < s && s !in Before(c) && s !in Behind(c) && s !in Order(f)
  }

  /** The offsets and links of an element without children that stands in the hole of `c`. */
  predicate Stands(p: ElemPos, c: Ctx, x: Forest) {
    && !x.End? && Kids(x).End?
    && p.parent == ParentOf(c, 0) && p.child == 0 && p.next == First(x.rest)
    && (match x
        case EmptyElem(_, gap, start, _) => EmptyAt(p, |Pre(c)| + |gap|, |start|)
        case FullElem(_, gap, start, kids, close, _) => FullAt(p, |Pre(c)| + |gap|, |start|, |Text(kids)|, |close|)
        case End(_) => false)
  }

  /** The new element `x` in front of the siblings `f`: its links are set. */
  lemma InsertedGood(a: seq<ElemPos>, p: ElemPos, c: Ctx, f: Forest, x: Forest)
    requires RepAt(a, c, f) && Stands(p, c, x) && x.rest == WithGap(f, x.rest.gap)
    requires Unused(x.slot, c, f) && x.slot < |a|
    ensures var a1 := SetHole(a[x.slot := p], c, 0, x.slot);
      && Good(a1, StartWalk(x, c, false)) && LinkedCtx(a1, c, x.slot, 0) && Linked(a1, x, ParentOf(c, 0))
      && DistinctAt(c, x) && a1[x.slot] == p
  {
    hide Order, Before, Behind, Placed, PlacedCtx, Good, StartWalk, LinkedCtx, Linked, SetHole, Text, Pre, Distinct;
    var a0 := a[x.slot := p];
    var a1 := SetHole(a0, c, 0, x.slot);
    ElemOrder(x);
    RegapFacts(a, f, x.rest.gap, 0, ParentOf(c, 0));
    DistinctInsert(c, f, x);
    LinkedCtxFrame(a, a0, c, First(f), 0);
    LinkedSetHole(a0, c, 0, First(f), x.slot);
    HoleSlotBefore(c, 0);
    LinkedFrame(a, a0, x.rest, ParentOf(c, 0));
    SetHoleAgrees(a0, c, 0, x.slot, Order(x.rest));
    SetHoleAgrees(a0, c, 0, x.slot, [x.slot]);
    LinkedFrame(a0, a1, x.rest, ParentOf(c, 0));
    assert a1[x.slot] == p by { assert x.slot in [x.slot]; }
    LinkedCons(a1, x, ParentOf(c, 0));
    StartGood(a1, x, c, false, x.slot);
  }

  lemma LinkedCons(a: seq<ElemPos>, x: Forest, p: nat)
    requires !x.End? && Kids(x).End? && 0 < x.slot < |a| && Linked(a, x.rest, p)
    requires a[x.slot].parent == p && a[x.slot].child == 0 && a[x.slot].next == First(x.rest)
    ensures Linked(a, x, p) && Linked(a, Kids(x), x.slot)
  {
  }

  lemma DistinctInsert(c: Ctx, f: Forest, x: Forest)
    requires DistinctAt(c, f) && !x.End? && Kids(x).End? && Order(x.rest) == Order(f) && Unused(x.slot, c, f)
    ensures DistinctAt(c, x)
  {
    ElemOrder(x);
    assert Order(x) == [x.slot] + Order(f);
    DistinctParts([x.slot], Order(f));
    assert forall s :: s in Order(x) ==> s == x.slot || s in Order(f);
  }

  lemma ElemInserted(a: seq<ElemPos>, p: ElemPos, b: seq<ElemPos>, c: Ctx, f: Forest, x: Forest)
    requires RepAt(a, c, f) && Stands(p, c, x) && x.rest == WithGap(f, x.rest.gap)
    requires Unused(x.slot, c, f) && x.slot < |a|
    requires var a1 := SetHole(a[x.slot := p], c, 0, x.slot);
      b == Apply(a1, Work(x, c, false), |Text(x)| - |Text(f)|) && SameLinks(b, a1)
    ensures RepAt(b, c, x)
  {
    hide Order, Before, Behind, Text, Pre, Apply, Work, Linked, LinkedCtx, Placed, PlacedCtx, CtxMoved, Moved, SetHole, Distinct;
    var n := |Text(x)| - |Text(f)|;
    var a0 := a[x.slot := p];
    var a1 := SetHole(a0, c, 0, x.slot);
    InsertedGood(a, p, c, f, x);
    AdjustMoves(a1, x, c, false, n);
    LinkedSame(a1, b, x, ParentOf(c, 0));
    LinkedCtxSame(a1, b, c, x.slot, 0);
    PlacedCtxFrame(a, a0, c, |Text(f)|, 0);
    PlacedCtxSetHole(a0, c, 0, x.slot, |Text(f)|, 0);
    PlacedFrame(a, a0, f, |Pre(c)|);
    SetHoleOffsets(a0, c, 0, x.slot);
    SameOffsetsPlaced(a0, a1, f, |Pre(c)|);
    RegapFacts(a1, f, x.rest.gap, |Pre(c)|, 0);
    var base := |Pre(c)| + |f.gap| - |x.rest.gap|;
    RegapText(f, x.rest.gap);
    PlacedMoves(a1, b, x.rest, base, n);
    TextWidth(x);
    PlacedCons(b, x, |Pre(c)|);
    RepMoved(a1, b, c, f, x, n);
  }

  lemma PlacedCons(b: seq<ElemPos>, x: Forest, base: int)
    requires !x.End? && Kids(x).End? && x.slot < |b|
    requires match x
      case EmptyElem(_, gap, start, _) => EmptyAt(b[x.slot], base + |gap|, |start|)
      case FullElem(_, gap, start, kids, close, _) => FullAt(b[x.slot], base + |gap|, |start|, |Text(kids)|, |close|)
      case End(_) => false
    requires Placed(b, x.rest, base + |Text(x)| - |Text(x.rest)|)
    ensures Placed(b, x, base)
  {
    TextWidth(x);
  }

  // ---- Adding the first child of an empty element

  /** The empty element `x` split into a start tag, the child `kid` and an end tag. */
  function Split(x: Forest, start: string, kid: Forest, close: string): Forest
    requires x.EmptyElem?
  {
    FullElem(x.slot, x.gap, start, kid, close, x.rest)
  }

  function SplitCtx(c: Ctx, x: Forest, start: string, close: string): Ctx
    requires x.EmptyElem?
  {
    Inside(c, x.slot, x.gap, start, close, x.rest)
  }

  predicate SplitReady(a: seq<ElemPos>, c: Ctx, x: Forest, start: string, kid: Forest, close: string, p: ElemPos, q: ElemPos) {
    && x.EmptyElem? && RepAt(a, c, x)
    && Stands(q, SplitCtx(c, x, start, close), kid) && kid.rest.End?
    && Unused(kid.slot, c, x) && kid.slot < |a| && x.slot < |a|
    && p.parent == a[x.slot].parent && p.next == a[x.slot].next && p.child == kid.slot
  }

  lemma DistinctSplit(c: Ctx, x: Forest, start: string, kid: Forest, close: string)
    requires x.EmptyElem? && DistinctAt(c, x) && !kid.End? && Kids(kid).End? && kid.rest.End? && Unused(kid.slot, c, x)
    ensures DistinctAt(SplitCtx(c, x, start, close), kid) && DistinctAt(c, Split(x, start, kid, close))
    ensures kid.slot != x.slot
  {
    var y := Split(x, start, kid, close);
    ElemOrder(x); ElemOrder(y); ElemOrder(kid);
    assert Order(kid) == [kid.slot];
    SlotApart(c, x);
    assert Order(x) == [x.slot] + Order(x.rest);
    assert forall s :: s in Order(x.rest) ==> s in Order(x);
    DistinctParts([x.slot], Order(x.rest));
    DistinctParts(Before(c), [x.slot]);
    DistinctParts(Order(x.rest), Behind(c));
    DistinctPlug(SplitCtx(c, x, start, close), kid);
    DistinctPlug(c, y);
  }

  lemma SplitGood(a: seq<ElemPos>, c: Ctx, x: Forest, start: string, kid: Forest, close: string, p: ElemPos, q: ElemPos)
    requires SplitReady(a, c, x, start, kid, close, p, q)
    ensures var a1 := a[kid.slot := q][x.slot := p];
      && Good(a1, StartWalk(kid, SplitCtx(c, x, start, close), false))
      && LinkedCtx(a1, SplitCtx(c, x, start, close), kid.slot, 0) && Linked(a1, kid, x.slot) && a1[kid.slot] == q
  {
    hide Order, Before, Behind, Placed, PlacedCtx, Good, StartWalk, Linked, Text, Pre, Distinct, Disjoint;
    var c1 := SplitCtx(c, x, start, close);
    var a1 := a[kid.slot := q][x.slot := p];
    DistinctSplit(c, x, start, kid, close);
    SlotApart(c, x);
    LinkedRest(a, x, ParentOf(c, 0));
    assert Agree(a, a1, Order(x.rest)) by { ElemOrder(x); assert forall s :: s in Order(x.rest) ==> s in Order(x); }
    LinkedFrame(a, a1, x.rest, ParentOf(c, 0));
    LinkedCtxFrame(a, a1, c, x.slot, 0);
    LinkedEnd(a1, kid.rest, x.slot);
    LinkedCons(a1, kid, x.slot);
    StartGood(a1, kid, c1, false, kid.slot);
  }

  lemma LinkedRest(a: seq<ElemPos>, x: Forest, p: nat)
    requires !x.End? && Linked(a, x, p)
    ensures Linked(a, x.rest, p) && 0 < x.slot < |a| && a[x.slot].parent == p && a[x.slot].next == First(x.rest)
  {
  }

  lemma LinkedEnd(a: seq<ElemPos>, f: Forest, p: nat)
    requires f.End?
    ensures Linked(a, f, p)
  {
  }

  lemma ElemSplit(a: seq<ElemPos>, c: Ctx, x: Forest, start: string, kid: Forest, close: string, p: ElemPos, q: ElemPos, b: seq<ElemPos>)
    requires SplitReady(a, c, x, start, kid, close, p, q)
    requires var n := |Text(Split(x, start, kid, close))| - |Text(x)|;
      var a1 := a[kid.slot := q][x.slot := p];
      && FullAt(p.AdjustEnd(n), a[x.slot].startL, |start|, |Text(kid)|, |close|)
      && b == Apply(a1, Work(kid, SplitCtx(c, x, start, close), false), n) && SameLinks(b, a1)
    ensures RepAt(b, c, Split(x, start, kid, close))
  {
    hide Order, Before, Behind, Text, Pre, Apply, Work, Linked, Placed, PlacedCtx, Moved, Distinct, FullAt;
    var y := Split(x, start, kid, close);
    var n := |Text(y)| - |Text(x)|;
    var c1 := SplitCtx(c, x, start, close);
    var a1 := a[kid.slot := q][x.slot := p];
    SplitGood(a, c, x, start, kid, close, p, q);
    DistinctSplit(c, x, start, kid, close);
    AdjustMoves(a1, kid, c1, false, n);
    SlotApart(c, x);
    CtxMovedFrom(a, a1, b, c, n);
    LinkedCtxSame(a1, b, c1, kid.slot, 0);
    LinkedSame(a1, b, kid, x.slot);
    assert Linked(b, y, ParentOf(c, 0)) by { PlugLinkedOnce(b, y, ParentOf(c, 0)); }
    assert Agree(a, a1, Order(x.rest)) by { ElemOrder(x); assert forall s :: s in Order(x.rest) ==> s in Order(x); }
    SplitPlaced(a, a1, b, c, x, y, n);
    RepMoved(a, b, c, x, y, n);
  }

  lemma PlugLinkedOnce(b: seq<ElemPos>, y: Forest, p: nat)
    requires y.FullElem? && 0 < y.slot < |b| && b[y.slot].parent == p && b[y.slot].next == First(y.rest)
    requires b[y.slot].child == First(y.kids) && Linked(b, y.kids, y.slot) && Linked(b, y.rest, p)
    ensures Linked(b, y, p)
  {
  }

  lemma SplitPlaced(a: seq<ElemPos>, a1: seq<ElemPos>, b: seq<ElemPos>, c: Ctx, x: Forest, y: Forest, n: int)
    requires x.EmptyElem? && y.FullElem? && y == Split(x, y.start, y.kids, y.close) && x.slot < |a| == |a1| == |b|
    requires !y.kids.End? && Kids(y.kids).End? && y.kids.rest.End? && y.kids.slot < |a|
    requires Placed(a, x, |Pre(c)|) && n == |Text(y)| - |Text(x)|
    requires Stands(b[y.kids.slot], SplitCtx(c, x, y.start, y.close), y.kids)
    requires Agree(a, a1, Order(x.rest)) && Moved(a1, b, x.rest, n)
    requires FullAt(b[x.slot], a[x.slot].startL, |y.start|, |Text(y.kids)|, |y.close|)
    ensures Placed(b, y, |Pre(c)|)
  {
    hide Order, Text, Pre, Moved;
    var base := |Pre(c)|;
    var at := base + |Text(x)| - |Text(x.rest)|;
    PlacedRest(a, x, base);
    PlacedFrame(a, a1, x.rest, at);
    PlacedMoves(a1, b, x.rest, at, n);
    TextWidth(x); TextWidth(y); TextWidth(y.kids);
    PreWidth(SplitCtx(c, x, y.start, y.close));
    PlacedCons(b, y.kids, base + |y.gap| + |y.start|);
  }
}
