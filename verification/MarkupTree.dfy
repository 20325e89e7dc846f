/** The index of CMarkupSTL against the document text.
    A `Forest` is the document read as a tree: it keeps every character, and the slot of
    the position array that stands for each element.  `Linked` and `Placed` say that the
    array represents it; a `Ctx` is a forest with a hole, the place of an edit. */
module MarkupTree {
  import opened MarkupText
  import opened MarkupGrammar

  /** ElemPos: where an element's start tag and end tag begin and end, and its links. */
  datatype ElemPos = ElemPos(
    startL: int, startR: int, endL: int, endR: int,
    parent: nat, child: nat, next: nat)
  {
    predicate IsEmptyElement() { startR == endL + 1 }

    function AdjustStart(n: int): ElemPos { this.(startL := startL + n, startR := startR + n) }

    function AdjustEnd(n: int): ElemPos { this.(endL := endL + n, endR := endR + n) }
  }

  const CLEARED := ElemPos(0, 0, 0, 0, 0, 0, 0)

  /** Sibling elements, each with the text before it (`gap`), and the text after them. */
  datatype Forest =
    | End(gap: string)
    | EmptyElem(slot: nat, gap: string, start: string, rest: Forest)
    | FullElem(slot: nat, gap: string, start: string, kids: Forest, close: string, rest: Forest)

  function Text(f: Forest): string {
    match f
    case End(gap) => gap
    case EmptyElem(_, gap, start, rest) => gap + start + Text(rest)
    case FullElem(_, gap, start, kids, close, rest) => gap + start + Text(kids) + (close + Text(rest))
  }

  /** The slots in document order. */
  function Order(f: Forest): seq<nat> {
    match f
    case End(_) => []
    case EmptyElem(slot, _, _, rest) => [slot] + Order(rest)
    case FullElem(slot, _, _, kids, _, rest) => [slot] + Order(kids) + Order(rest)
  }

  /** The slot of the first element, or 0. */
  function First(f: Forest): nat {
    if f.End? then 0 else f.slot
  }

  function Kids(f: Forest): Forest {
    if f.FullElem? then f.kids else End("")
  }

  predicate Linked(a: seq<ElemPos>, f: Forest, parent: nat) {
    f.End? ||
    (&& 0 < f.slot < |a|
     && a[f.slot].parent == parent && a[f.slot].next == First(f.rest)
     && a[f.slot].child == First(Kids(f))
     && (f.FullElem? ==> Linked(a, f.kids, f.slot))
     && Linked(a, f.rest, parent))
  }

  /** The offsets of the elements of `f` when its text starts at `base`. */
  predicate Placed(a: seq<ElemPos>, f: Forest, base: int) {
    match f
    case End(_) => true
    case EmptyElem(slot, gap, start, rest) =>
      slot < |a| && EmptyAt(a[slot], base + |gap|, |start|) && Placed(a, rest, base + |gap| + |start|)
    case FullElem(slot, gap, start, kids, close, rest) =>
      && slot < |a|
      && FullAt(a[slot], base + |gap|, |start|, |Text(kids)|, |close|)
      && Placed(a, kids, base + |gap| + |start|)
      && Placed(a, rest, base + |gap| + |start| + |Text(kids)| + |close|)
  }

  predicate EmptyAt(p: ElemPos, at: int, width: int) {
    p.startL == at && p.startR == at + width - 1 && p.endL == p.startR - 1 && p.endR == p.startR
  }

  predicate FullAt(p: ElemPos, at: int, start: int, inner: int, close: int) {
    && p.startL == at && p.startR == at + start - 1
    && p.endL == at + start + inner && p.endR == at + start + inner + close - 1
  }

  /** The characters that the four offsets of an element point at. */
  predicate Tagged(f: Forest) {
    match f
    case End(_) => true
    case EmptyElem(_, _, start, rest) => TagText(start) && EmptyTag(start) && Tagged(rest)
    case FullElem(_, _, start, kids, close, rest) =>
      TagText(start) && TagText(close) && Tagged(kids) && Tagged(rest)
  }

  predicate TagText(t: string) {
    |t| >= 2 && t[0] == '<' && t[|t| - 1] == '>'
  }

  /** Every tag, and every gap below the top level, is one that the parser reads as such;
      with `strict`, the gaps at the top level too. */
  predicate WellFormed(f: Forest, strict: bool) {
    match f
    case End(gap) => strict ==> ValidGap(gap)
    case EmptyElem(_, gap, start, rest) =>
      (strict ==> ValidGap(gap)) && ValidStart(start) && EmptyTag(start) && WellFormed(rest, strict)
    case FullElem(_, gap, start, kids, close, rest) =>
      && (strict ==> ValidGap(gap)) && ValidStart(start) && !EmptyTag(start) && WellFormed(kids, true)
      && ValidClose(close, TagName(start)) && WellFormed(rest, strict)
  }

  /** A document as the parser takes it: text it passes over, and one well-formed root; what is
      behind the root it does not look at. */
  predicate RootForm(f: Forest) {
    !f.End? && f.rest.End? && ValidGap(f.gap) && WellFormed(f, false)
  }

  // ---- Forests with a hole

  datatype Ctx =
    | Top
    | AfterEmpty(outer: Ctx, slot: nat, gap: string, start: string)
    | AfterFull(outer: Ctx, slot: nat, gap: string, start: string, kids: Forest, close: string)
    | Inside(outer: Ctx, slot: nat, gap: string, start: string, close: string, rest: Forest)

  function Plug(c: Ctx, f: Forest): Forest {
    match c
    case Top => f
    case AfterEmpty(outer, slot, gap, start) => Plug(outer, EmptyElem(slot, gap, start, f))
    case AfterFull(outer, slot, gap, start, kids, close) => Plug(outer, FullElem(slot, gap, start, kids, close, f))
    case Inside(outer, slot, gap, start, close, rest) => Plug(outer, FullElem(slot, gap, start, f, close, rest))
  }

  /** The text before the hole. */
  function Pre(c: Ctx): string {
    match c
    case Top => ""
    case AfterEmpty(outer, _, gap, start) => Pre(outer) + (gap + start)
    case AfterFull(outer, _, gap, start, kids, close) => Pre(outer) + (gap + start + Text(kids) + close)
    case Inside(outer, _, gap, start, _, _) => Pre(outer) + (gap + start)
  }

  /** The text after the hole. */
  function Post(c: Ctx): string {
    match c
    case Top => ""
    case AfterEmpty(outer, _, _, _) => Post(outer)
    case AfterFull(outer, _, _, _, _, _) => Post(outer)
    case Inside(outer, _, _, _, close, rest) => (close + Text(rest)) + Post(outer)
  }

  /** The slots before the hole in document order: those of the elements around it too. */
  function Before(c: Ctx): seq<nat> {
    match c
    case Top => []
    case AfterEmpty(outer, slot, _, _) => Before(outer) + [slot]
    case AfterFull(outer, slot, _, _, kids, _) => Before(outer) + ([slot] + Order(kids))
    case Inside(outer, slot, _, _, _, _) => Before(outer) + [slot]
  }

  /** The slots after the hole in document order. */
  function Behind(c: Ctx): seq<nat> {
    match c
    case Top => []
    case AfterEmpty(outer, _, _, _) => Behind(outer)
    case AfterFull(outer, _, _, _, _, _) => Behind(outer)
    case Inside(outer, _, _, _, _, rest) => Order(rest) + Behind(outer)
  }

  /** The element the hole is in; `root` when it is in none. */
  function ParentOf(c: Ctx, root: nat): nat {
    match c
    case Top => root
    case AfterEmpty(outer, _, _, _) => ParentOf(outer, root)
    case AfterFull(outer, _, _, _, _, _) => ParentOf(outer, root)
    case Inside(_, slot, _, _, _, _) => slot
  }

  /** The links around a hole whose first element is `head`. */
  predicate LinkedCtx(a: seq<ElemPos>, c: Ctx, head: nat, root: nat) {
    match c
    case Top => root < |a| && a[root].child == head
    case AfterEmpty(outer, slot, _, _) =>
      && 0 < slot < |a| && a[slot].parent == ParentOf(outer, root)
      && a[slot].child == 0 && a[slot].next == head && LinkedCtx(a, outer, slot, root)
    case AfterFull(outer, slot, _, _, kids, _) =>
      && 0 < slot < |a| && a[slot].parent == ParentOf(outer, root)
      && a[slot].child == First(kids) && Linked(a, kids, slot) && a[slot].next == head
      && LinkedCtx(a, outer, slot, root)
    case Inside(outer, slot, _, _, _, rest) =>
      && 0 < slot < |a| && a[slot].parent == ParentOf(outer, root)
      && a[slot].child == head && a[slot].next == First(rest) && Linked(a, rest, ParentOf(outer, root))
      && LinkedCtx(a, outer, slot, root)
  }

  /** The offsets around a hole filled with `width` characters. */
  predicate PlacedCtx(a: seq<ElemPos>, c: Ctx, width: nat, base: int)
    decreases c
  {
    match c
    case Top => true
    case AfterEmpty(outer, slot, gap, start) =>
      && slot < |a| && EmptyAt(a[slot], base + |Pre(outer)| + |gap|, |start|)
      && PlacedCtx(a, outer, |gap| + |start| + width, base)
    case AfterFull(outer, slot, gap, start, kids, close) =>
      && slot < |a| && FullAt(a[slot], base + |Pre(outer)| + |gap|, |start|, |Text(kids)|, |close|)
      && Placed(a, kids, base + |Pre(outer)| + |gap| + |start|)
      && PlacedCtx(a, outer, |gap| + |start| + |Text(kids)| + |close| + width, base)
    case Inside(outer, slot, gap, start, close, rest) =>
      && slot < |a| && FullAt(a[slot], base + |Pre(outer)| + |gap|, |start|, width, |close|)
      && Placed(a, rest, base + |Pre(outer)| + |gap| + |start| + width + |close|)
      && PlacedCtx(a, outer, |gap| + |start| + width + |close| + |Text(rest)|, base)
  }

  predicate TaggedCtx(c: Ctx) {
    match c
    case Top => true
    case AfterEmpty(outer, _, _, start) => TagText(start) && EmptyTag(start) && TaggedCtx(outer)
    case AfterFull(outer, _, _, start, kids, close) =>
      TagText(start) && TagText(close) && Tagged(kids) && TaggedCtx(outer)
    case Inside(outer, _, _, start, close, rest) =>
      TagText(start) && TagText(close) && Tagged(rest) && TaggedCtx(outer)
  }

  /** Whether the gaps in the hole of `c` must be valid. */
  predicate Strict(c: Ctx, strict: bool) {
    match c
    case Top => strict
    case AfterEmpty(outer, _, _, _) => Strict(outer, strict)
    case AfterFull(outer, _, _, _, _, _) => Strict(outer, strict)
    case Inside(_, _, _, _, _, _) => true
  }

  predicate WellFormedCtx(c: Ctx, strict: bool) {
    match c
    case Top => true
    case AfterEmpty(outer, _, gap, start) =>
      && (Strict(outer, strict) ==> ValidGap(gap)) && ValidStart(start) && EmptyTag(start)
      && WellFormedCtx(outer, strict)
    case AfterFull(outer, _, gap, start, kids, close) =>
      && (Strict(outer, strict) ==> ValidGap(gap)) && ValidStart(start) && !EmptyTag(start)
      && WellFormed(kids, true) && ValidClose(close, TagName(start)) && WellFormedCtx(outer, strict)
    case Inside(outer, _, gap, start, close, rest) =>
      && (Strict(outer, strict) ==> ValidGap(gap)) && ValidStart(start) && !EmptyTag(start)
      && ValidClose(close, TagName(start)) && WellFormed(rest, Strict(outer, strict))
      && WellFormedCtx(outer, strict)
  }

  lemma Regroup<T>(p: seq<T>, q: seq<T>, r: seq<T>, s: seq<T>, t: seq<T>)
    ensures p + (q + r) + t == (p + q) + r + t
    ensures p + (q + r + s) + t == (p + q) + r + (s + t)
  {
  }

  lemma {:induction false} PlugText(c: Ctx, f: Forest)
    ensures Text(Plug(c, f)) == Pre(c) + Text(f) + Post(c)
  {
    match c
    case Top =>
    case AfterEmpty(outer, slot, gap, start) =>
      PlugText(outer, EmptyElem(slot, gap, start, f));
      Regroup(Pre(outer), gap + start, Text(f), "", Post(outer));
    case AfterFull(outer, slot, gap, start, kids, close) =>
      PlugText(outer, FullElem(slot, gap, start, kids, close, f));
      var t := gap + start + Text(kids);
      assert t + (close + Text(f)) == (t + close) + Text(f);
      Regroup(Pre(outer), t + close, Text(f), "", Post(outer));
    case Inside(outer, slot, gap, start, close, rest) =>
      PlugText(outer, FullElem(slot, gap, start, f, close, rest));
      Regroup(Pre(outer), gap + start, Text(f), close + Text(rest), Post(outer));
  }

  lemma {:induction false} PlugOrder(c: Ctx, f: Forest)
    ensures Order(Plug(c, f)) == Before(c) + Order(f) + Behind(c)
  {
    match c
    case Top =>
    case AfterEmpty(outer, slot, gap, start) =>
      PlugOrder(outer, EmptyElem(slot, gap, start, f));
      Regroup(Before(outer), [slot], Order(f), [], Behind(outer));
    case AfterFull(outer, slot, gap, start, kids, close) =>
      PlugOrder(outer, FullElem(slot, gap, start, kids, close, f));
      Regroup(Before(outer), [slot] + Order(kids), Order(f), [], Behind(outer));
    case Inside(outer, slot, gap, start, close, rest) =>
      PlugOrder(outer, FullElem(slot, gap, start, f, close, rest));
      Regroup(Before(outer), [slot], Order(f), Order(rest), Behind(outer));
  }

  lemma {:induction false} PlugLinked(a: seq<ElemPos>, c: Ctx, f: Forest, root: nat)
    ensures (root < |a| && a[root].child == First(Plug(c, f)) && Linked(a, Plug(c, f), root))
       <==> (LinkedCtx(a, c, First(f), root) && Linked(a, f, ParentOf(c, root)))
    ensures Linked(a, Plug(c, f), root) ==> Linked(a, f, ParentOf(c, root))
  {
    match c
    case Top =>
    case AfterEmpty(outer, slot, gap, start) =>
      PlugLinked(a, outer, EmptyElem(slot, gap, start, f), root);
    case AfterFull(outer, slot, gap, start, kids, close) =>
      PlugLinked(a, outer, FullElem(slot, gap, start, kids, close, f), root);
    case Inside(outer, slot, gap, start, close, rest) =>
      PlugLinked(a, outer, FullElem(slot, gap, start, f, close, rest), root);
  }

  lemma TextWidth(f: Forest)
    ensures f.EmptyElem? ==> |Text(f)| == |f.gap| + |f.start| + |Text(f.rest)|
    ensures f.FullElem? ==> |Text(f)| == |f.gap| + |f.start| + |Text(f.kids)| + |f.close| + |Text(f.rest)|
  {
  }

  lemma PreWidth(c: Ctx)
    ensures c.AfterEmpty? || c.Inside? ==> |Pre(c)| == |Pre(c.outer)| + |c.gap| + |c.start|
    ensures c.AfterFull? ==> |Pre(c)| == |Pre(c.outer)| + |c.gap| + |c.start| + |Text(c.kids)| + |c.close|
  {
  }

  lemma {:induction false} PlugPlaced(a: seq<ElemPos>, c: Ctx, f: Forest, base: int)
    ensures Placed(a, Plug(c, f), base)
       <==> PlacedCtx(a, c, |Text(f)|, base) && Placed(a, f, base + |Pre(c)|)
  {
    hide Text, Pre, EmptyAt, FullAt;
    PreWidth(c);
    match c
    case Top => assert |Pre(c)| == 0 by { PreTop(); }
    case AfterEmpty(outer, slot, gap, start) =>
      TextWidth(EmptyElem(slot, gap, start, f));
      PlugPlaced(a, outer, EmptyElem(slot, gap, start, f), base);
    case AfterFull(outer, slot, gap, start, kids, close) =>
      TextWidth(FullElem(slot, gap, start, kids, close, f));
      PlugPlaced(a, outer, FullElem(slot, gap, start, kids, close, f), base);
    case Inside(outer, slot, gap, start, close, rest) =>
      TextWidth(FullElem(slot, gap, start, f, close, rest));
      PlugPlaced(a, outer, FullElem(slot, gap, start, f, close, rest), base);
  }

  lemma PreTop()
    ensures Pre(Top) == "" && Post(Top) == ""
  {
  }

  lemma {:induction false} PlugTagged(c: Ctx, f: Forest)
    ensures Tagged(Plug(c, f)) <==> TaggedCtx(c) && Tagged(f)
  {
    hide TagText, EmptyTag;
    match c
    case Top =>
    case AfterEmpty(outer, slot, gap, start) =>
      PlugTagged(outer, EmptyElem(slot, gap, start, f));
    case AfterFull(outer, slot, gap, start, kids, close) =>
      PlugTagged(outer, FullElem(slot, gap, start, kids, close, f));
    case Inside(outer, slot, gap, start, close, rest) =>
      PlugTagged(outer, FullElem(slot, gap, start, f, close, rest));
  }

  lemma {:induction false} PlugWellFormed(c: Ctx, f: Forest, strict: bool)
    ensures WellFormed(Plug(c, f), strict) <==> WellFormedCtx(c, strict) && WellFormed(f, Strict(c, strict))
  {
    hide ValidGap, ValidStart, ValidClose, EmptyTag, TagName;
    match c
    case Top =>
    case AfterEmpty(outer, slot, gap, start) =>
      PlugWellFormed(outer, EmptyElem(slot, gap, start, f), strict);
    case AfterFull(outer, slot, gap, start, kids, close) =>
      PlugWellFormed(outer, FullElem(slot, gap, start, kids, close, f), strict);
    case Inside(outer, slot, gap, start, close, rest) =>
      PlugWellFormed(outer, FullElem(slot, gap, start, f, close, rest), strict);
  }

  /** What is put into a hole does not change the text before the first element, unless it is
      the first element. */
  lemma {:induction false} PlugGap(c: Ctx, x: Forest, y: Forest)
    ensures c.Top? ==> Plug(c, x) == x && Plug(c, y) == y
    ensures !c.Top? || x.gap == y.gap ==> Plug(c, x).gap == Plug(c, y).gap
  {
    match c
    case Top =>
    case AfterEmpty(outer, slot, gap, start) =>
      PlugGap(outer, EmptyElem(slot, gap, start, x), EmptyElem(slot, gap, start, y));
    case AfterFull(outer, slot, gap, start, kids, close) =>
      PlugGap(outer, FullElem(slot, gap, start, kids, close, x), FullElem(slot, gap, start, kids, close, y));
    case Inside(outer, slot, gap, start, close, rest) =>
      PlugGap(outer, FullElem(slot, gap, start, x, close, rest), FullElem(slot, gap, start, y, close, rest));
  }

  // ---- Finding an element

  datatype Zipper = Zipper(ctx: Ctx, focus: Forest)

  /** The element of slot `s` in Plug(c, f), looked for in `f`. */
  function Find(f: Forest, c: Ctx, s: nat): (z: Zipper)
    ensures s in Order(f) ==> !z.focus.End? && z.focus.slot == s
    ensures Plug(z.ctx, z.focus) == Plug(c, f)
  {
    if f.End? || f.slot == s then Zipper(c, f)
    else if f.EmptyElem? then Find(f.rest, AfterEmpty(c, f.slot, f.gap, f.start), s)
    else if s in Order(f.kids) then Find(f.kids, Inside(c, f.slot, f.gap, f.start, f.close, f.rest), s)
    else Find(f.rest, AfterFull(c, f.slot, f.gap, f.start, f.kids, f.close), s)
  }

  function Focus(f: Forest, s: nat): (z: Zipper)
    ensures s in Order(f) ==> !z.focus.End? && z.focus.slot == s
    ensures Plug(z.ctx, z.focus) == f
  {
    Find(f, Top, s)
  }

  /** Slot numbers left out: what two readings of the same text have in common. */
  function Erase(f: Forest): Forest {
    match f
    case End(gap) => End(gap)
    case EmptyElem(_, gap, start, rest) => EmptyElem(0, gap, start, Erase(rest))
    case FullElem(_, gap, start, kids, close, rest) => FullElem(0, gap, start, Erase(kids), close, Erase(rest))
  }

  lemma {:induction false} EraseText(f: Forest)
    ensures Text(Erase(f)) == Text(f)
  {
    match f
    case End(gap) =>
    case EmptyElem(_, gap, start, rest) => EraseText(rest);
    case FullElem(_, gap, start, kids, close, rest) => EraseText(kids); EraseText(rest);
  }
}
