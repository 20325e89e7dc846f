/** Where an edit happens: siblings, the place of a new element among them, and the white
    space that an edit passes over. */
module MarkupPlaces {
  import opened MarkupText
  import opened MarkupGrammar
  import opened MarkupTree
  import opened MarkupAdjust
  import opened MarkupEdits
  import opened MarkupSplice

  // ---- White space in front of the next tag

  /** How far x_LocateNew and x_RemoveElem move on: to the next '<', or to the end, if only
      white space is in between. */
  function SkipTo(s: string): nat {
    var t := FindToken(s);
    if !t.found || (t.l < |s| && s[t.l] == '<') then t.l else 0
  }

  function Blanks(s: string): (n: nat)
    ensures n <= |s| && forall k :: 0 <= k < n ==> s[k] in {' ', '\t', '\n', '\r'}
  {
    if s == "" || s[0] !in {' ', '\t', '\n', '\r'} then 0 else 1 + Blanks(s[1..])
  }

  /** The characters that an edit passes over: the white space up to the next '<' or the end; a quote
      in front of the '<' with it; and nothing if any other character comes first. */
  function Passed(s: string): (n: nat)
    ensures n <= |s|
  {
    var n := Blanks(s);
    if n == |s| || s[n] == '<' then n
    else if s[n] in {'\"', '\''} && n + 1 < |s| && s[n + 1] == '<' then n + 1
    else 0
  }

  lemma {:induction false} BlanksIs(s: string)
    ensures Blanks(s) == FirstNotOf(s, SPACES)
    decreases |s|
  {
    if s != "" { BlanksIs(s[1..]); }
  }

  lemma PassedIs(s: string)
    ensures SkipTo(s) == Passed(s)
  {
    hide FirstOf, FirstNotOf, Blanks, FindToken;
    BlanksIs(s);
    TokenStart(s);
    var k := FirstNotOf(s, SPACES);
    if k < |s| { QuoteIsString(s, k); }
  }

  /** The same for any text: white space `w` and what is behind it. */
  lemma SkipsBlanks(w: string, x: string)
    requires (forall k :: 0 <= k < |w| ==> w[k] in {' ', '\t', '\n', '\r'}) && (x != "" ==> x[0] !in {' ', '\t', '\n', '\r'})
    ensures SkipTo(w + x) ==
      if x == "" || x[0] == '<' then |w| else if |x| >= 2 && x[0] in {'\"', '\''} && x[1] == '<' then |w| + 1 else 0
  {
    hide SkipTo, FindToken, Blanks;
    PassedIs(w + x);
    BlanksIs(w + x);
    FirstNotOfIs(w + x, SPACES, |w|);
  }

  lemma QuoteIsString(s: string, k: nat)
    requires k == FirstNotOf(s, SPACES) < |s|
    ensures FindToken(s).isString <==> s[k] in {'\"', '\''}
  {
    hide FirstOf, FirstNotOf;
  }

  predicate StartsTag(s: string) { s == "" || s[0] == '<' }

  lemma TokenStart(s: string)
    ensures var t, k := FindToken(s), FirstNotOf(s, SPACES);
      if !t.found then t.l == k == |s|
      else k < |s| && t.l == (if t.isString then k + 1 else k) && (t.isString ==> s[k] in {'\"', '\''})
  {
    hide FirstOf, FirstNotOf;
  }

  /** Before the place moved to there is no '<'. */
  lemma SkipPlain(s: string)
    ensures SkipTo(s) <= FirstOf(s, {'<'}) && SkipTo(s) <= |s|
  {
    hide FirstOf, FirstNotOf, FindToken;
    TokenStart(s);
    var n := FirstOf(s, {'<'});
    assert n < |s| ==> s[n] == '<';
    assert n < FirstNotOf(s, SPACES) ==> s[n] in SPACES;
  }

  lemma TextAfterGap(f: Forest)
    requires Tagged(f)
    ensures |f.gap| <= |Text(f)| && StartsTag(Text(f)[|f.gap|..])
    ensures !f.End? ==> |f.gap| < |Text(f)| && Text(f)[|f.gap|] == '<'
  {
    match f
    case End(_) =>
    case EmptyElem(_, gap, start, rest) => assert Text(f) == gap + (start + Text(rest));
    case FullElem(_, gap, start, kids, close, rest) =>
      assert Text(f) == gap + (start + (Text(kids) + (close + Text(rest))));
  }

  lemma {:induction false} PostStartsTag(c: Ctx)
    requires TaggedCtx(c)
    ensures StartsTag(Post(c))
  {
    match c
    case Top =>
    case AfterEmpty(outer, _, _, _) => PostStartsTag(outer);
    case AfterFull(outer, _, _, _, _, _) => PostStartsTag(outer);
    case Inside(_, _, _, _, close, rest) => assert Post(c) == close + (Text(rest) + Post(c.outer));
  }

  /** An edit never moves past the gap it is in. */
  lemma SkipInGap(f: Forest, k: nat, post: string)
    requires Tagged(f) && StartsTag(post) && k <= |f.gap|
    ensures k + SkipTo((Text(f) + post)[k..]) <= |f.gap|
  {
    hide FindToken, FirstOf, SkipTo;
    var s := (Text(f) + post)[k..];
    var n := |f.gap| - k;
    SkipPlain(s);
    TextAfterGap(f);
    assert n < |s| ==> s[n] == '<' by {
      if n < |s| {
        assert s[n] == (Text(f) + post)[|f.gap|];
        if |f.gap| < |Text(f)| { assert Text(f)[|f.gap|] == '<' by { assert Text(f)[|f.gap|..][0] == Text(f)[|f.gap|]; } }
      }
    }
  }

  // ---- Siblings

  /** The slots of the elements at the top level of `f`. */
  function Slots(f: Forest): seq<nat> {
    if f.End? then [] else [f.slot] + Slots(f.rest)
  }

  /** The slots of the siblings in front of the hole of `c`. */
  function Elders(c: Ctx): seq<nat> {
    match c
    case Top => []
    case AfterEmpty(outer, slot, _, _) => Elders(outer) + [slot]
    case AfterFull(outer, slot, _, _, _, _) => Elders(outer) + [slot]
    case Inside(_, _, _, _, _, _) => []
  }

  function Last(o: seq<nat>): nat { if o == [] then 0 else o[|o| - 1] }

  /** `o` is the list of the children of `parent`, linked one to the next. */
  predicate Chain(a: seq<ElemPos>, parent: nat, o: seq<nat>) {
    && parent < |a|
    && a[parent].child == (if o == [] then 0 else o[0])
    && Links(a, o, 0) && Distinct(o)
  }

  predicate Links(a: seq<ElemPos>, o: seq<nat>, next: nat) {
    forall i :: 0 <= i < |o| ==> 0 < o[i] < |a| && a[o[i]].next == NextOf(o, i, next)
  }

  function NextOf(o: seq<nat>, i: nat, next: nat): nat {
    if i + 1 < |o| then o[i + 1] else next
  }

  lemma {:induction false} SlotsLinked(a: seq<ElemPos>, f: Forest, p: nat)
    requires Linked(a, f, p)
    ensures Links(a, Slots(f), 0)
  {
    if !f.End? {
      SlotsLinked(a, f.rest, p);
      assert First(f.rest) == (if Slots(f.rest) == [] then 0 else Slots(f.rest)[0]);
    }
  }

  lemma {:induction false} EldersLinked(a: seq<ElemPos>, c: Ctx, head: nat, root: nat)
    requires LinkedCtx(a, c, head, root)
    ensures Links(a, Elders(c), head) && ParentOf(c, root) < |a|
    ensures a[ParentOf(c, root)].child == (if Elders(c) == [] then head else Elders(c)[0])
  {
    match c
    case Top =>
    case AfterEmpty(outer, slot, _, _) => EldersLinked(a, outer, slot, root);
    case AfterFull(outer, slot, _, _, _, _) => EldersLinked(a, outer, slot, root);
    case Inside(_, _, _, _, _, _) =>
  }

  /** A list of slots that is part of `o` in its order. */
  lemma {:induction false} SlotsDistinct(f: Forest)
    requires Distinct(Order(f))
    ensures Distinct(Slots(f)) && forall s :: s in Slots(f) ==> s in Order(f)
  {
    if !f.End? {
      ElemOrder(f);
      DistinctParts([f.slot] + Order(Kids(f)), Order(f.rest));
      SlotsDistinct(f.rest);
      DistinctParts([f.slot], Slots(f.rest));
      assert forall s :: s in [f.slot] ==> s in [f.slot] + Order(Kids(f));
    }
  }

  lemma {:induction false} EldersDistinct(c: Ctx)
    requires Distinct(Before(c))
    ensures Distinct(Elders(c)) && forall s :: s in Elders(c) ==> s in Before(c)
  {
    match c
    case Top =>
    case AfterEmpty(outer, slot, _, _) =>
      DistinctParts(Before(outer), [slot]);
      EldersDistinct(outer);
      DistinctParts(Elders(outer), [slot]);
    case AfterFull(outer, slot, _, _, kids, _) =>
      DistinctParts(Before(outer), [slot] + Order(kids));
      assert forall s :: s in [slot] ==> s in [slot] + Order(kids);
      EldersDistinct(outer);
      DistinctParts(Elders(outer), [slot]);
    case Inside(_, _, _, _, _, _) =>
  }

  /** The children of the element around a hole: those before it and those in it. */
  lemma SiblingChain(a: seq<ElemPos>, c: Ctx, f: Forest)
    requires RepAt(a, c, f)
    ensures Chain(a, ParentOf(c, 0), Elders(c) + Slots(f))
  {
    hide Order, Before, Behind, Linked, LinkedCtx, Placed, PlacedCtx, Elders, Distinct, Disjoint;
    EldersLinked(a, c, First(f), 0);
    SlotsLinked(a, f, ParentOf(c, 0));
    EldersDistinct(c);
    SlotsDistinct(f);
    assert Distinct(Elders(c) + Slots(f)) by {
      assert Disjoint(Elders(c), Slots(f)) by { DisjointSub(Elders(c), Slots(f), Before(c), Order(f)); }
      DistinctParts(Elders(c), Slots(f));
    }
    LinksJoin(a, Elders(c), Slots(f), First(f));
    var o := Elders(c) + Slots(f);
    assert o == [] || o[0] == (if Elders(c) == [] then First(f) else Elders(c)[0]);
  }

  lemma LinksJoin(a: seq<ElemPos>, p: seq<nat>, q: seq<nat>, head: nat)
    requires Links(a, p, head) && Links(a, q, 0) && head == (if q == [] then 0 else q[0])
    ensures Links(a, p + q, 0)
  {
    var o := p + q;
    forall i | 0 <= i < |o|
      ensures 0 < o[i] < |a| && a[o[i]].next == NextOf(o, i, 0)
    {
      if i < |p| {
        assert o[i] == p[i];
      } else {
        assert o[i] == q[i - |p|];
      }
    }
  }

  lemma DisjointSub(p: seq<nat>, q: seq<nat>, p1: seq<nat>, q1: seq<nat>)
    requires Disjoint(p1, q1) && (forall s :: s in p ==> s in p1) && (forall s :: s in q ==> s in q1)
    ensures Disjoint(p, q)
  {
  }

  // ---- How many elements are at the top level

  lemma {:induction false} PlugRoots(c: Ctx, x: Forest, y: Forest)
    requires |Slots(y)| <= |Slots(x)|
    ensures |Slots(Plug(c, y))| <= |Slots(Plug(c, x))|
  {
    match c
    case Top =>
    case AfterEmpty(outer, slot, gap, start) =>
      PlugRoots(outer, EmptyElem(slot, gap, start, x), EmptyElem(slot, gap, start, y));
    case AfterFull(outer, slot, gap, start, kids, close) =>
      PlugRoots(outer, FullElem(slot, gap, start, kids, close, x), FullElem(slot, gap, start, kids, close, y));
    case Inside(outer, slot, gap, start, close, rest) =>
      PlugRoots(outer, FullElem(slot, gap, start, x, close, rest), FullElem(slot, gap, start, y, close, rest));
  }

  lemma {:induction false} PlugRootsInside(c: Ctx, x: Forest, y: Forest)
    requires ParentOf(c, 0) != 0
    ensures |Slots(Plug(c, y))| == |Slots(Plug(c, x))|
  {
    match c
    case AfterEmpty(outer, slot, gap, start) =>
      PlugRootsInside(outer, EmptyElem(slot, gap, start, x), EmptyElem(slot, gap, start, y));
    case AfterFull(outer, slot, gap, start, kids, close) =>
      PlugRootsInside(outer, FullElem(slot, gap, start, kids, close, x), FullElem(slot, gap, start, kids, close, y));
    case Inside(outer, slot, gap, start, close, rest) =>
      PlugRoots(outer, FullElem(slot, gap, start, x, close, rest), FullElem(slot, gap, start, y, close, rest));
      PlugRoots(outer, FullElem(slot, gap, start, y, close, rest), FullElem(slot, gap, start, x, close, rest));
  }

  lemma SlotsOnce(f: Forest)
    ensures Slots(f) == if f.End? then [] else [f.slot] + Slots(f.rest)
  {
  }

  lemma SameRoots(c: Ctx, x: Forest, y: Forest)
    requires !x.End? && !y.End? && Slots(y.rest) == Slots(x.rest)
    ensures |Slots(Plug(c, y))| <= |Slots(Plug(c, x))|
  {
    hide Slots;
    SlotsOnce(x); SlotsOnce(y);
    PlugRoots(c, x, y);
  }

  lemma RegapSlots(f: Forest, g: string)
    ensures Slots(WithGap(f, g)) == Slots(f)
  {
  }

  // ---- The place of a new element

  function Extend(c: Ctx, x: Forest): Ctx
    requires !x.End?
  {
    match x
    case EmptyElem(slot, gap, start, _) => AfterEmpty(c, slot, gap, start)
    case FullElem(slot, gap, start, kids, close, _) => AfterFull(c, slot, gap, start, kids, close)
  }

  lemma PlugExtend(c: Ctx, x: Forest)
    requires !x.End?
    ensures Plug(Extend(c, x), x.rest) == Plug(c, x) && ParentOf(Extend(c, x), 0) == ParentOf(c, 0)
    ensures Elders(Extend(c, x)) == Elders(c) + [x.slot]
  {
  }

  /** The hole behind the last of the siblings. */
  function LastHole(z: Zipper): (r: Zipper)
    ensures r.focus.End? && Plug(r.ctx, r.focus) == Plug(z.ctx, z.focus)
    ensures ParentOf(r.ctx, 0) == ParentOf(z.ctx, 0)
    ensures Elders(r.ctx) == Elders(z.ctx) + Slots(z.focus)
    decreases z.focus
  {
    if z.focus.End? then z
    else LastHole(Zipper(Extend(z.ctx, z.focus), z.focus.rest))
  }

  /** The hole in front of the first child of `parent`. */
  function FirstHole(f: Forest, parent: nat): (z: Zipper)
    ensures parent == 0 || (parent in Order(f) && !Focus(f, parent).focus.EmptyElem?) ==> Plug(z.ctx, z.focus) == f
    ensures parent == 0 || (parent in Order(f) && !Focus(f, parent).focus.EmptyElem?) ==> ParentOf(z.ctx, 0) == parent
    ensures Elders(z.ctx) == []
  {
    if parent == 0 then Zipper(Top, f)
    else
      var z := Focus(f, parent);
      if z.focus.FullElem? then
        Zipper(Inside(z.ctx, parent, z.focus.gap, z.focus.start, z.focus.close, z.focus.rest), z.focus.kids)
      else Zipper(Top, f)
  }

  /** Where a new element goes: before or after the sibling `rel`; without one, before the
      first child or after the last child of `parent`. */
  function Place(f: Forest, parent: nat, rel: nat, insert: bool): (z: Zipper)
    ensures (rel != 0 && rel in Order(f)) || (rel == 0 && (parent == 0 || (parent in Order(f) && !Focus(f, parent).focus.EmptyElem?)))
        ==> Plug(z.ctx, z.focus) == f
  {
    if rel != 0 && rel in Order(f) then
      var z := Focus(f, rel);
      PlugExtend(z.ctx, z.focus);
      if insert then z else Zipper(Extend(z.ctx, z.focus), z.focus.rest)
    else if insert then FirstHole(f, parent)
    else LastHole(FirstHole(f, parent))
  }

  lemma ExtendWidth(c: Ctx, x: Forest)
    requires !x.End?
    ensures |Pre(Extend(c, x))| == |Pre(c)| + |Text(x)| - |Text(x.rest)|
  {
    TextWidth(x);
    PreWidth(Extend(c, x));
  }

  lemma {:induction false} LastHoleWidth(z: Zipper)
    ensures var r := LastHole(z); |Pre(r.ctx)| + |r.focus.gap| == |Pre(z.ctx)| + |Text(z.focus)|
    decreases z.focus
  {
    hide Pre;
    if !z.focus.End? {
      ExtendWidth(z.ctx, z.focus);
      LastHoleWidth(Zipper(Extend(z.ctx, z.focus), z.focus.rest));
    }
  }

  // ---- The link into a hole, by slot

  lemma {:induction false} EldersBefore(a: seq<ElemPos>, c: Ctx, head: nat)
    requires LinkedCtx(a, c, head, 0)
    ensures forall s :: s in Elders(c) ==> s in Before(c) && 0 < s < |a| && a[s].parent == ParentOf(c, 0)
    ensures ParentOf(c, 0) != 0 ==> ParentOf(c, 0) in Before(c) && ParentOf(c, 0) < |a|
    ensures ParentOf(c, 0) != 0 ==>
      var g := a[ParentOf(c, 0)].parent; g == 0 || g in Before(c)
  {
    match c
    case Top =>
    case AfterEmpty(outer, slot, _, _) => EldersBefore(a, outer, slot);
    case AfterFull(outer, slot, _, _, _, _) => EldersBefore(a, outer, slot);
    case Inside(outer, slot, _, _, _, _) =>
      EldersBefore(a, outer, slot);
      assert slot in [slot];
  }

  /** The link into the hole of `c` is the next-link of the sibling before it, or the
      child-link of the element around it. */
  lemma SetHoleBySlot(a: seq<ElemPos>, c: Ctx, h0: nat, head: nat)
    requires LinkedCtx(a, c, h0, 0)
    ensures ParentOf(c, 0) < |a| && Last(Elders(c)) < |a|
    ensures SetHole(a, c, 0, head)
      == var prev, parent := Last(Elders(c)), ParentOf(c, 0);
         if prev != 0 then a[prev := a[prev].(next := head)] else a[parent := a[parent].(child := head)]
  {
    EldersBefore(a, c, h0);
  }

  lemma HoleLink(a: seq<ElemPos>, c: Ctx, head: nat)
    requires LinkedCtx(a, c, head, 0)
    ensures ParentOf(c, 0) < |a| && Last(Elders(c)) < |a|
    ensures head == (if Last(Elders(c)) != 0 then a[Last(Elders(c))].next else a[ParentOf(c, 0)].child)
  {
    EldersBefore(a, c, head);
    EldersLinked(a, c, head, 0);
    var o := Elders(c);
    if o != [] {
      assert a[o[|o| - 1]].next == NextOf(o, |o| - 1, head);
    }
  }

  // ---- The text after an element

  lemma AfterText(c: Ctx, x: Forest, doc: string)
    requires !x.End? && doc == Text(Plug(c, x))
    ensures var at := |Pre(c)| + |Text(x)| - |Text(x.rest)|;
      0 <= at <= |doc| && doc[at..] == Text(x.rest) + Post(c)
  {
    hide Plug, Pre, Post, Text;
    PlugText(c, x);
    ElemParts(x);
    var e := x.gap + Text(x)[|x.gap|..|Text(x)| - |Text(x.rest)|];
    assert doc == (Pre(c) + e) + (Text(x.rest) + Post(c));
  }

  /** The text from the hole on, `k` characters into its first gap. */
  lemma HoleText(c: Ctx, f: Forest, doc: string, k: nat)
    requires doc == Text(Plug(c, f)) && k <= |f.gap|
    ensures |Pre(c)| + k <= |doc| && k <= |Text(f)| && doc[|Pre(c)| + k..] == (Text(f) + Post(c))[k..]
  {
    hide Plug, Pre, Post, Text;
    PlugText(c, f);
    RegapText(f, f.gap);
    assert doc == Pre(c) + (Text(f) + Post(c));
    assert doc[|Pre(c)| + k..] == doc[|Pre(c)|..][k..];
  }
}
