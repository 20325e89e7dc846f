/** What x_AddElem makes of the document read as a tree. */
module MarkupAdd {
  import opened MarkupText
  import opened MarkupGrammar
  import opened MarkupTree
  import opened MarkupAdjust
  import opened MarkupEdits
  import opened MarkupEntities
  import opened MarkupSplice
  import opened MarkupPlaces
  import opened MarkupTags
  import opened MarkupAttribs
  import opened MarkupValid

  const CRLF := "\r\n"

  /** The new element: empty without a value. */
  function NewElem(slot: nat, gap: string, name: string, value: string, rest: Forest): (x: Forest)
    ensures !x.End? && x.slot == slot && x.gap == gap && x.rest == rest && Kids(x).End?
  {
    if value == "" then EmptyElem(slot, gap, "<" + name + "/>", rest)
    else FullElem(slot, gap, "<" + name + ">", End(ToDoc(value, false)), CloseTag(name), rest)
  }

  function NewText(name: string, value: string): string {
    if value == "" then "<" + name + "/>" else "<" + name + ">" + ToDoc(value, false) + "</" + name + ">"
  }

  lemma NewElemText(slot: nat, gap: string, name: string, value: string, rest: Forest)
    ensures Text(NewElem(slot, gap, name, value, rest)) == gap + NewText(name, value) + Text(rest)
  {
    hide ToDoc;
    if value != "" {
      var s, v, c := "<" + name + ">", ToDoc(value, false), CloseTag(name);
      assert Text(End(v)) == v;
      assert NewText(name, value) == s + v + c;
      assert gap + s + v + (c + Text(rest)) == gap + (s + v + c) + Text(rest);
    }
  }

  lemma NewElemTags(slot: nat, gap: string, name: string, value: string, rest: Forest)
    requires PlainName(name)
    ensures var x := NewElem(slot, gap, name, value, rest);
      && (Tagged(x) <==> Tagged(rest))
      && forall strict :: WellFormed(x, strict) <==> (strict ==> ValidGap(gap)) && WellFormed(rest, strict)
  {
    hide ValidGap, ValidStart, ValidClose, TagName, EmptyTag, ClosedTag, ToDoc;
    NewTags(name);
    if value != "" {
      ToDocClean(value, false);
      PlainGap(ToDoc(value, false));
    }
    var s := "<" + name + "/>";
    assert TagText("<" + name + ">") && TagText(s) && TagText(CloseTag(name)) by { assert s[|s| - 1] == '>'; }
  }

  // ---- Among the children of an element, or as the root

  /** Where in the gap before the place `z` x_LocateNew starts to look for white space. */
  function LookFrom(z: Zipper, parent: nat, rel: nat, insert: bool): nat {
    if (rel != 0) == insert then |z.focus.gap| else if parent == 0 && insert then 1 else 0
  }

  /** How much of the gap before the place stays before the new element. */
  function NewGap(z: Zipper, from: nat): nat {
    if from <= |Text(z.focus) + Post(z.ctx)| then from + SkipTo((Text(z.focus) + Post(z.ctx))[from..]) else from
  }

  /** The siblings `f` with a new element in front, `k` characters into their gap. */
  function Inserted(f: Forest, k: nat, slot: nat, name: string, value: string): Forest
    requires k <= |f.gap|
  {
    NewElem(slot, f.gap[..k], name, value, WithGap(f, CRLF + f.gap[k..]))
  }

  /** The document after x_AddElem. */
  function Added(f: Forest, slot: nat, parent: nat, rel: nat, insert: bool, name: string, value: string): Forest {
    if parent != 0 && Focus(f, parent).focus.EmptyElem? && |Focus(f, parent).focus.start| >= 2 then
      var z := Focus(f, parent);
      Plug(z.ctx, SplitElem(z.focus, slot, name, value))
    else
      var z := Place(f, parent, rel, insert);
      var k := NewGap(z, LookFrom(z, parent, rel, insert));
      if k <= |z.focus.gap| then Plug(z.ctx, Inserted(z.focus, k, slot, name, value)) else f
  }

  /** An empty element with the new element as its only child. */
  function SplitElem(x: Forest, slot: nat, name: string, value: string): Forest
    requires x.EmptyElem? && |x.start| >= 2
  {
    Split(x, OpenTag(x.start), NewElem(slot, CRLF, name, value, End(CRLF)), CloseTag(TagName(x.start)))
  }

  /** The new element is linked in between the siblings before and behind its place. */
  lemma InsertedSlots(z: Zipper, k: nat, slot: nat, name: string, value: string)
    requires k <= |z.focus.gap|
    ensures Slots(Inserted(z.focus, k, slot, name, value)) == [slot] + Slots(z.focus)
  {
    hide NewElem, ToDoc;
    RegapSlots(z.focus, CRLF + z.focus.gap[k..]);
  }

  /** Where the place of a new element is among the children of its parent: just before or
      just after `rel`; without one, in front or at the end. */
  lemma PlaceAmong(f: Forest, parent: nat, rel: nat, insert: bool)
    requires if rel != 0 then rel in Order(f) else parent == 0 || (parent in Order(f) && Focus(f, parent).focus.FullElem?)
    ensures var z := Place(f, parent, rel, insert);
      && Plug(z.ctx, z.focus) == f
      && (rel != 0 && insert ==> Slots(z.focus) != [] && Slots(z.focus)[0] == rel)
      && (rel != 0 && !insert ==> Last(Elders(z.ctx)) == rel)
      && (rel == 0 && insert ==> Elders(z.ctx) == [])
      && (rel == 0 && !insert ==> Slots(z.focus) == [])
      && (rel == 0 ==> ParentOf(z.ctx, 0) == parent)
      && (rel != 0 ==> ParentOf(z.ctx, 0) == ParentOf(Focus(f, rel).ctx, 0))
  {
    if rel != 0 {
      PlugExtend(Focus(f, rel).ctx, Focus(f, rel).focus);
    }
  }

  lemma InsertedText(f: Forest, k: nat, slot: nat, name: string, value: string)
    requires k <= |f.gap|
    ensures var x := Inserted(f, k, slot, name, value);
      && Text(x) == x.gap + NewText(name, value) + Text(x.rest)
      && |Text(x)| == |Text(f)| + |NewText(name, value)| + 2
  {
    hide Text, NewText, ToDoc, NewElem;
    NewElemText(slot, f.gap[..k], name, value, WithGap(f, CRLF + f.gap[k..]));
    RegapText(f, CRLF + f.gap[k..]);
  }

  /** The text of the document with the new element in it. */
  lemma AddedText(c: Ctx, f: Forest, doc: string, k: nat, slot: nat, name: string, value: string)
    requires doc == Text(Plug(c, f)) && k <= |f.gap|
    ensures |Pre(c)| + k <= |doc|
    ensures Text(Plug(c, Inserted(f, k, slot, name, value))) == Splice(doc, |Pre(c)| + k, 0, NewText(name, value) + CRLF)
  {
    hide Text, Plug, Pre, NewText, ToDoc, NewElem;
    InsertedText(f, k, slot, name, value);
    SpliceInsert(c, f, Inserted(f, k, slot, name, value), doc, k, NewText(name, value), CRLF);
  }

  /** The split gap: what stays before the new element and what comes behind it. */
  predicate GapSplits(g: string, k: nat)
    requires k <= |g|
  {
    ValidGap(g[..k]) && ValidGap(CRLF + g[k..])
  }

  lemma AddedKeeps(c: Ctx, f: Forest, k: nat, slot: nat, name: string, value: string, strict: bool)
    requires k <= |f.gap| && PlainName(name) && WellFormed(Plug(c, f), strict) && Tagged(Plug(c, f))
    ensures var g := Plug(c, Inserted(f, k, slot, name, value));
      && Tagged(g)
      && (WellFormed(g, strict) <==> (Strict(c, strict) ==> GapSplits(f.gap, k)))
  {
    hide Plug, ValidGap, ToDoc, NewElem, Tagged;
    var r := WithGap(f, CRLF + f.gap[k..]);
    PlugTagged(c, f); PlugTagged(c, Inserted(f, k, slot, name, value));
    PlugWellFormed(c, f, strict); PlugWellFormed(c, Inserted(f, k, slot, name, value), strict);
    NewElemTags(slot, f.gap[..k], name, value, r);
    RegapForm(f, CRLF + f.gap[k..], Strict(c, strict));
  }

  lemma RegapForm(f: Forest, g: string, strict: bool)
    ensures Tagged(WithGap(f, g)) <==> Tagged(f)
    ensures WellFormed(f, strict) ==> (WellFormed(WithGap(f, g), strict) <==> (strict ==> ValidGap(g)))
    ensures WellFormed(f, true) ==> ValidGap(f.gap)
  {
    hide ValidGap, ValidStart, ValidClose, TagName, EmptyTag, TagText;
  }

  /** A gap can be split at its end, and where only white space is before the place. */
  lemma {:induction false} PlainSplits(g: string, k: nat)
    requires ValidGap(g) && k <= |g| && (k == |g| || forall i :: 0 <= i < k ==> g[i] != '<')
    ensures GapSplits(g, k)
  {
    hide ValidGap;
    PlainGap(CRLF);
    if k == |g| {
      assert g[..k] == g && CRLF + g[k..] == CRLF;
    } else {
      assert g == g[..k] + g[k..];
      PlainGap(g[..k]);
      SplitTail(g[..k], g[k..]);
    }
  }

  lemma SplitTail(p: string, q: string)
    requires ValidGap(p + q) && forall i :: 0 <= i < |p| ==> p[i] != '<'
    ensures ValidGap(CRLF + q)
  {
    hide ValidGap;
    PlainPrefix(p, q);
    PlainPrefix(CRLF, q);
  }

  /** The place in the gap, as far as x_LocateNew moves it. */
  lemma NewGapFacts(z: Zipper, from: nat)
    requires Tagged(z.focus) && TaggedCtx(z.ctx) && from <= |z.focus.gap|
    ensures from <= |Text(z.focus) + Post(z.ctx)| && from <= NewGap(z, from) <= |z.focus.gap|
    ensures forall i :: from <= i < NewGap(z, from) ==> z.focus.gap[i] != '<'
    ensures from == |z.focus.gap| ==> NewGap(z, from) == from
  {
    hide Text, Post, Tagged, TaggedCtx, FirstOf, SkipTo;
    PostStartsTag(z.ctx);
    RegapText(z.focus, z.focus.gap);
    SkipInGap(z.focus, from, Post(z.ctx));
    var s := (Text(z.focus) + Post(z.ctx))[from..];
    SkipPlain(s);
    assert forall i :: from <= i < |z.focus.gap| ==> s[i - from] == z.focus.gap[i];
  }

  /** Every new place but that of InsertElem for the root splits its gap. */
  lemma PlaceSplits(z: Zipper, parent: nat, rel: nat, insert: bool)
    requires Tagged(z.focus) && TaggedCtx(z.ctx) && ValidGap(z.focus.gap)
    requires LookFrom(z, parent, rel, insert) <= |z.focus.gap| && !(parent == 0 && rel == 0 && insert)
    ensures NewGap(z, LookFrom(z, parent, rel, insert)) <= |z.focus.gap|
    ensures GapSplits(z.focus.gap, NewGap(z, LookFrom(z, parent, rel, insert)))
  {
    hide NewGap, Tagged, TaggedCtx, ValidGap, GapSplits;
    var from := LookFrom(z, parent, rel, insert);
    NewGapFacts(z, from);
    PlainSplits(z.focus.gap, NewGap(z, from));
  }

  /** InsertElem for the root puts it at offset 1 (or behind the white space there): the
      document stays well formed exactly if it does not begin with a '<'. */
  lemma InsertRoot(doc: string, slot: nat, name: string, value: string)
    requires ValidGap(doc) && doc != "" && PlainName(name)
    ensures WellFormed(Added(End(doc), slot, 0, 0, true, name, value), true) <==> doc[0] != '<'
  {
    hide ValidGap, ToDoc, FindToken, NewElem, Added, WellFormed, GapSplits;
    var f := End(doc);
    var z := Zipper(Top, f);
    AddedAtRoot(doc, slot, name, value, true);
    var k := NewGap(z, 1);
    NewGapFacts(z, 1);
    EndForm(doc);
    assert Plug(Top, f) == f;
    AddedKeeps(Top, f, k, slot, name, value, true);
    if doc[0] == '<' {
      RootSplit(doc, k);
    } else {
      PlainSplits(doc, k);
    }
  }

  /** The place at which InsertElem of a root hands the new text to x_DocChange, to replace nothing
      there: it is behind the end, so that the replacement cannot be made, exactly if the
      document is empty. */
  lemma InsertRootOffset(doc: string)
    ensures var z := Place(End(doc), 0, 0, true);
      var nLeft, nReplace := NewGap(z, LookFrom(z, 0, 0, true)), 0;
      nLeft + nReplace <= |doc| <==> doc != ""
  {
    hide FindToken;
    var z := Place(End(doc), 0, 0, true);
    assert z == Zipper(Top, End(doc)) && LookFrom(z, 0, 0, true) == 1;
    assert Text(End(doc)) + Post(Top) == doc by { assert doc + "" == doc; }
    SkipInside(doc);
  }

  lemma SkipInside(s: string)
    ensures s != "" ==> 1 + SkipTo(s[1..]) <= |s|
  {
    hide FindToken;
  }

  lemma EndForm(g: string)
    ensures forall strict :: WellFormed(End(g), strict) <==> (strict ==> ValidGap(g))
    ensures Tagged(End(g)) && TaggedCtx(Top)
  {
  }

  lemma AddedAtRoot(doc: string, slot: nat, name: string, value: string, insert: bool)
    requires insert ==> doc != ""
    ensures var z := Zipper(Top, End(doc));
      var k := NewGap(z, if insert then 1 else |doc|);
      && Place(End(doc), 0, 0, insert) == z
      && Added(End(doc), slot, 0, 0, insert, name, value)
         == if k <= |doc| then Plug(Top, Inserted(End(doc), k, slot, name, value)) else End(doc)
  {
    hide NewGap, NewElem, ToDoc;
  }

  lemma {:induction false} RootSplit(doc: string, k: nat)
    requires ValidGap(doc) && doc != "" && doc[0] == '<' && 1 <= k <= |doc|
    requires k == NewGap(Zipper(Top, End(doc)), 1)
    ensures !GapSplits(doc, k)
  {
    hide FindToken, DocTypeEnd, FindStr;
    FirstOfIs(doc, {'<'}, 0);
    assert doc[0..] == doc;
    NodeStarts(doc);
    var s := doc[1..];
    assert s[0] == doc[1];
    FindTokenSpecial(s);
    assert Text(End(doc)) + Post(Top) == doc;
    assert k == 1;
    assert doc[..1] == "<";
    FirstOfIs("<", {'<'}, 0);
    assert "<"[0..] == "<";
  }

  /** The position of the new element at offset `at`. */
  function NewPos(at: int, name: string, value: string, parent: nat, next: nat): ElemPos {
    if value == "" then
      var r := at + |name| + 2;
      ElemPos(at, r, r - 1, r, parent, 0, next)
    else
      var r := at + |name| + 1;
      var l := r + |ToDoc(value, false)| + 1;
      ElemPos(at, r, l, l + |name| + 2, parent, 0, next)
  }

  /** The links from `parent` or the sibling `prev` to the new element `slot`. */
  function LinkedIn(a: seq<ElemPos>, slot: nat, p: ElemPos, parent: nat, prev: nat): seq<ElemPos>
    requires slot < |a| && parent < |a| && prev < |a|
  {
    if prev != 0 then a[slot := p][prev := a[prev].(next := slot)] else a[slot := p][parent := a[parent].(child := slot)]
  }

  function NextIn(a: seq<ElemPos>, parent: nat, prev: nat): nat
    requires parent < |a| && prev < |a|
  {
    if prev != 0 then a[prev].next else a[parent].child
  }

  lemma NewLinked(a: seq<ElemPos>, c: Ctx, f: Forest, slot: nat)
    requires RepAt(a, c, f) && Unused(slot, c, f) && slot < |a|
    ensures var prev, parent := Last(Elders(c)), ParentOf(c, 0);
      && prev < |a| && parent < |a| && prev != slot && parent != slot
      && First(f) == NextIn(a, parent, prev)
      && forall p :: SetHole(a[slot := p], c, 0, slot) == LinkedIn(a, slot, p, parent, prev)
  {
    hide Order, Before, Behind, Linked, Placed, PlacedCtx, Elders, SetHole, DistinctAt, LinkedCtx;
    EldersBefore(a, c, First(f));
    HoleLink(a, c, First(f));
    assert Elders(c) != [] ==> Last(Elders(c)) in Elders(c);
    forall p
      ensures SetHole(a[slot := p], c, 0, slot) == LinkedIn(a, slot, p, ParentOf(c, 0), Last(Elders(c)))
    {
      LinkedCtxFrame(a, a[slot := p], c, First(f), 0);
      SetHoleBySlot(a[slot := p], c, First(f), slot);
    }
  }

  lemma NewStands(c: Ctx, x: Forest, name: string, value: string, p: ElemPos)
    requires !x.End? && x == NewElem(x.slot, x.gap, name, value, x.rest)
    requires p == NewPos(|Pre(c)| + |x.gap|, name, value, ParentOf(c, 0), First(x.rest))
    ensures Stands(p, c, x)
  {
    hide Pre, ToDoc;
    if value != "" {
      assert Text(x.kids) == ToDoc(value, false);
    }
  }

  /** The slot of a new element is in no list of slots below `free`. */
  lemma FreshSlot(c: Ctx, f: Forest, free: nat)
    requires 0 < free && forall s :: s in Order(Plug(c, f)) ==> s < free
    ensures Unused(free, c, f)
  {
    hide Order, Plug;
    PlugOrder(c, f);
    assert forall s :: s in Before(c) || s in Order(f) || s in Behind(c) ==> s in Before(c) + Order(f) + Behind(c);
  }

  lemma InsertedOrder(c: Ctx, f: Forest, k: nat, slot: nat, name: string, value: string)
    requires k <= |f.gap|
    ensures forall s :: s in Order(Plug(c, Inserted(f, k, slot, name, value))) <==> s == slot || s in Order(Plug(c, f))
  {
    hide Order, Plug, ToDoc, NewElem;
    var x := Inserted(f, k, slot, name, value);
    PlugOrder(c, f); PlugOrder(c, x);
    ElemOrder(x);
    EndOrder(Kids(x));
    RegapFacts([], f, CRLF + f.gap[k..], 0, 0);
  }

  lemma EndOrder(f: Forest)
    requires f.End?
    ensures Order(f) == []
  {
  }

  // ---- Under an empty element

  lemma SplitOrder(c: Ctx, x: Forest, slot: nat, name: string, value: string)
    requires x.EmptyElem? && |x.start| >= 2
    ensures forall s :: s in Order(Plug(c, SplitElem(x, slot, name, value))) <==> s == slot || s in Order(Plug(c, x))
  {
    hide Order, Plug, ToDoc, NewElem, TagName;
    var y := SplitElem(x, slot, name, value);
    PlugOrder(c, x); PlugOrder(c, y);
    ElemOrder(x); ElemOrder(y);
    var kid := NewElem(slot, CRLF, name, value, End(CRLF));
    ElemOrder(kid);
    EndOrder(Kids(kid)); EndOrder(End(CRLF)); EndOrder(Kids(x));
    assert Order(y) == [x.slot] + [slot] + Order(x.rest);
  }

  lemma SplitText(c: Ctx, x: Forest, doc: string, slot: nat, name: string, value: string)
    requires x.EmptyElem? && TagText(x.start) && EmptyTag(x.start) && doc == Text(Plug(c, x))
    ensures var at := |Pre(c)| + |x.gap| + |x.start| - 2;
      && at + 1 <= |doc|
      && Text(Plug(c, SplitElem(x, slot, name, value)))
           == Splice(doc, at, 1, ">" + CRLF + NewText(name, value) + CRLF + "</" + TagName(x.start))
      && |Text(SplitElem(x, slot, name, value))| == |Text(x)| + |NewText(name, value)| + |TagName(x.start)| + 6
  {
    hide Text, Plug, Pre, NewText, ToDoc, NewElem, TagName, EmptyTag, TagText;
    var kid := NewElem(slot, CRLF, name, value, End(CRLF));
    KidText(slot, name, value);
    assert |x.start| >= 2 by { TagSize(x.start); }
    SpliceEmpty(c, x, doc, kid, TagName(x.start));
    assert ">" + Text(kid) + "</" + TagName(x.start) == ">" + CRLF + NewText(name, value) + CRLF + "</" + TagName(x.start);
    TextWidth(x);
    TextWidth(SplitElem(x, slot, name, value));
  }

  lemma TagSize(t: string)
    requires TagText(t)
    ensures |t| >= 2
  {
  }

  lemma KidText(slot: nat, name: string, value: string)
    ensures Text(NewElem(slot, CRLF, name, value, End(CRLF))) == CRLF + NewText(name, value) + CRLF
  {
    hide NewText, NewElem, ToDoc;
    NewElemText(slot, CRLF, name, value, End(CRLF));
  }

  lemma SplitKeeps(c: Ctx, x: Forest, slot: nat, name: string, value: string, strict: bool)
    requires x.EmptyElem? && PlainName(name) && Splittable(x.start)
    requires WellFormed(Plug(c, x), strict) && Tagged(Plug(c, x))
    ensures var g := Plug(c, SplitElem(x, slot, name, value)); WellFormed(g, strict) && Tagged(g)
  {
    assert |x.start| >= 2;
    hide Plug, WellFormed, Tagged, Splittable, SplitElem;
    var y := SplitElem(x, slot, name, value);
    PlugTagged(c, x); PlugTagged(c, y);
    PlugWellFormed(c, x, strict); PlugWellFormed(c, y, strict);
    SplitForms(x, slot, name, value, Strict(c, strict));
  }

  lemma SplitForms(x: Forest, slot: nat, name: string, value: string, strict: bool)
    requires x.EmptyElem? && PlainName(name) && Splittable(x.start) && |x.start| >= 2
    requires WellFormed(x, strict) && Tagged(x)
    ensures var y := SplitElem(x, slot, name, value); WellFormed(y, strict) && Tagged(y)
  {
    hide ValidStart, TagName, EmptyTag, ValidGap, ValidClose, Splittable, TagText, OpenTag, CloseTag, NewElem, ToDoc;
    NewElemTags(slot, CRLF, name, value, End(CRLF));
    PlainGap(CRLF);
    OpenTagValid(x.start);
    StartFacts(x.start);
    TagTextOf(x.start, TagName(x.start));
  }

  lemma TagTextOf(t: string, name: string)
    requires |t| >= 3 && t[0] == '<'
    ensures TagText(OpenTag(t)) && TagText(CloseTag(name))
  {
  }
}
