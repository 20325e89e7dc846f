/** What an edit leaves alone: every element away from the place of the edit keeps its start tag,
    and keeps its data unless it is the one around that place. */
module MarkupKept {
  import opened MarkupText
  import opened MarkupGrammar
  import opened MarkupTree
  import opened MarkupAdjust
  import opened MarkupEdits
  import opened MarkupEntities
  import opened MarkupSplice
  import opened MarkupPlaces
  import opened MarkupTags
  import opened MarkupAttribs
  import opened MarkupValid
  import opened MarkupAdd
  import opened MarkupParse
  import opened Markup
  import opened MarkupLaws

  // ---- The data of an element is its own

  /** What x_GetData reads in an element taken for itself. */
  function Own(x: Forest): string {
    if x.FullElem? && x.kids.End? then DataIn(x.kids.gap + "<", |x.kids.gap|) else ""
  }

  /** What is behind the end tag does not matter for where the first token of the data ends,
      as far as it ends in the data. */
  lemma TokenBefore(a: string, x: string)
    requires x != "" && x[0] == '<'
    ensures var t, v := FindToken(a + x), FindToken(a + "<");
      && v.found && (t == v || (t.found && t.isString && t.l == v.l && v.isString && t.next > |a| && v.next > |a|))
      && (!v.isString ==> v.next <= |a| + 1)
  {
    hide FindToken, FirstOf, FirstNotOf;
    var s, u := a + x, a + "<";
    var v := FindToken(u);
    assert s == u + x[1..];
    BlankFree(a);
    if v.next < |u| || (!v.isString && u[v.l] in SPECIALS) {
      FindTokenExtends(u, x[1..]);
    } else if v.isString {
      OpenQuote(a, x);
    } else {
      WordEnds(a);
    }
  }

  lemma BlankFree(a: string)
    ensures FindToken(a + "<").found
  {
    hide FirstOf, FirstNotOf;
    var u := a + "<";
    assert u[|a|] == '<';
  }

  lemma WordEnds(a: string)
    requires var v := FindToken(a + "<"); v.found && !v.isString && v.next == |a| + 1
    ensures var v := FindToken(a + "<"); (a + "<")[v.l] in SPECIALS
  {
    hide FirstOf, FirstNotOf;
    var u := a + "<";
    var k := FirstNotOf(u, SPACES);
    assert u[|a|] == '<';
    assert u[k..][|a| - k] == '<';
  }

  lemma OpenQuote(a: string, x: string)
    requires x != "" && x[0] == '<' && FindToken(a + "<").isString && FindToken(a + "<").next == |a| + 1
    ensures var t, v := FindToken(a + x), FindToken(a + "<");
      t.found && t.isString && t.l == v.l && t.next > |a|
  {
    hide FirstOf, FirstNotOf;
    var s, u := a + x, a + "<";
    var k := FirstNotOf(u, SPACES);
    assert u[|a|] == '<' && s[|a|] == '<';
    assert forall i :: 0 <= i < |a| ==> s[i] == u[i];
    FirstNotOfIs(s, SPACES, k);
    NotClosed(a, x, k);
  }

  lemma NotClosed(a: string, x: string, k: nat)
    requires k < |a| && a[k] in {'\"', '\''} && x != "" && x[0] == '<'
    requires k + 1 + FirstOf((a + "<")[k + 1..], {a[k]}) >= |a|
    ensures k + 1 + FirstOf((a + x)[k + 1..], {a[k]}) > |a|
  {
    hide FirstOf;
    var b, q := a[k + 1..], a[k];
    assert (a + "<")[k + 1..] == b + "<" && (a + x)[k + 1..] == b + x;
    assert forall i :: 0 <= i < |b| ==> (b + "<")[i] == b[i];
    assert forall i :: 0 <= i < |b| ==> (b + x)[i] == b[i];
    assert (b + x)[|b|] == '<';
  }

  /** An end mark that begins in `b` and is not all of it there is none in front of a '<'. */
  lemma MarkBefore(b: string, x: string)
    requires x != "" && x[0] == '<'
    ensures var k, m := FindStr(b + x, "]]>"), FindStr(b, "]]>");
      if m >= 0 then k == m else k < 0 || k >= |b|
  {
    hide FindStr, OccursAt;
    var k := FindStr(b + x, "]]>");
    if FindStr(b, "]]>") >= 0 {
      FindStrExtends(b, x, "]]>");
    } else {
      forall i: nat | i < |b|
        ensures !OccursAt(b + x, "]]>", i)
      {
        assert !OccursAt(b, "]]>", i);
        NotAcross(b, x, i);
      }
    }
  }

  lemma NotAcross(b: string, x: string, i: nat)
    requires x != "" && x[0] == '<' && i < |b|
    ensures OccursAt(b + x, "]]>", i) ==> OccursAt(b, "]]>", i)
  {
    hide OccursAt;
    EndMark(b + x, i);
    EndMark(b, i);
    assert (b + x)[|b|] == '<';
  }

  /** The data of an element do not depend on what is behind them. */
  lemma DataLocal(a: string, x: string)
    requires x != "" && x[0] == '<'
    ensures DataIn(a + x, |a|) == DataIn(a + "<", |a|)
  {
    hide FindToken, FindStr, FromDoc, DataIn;
    var v := FindToken(a + "<");
    TokenBefore(a, x);
    assert (a + x)[..|a|] == a && (a + "<")[..|a|] == a;
    if v.l + 11 < |a| && v.next <= |a| {
      SectionLocal(a, x);
    } else {
      NoSection(a, x);
      NoSection(a, "<");
    }
  }

  /** A token that does not end in the data is none that opens a section. */
  lemma NoSection(a: string, x: string)
    requires var t := FindToken(a + x); t.l + 11 >= |a| || t.next > |a|
    ensures DataIn(a + x, |a|) == FromDoc((a + x)[..|a|])
  {
    hide FindToken, FindStr, FromDoc;
  }

  lemma SectionLocal(a: string, x: string)
    requires x != "" && x[0] == '<' && FindToken(a + x) == FindToken(a + "<")
    requires FindToken(a + "<").l + 11 < |a| && FindToken(a + "<").next <= |a|
    ensures DataIn(a + x, |a|) == DataIn(a + "<", |a|)
  {
    hide FindToken, FindStr, FromDoc;
    var v := FindToken(a + "<");
    var b := a[v.next..];
    Behinds(a, x, v.next);
    MarkBefore(b, x); MarkBefore(b, "<");
    SameSlice(a, x, v.l + 1, v.l + 9);
    assert (a + x)[v.l] == (a + "<")[v.l];
    assert (a + x)[..|a|] == (a + "<")[..|a|];
    if FindStr(b, "]]>") >= 0 { SameSlice(a, x, v.l + 9, v.next + FindStr(b, "]]>")); }
  }

  lemma Behinds(a: string, x: string, n: nat)
    requires n <= |a|
    ensures (a + x)[n..] == a[n..] + x && (a + "<")[n..] == a[n..] + "<"
  {
  }

  lemma SameSlice(a: string, x: string, i: nat, j: nat)
    requires j <= |a|
    ensures i <= j ==> (a + x)[i..j] == (a + "<")[i..j]
  {
  }

  /** So x_GetData can be told from the element alone. */
  lemma DataIsOwn(f: Forest, i: nat)
    requires i in Order(f) && Tagged(f)
    ensures DataAt(f, i) == Own(Focus(f, i).focus)
  {
    hide DataIn, Order, Plug, Focus, Text, Post, Tail, Tagged, TaggedCtx;
    var z := Focus(f, i);
    PlugTagged(z.ctx, z.focus);
    if z.focus.FullElem? && z.focus.kids.End? {
      TagsOf(z.focus);
      var y := WithBody(z.focus, "", "", z.focus.close);
      CloseComes(y);
      DataLocal(z.focus.kids.gap, Tail(y) + Post(z.ctx));
    }
  }

  // ---- The same element in two documents

  /** Two elements with the same start tag; with `data`, of the same data too. */
  predicate SameElem(x: Forest, y: Forest, data: bool) {
    !x.End? && !y.End? && x.start == y.start && (data ==> Own(x) == Own(y))
  }

  /** Element `s` is in both documents, with the same start tag, and the same data. */
  predicate Kept(f: Forest, g: Forest, s: nat, data: bool) {
    && s in Order(f) && s in Order(g)
    && Focus(g, s).focus.start == Focus(f, s).focus.start
    && (data ==> DataAt(g, s) == DataAt(f, s))
  }

  lemma SameIsKept(f: Forest, g: Forest, s: nat, data: bool)
    requires Tagged(f) && Tagged(g) && s in Order(f) && s in Order(g)
    requires SameElem(Focus(f, s).focus, Focus(g, s).focus, data)
    ensures Kept(f, g, s, data)
  {
    hide Order, Focus, Tagged, DataAt, Own;
    DataIsOwn(f, s);
    DataIsOwn(g, s);
  }

  /** What is found does not depend on what is around the place of the search. */
  lemma {:induction false} FindAnywhere(f: Forest, c: Ctx, d: Ctx, s: nat)
    ensures Find(f, c, s).focus == Find(f, d, s).focus
    decreases f
  {
    if f.End? || f.slot == s {
    } else if f.EmptyElem? {
      FindAnywhere(f.rest, AfterEmpty(c, f.slot, f.gap, f.start), AfterEmpty(d, f.slot, f.gap, f.start), s);
    } else if s in Order(f.kids) {
      FindAnywhere(f.kids, Inside(c, f.slot, f.gap, f.start, f.close, f.rest), Inside(d, f.slot, f.gap, f.start, f.close, f.rest), s);
    } else {
      FindAnywhere(f.rest, AfterFull(c, f.slot, f.gap, f.start, f.kids, f.close), AfterFull(d, f.slot, f.gap, f.start, f.kids, f.close), s);
    }
  }

  lemma SameItself(x: Forest)
    requires !x.End?
    ensures SameElem(x, x, true)
  {
  }

  /** One step of the search. */
  lemma FindStep(x: Forest, c: Ctx, s: nat)
    requires !x.End?
    ensures x.slot == s ==> Find(x, c, s).focus == x
    ensures x.slot != s && s in Order(Kids(x)) ==> Find(x, c, s).focus == Find(Kids(x), Top, s).focus
    ensures x.slot != s && s !in Order(Kids(x)) ==> Find(x, c, s).focus == Find(x.rest, Top, s).focus
  {
    hide Plug;
    if x.slot == s {
    } else if x.EmptyElem? {
      FindAnywhere(x.rest, AfterEmpty(c, x.slot, x.gap, x.start), Top, s);
    } else if s in Order(x.kids) {
      FindAnywhere(x.kids, Inside(c, x.slot, x.gap, x.start, x.close, x.rest), Top, s);
    } else {
      FindAnywhere(x.rest, AfterFull(c, x.slot, x.gap, x.start, x.kids, x.close), Top, s);
    }
  }

  /** Another gap in front of the first element changes none of them. */
  lemma SameRegapped(f: Forest, g: string, c: Ctx, s: nat)
    requires s in Order(f)
    ensures SameElem(Find(f, c, s).focus, Find(WithGap(f, g), c, s).focus, true)
  {
    hide Plug, Own, Find;
    var h := WithGap(f, g);
    ElemOrder(f);
    FindStep(f, c, s);
    FindStep(h, c, s);
    RegapSame(f, g);
    if s == f.slot {
    } else {
      SameItself(Find(f, c, s).focus);
    }
  }

  lemma RegapSame(f: Forest, g: string)
    requires !f.End?
    ensures var h := WithGap(f, g);
      && h.slot == f.slot && Kids(h) == Kids(f) && h.rest == f.rest && SameElem(f, h, true)
  {
    hide DataIn;
  }

  /** The slots around a hole. */
  predicate Apart(c: Ctx) {
    Distinct(Before(c)) && Distinct(Behind(c)) && Disjoint(Before(c), Behind(c))
  }

  /** Whatever is put into the hole of `c`, the elements around it are the same, and so are their data
      but for those of the element the hole is in, if it has no child but what is put there. */
  lemma {:induction false} SameAround(c: Ctx, x: Forest, y: Forest, s: nat)
    requires Apart(c) && s !in Order(x) && s !in Order(y) && (s in Before(c) || s in Behind(c))
    ensures s in Order(Plug(c, x)) && s in Order(Plug(c, y))
    ensures SameElem(Focus(Plug(c, x), s).focus, Focus(Plug(c, y), s).focus, s != ParentOf(c, 0) || (!x.End? && !y.End?))
    decreases c
  {
    hide Order, Find, Focus, Plug, Before, Behind, SameElem, ParentOf, Apart, Wrap;
    if c.Top? {
      NothingAround();
    } else {
      var xx, yy := Wrap(c, x), Wrap(c, y);
      WrapFacts(c, x, s); WrapFacts(c, y, s);
      if s in Before(c.outer) || s in Behind(c.outer) {
        SameAround(c.outer, xx, yy, s);
        SameWeaker(Focus(Plug(c, x), s).focus, Focus(Plug(c, y), s).focus, s != ParentOf(c, 0) || (!x.End? && !y.End?));
      } else {
        FindPlugged(c.outer, xx, s); FindPlugged(c.outer, yy, s);
        SameInWrap(c, x, y, s);
      }
    }
  }

  lemma SameWeaker(x: Forest, y: Forest, data: bool)
    requires SameElem(x, y, true)
    ensures SameElem(x, y, data)
  {
  }

  lemma NothingAround()
    ensures Before(Top) == [] && Behind(Top) == []
  {
  }

  lemma FindPlugged(c: Ctx, x: Forest, s: nat)
    requires s in Order(x) && s !in Before(c)
    ensures s in Order(Plug(c, x)) && Focus(Plug(c, x), s) == Find(x, c, s)
  {
    hide Order, Find, Plug, Before, Behind;
    FindPlug(c, x, s);
    PlugOrder(c, x);
  }

  /** What is in the hole with the layer around it. */
  function Wrap(c: Ctx, x: Forest): (r: Forest)
    requires !c.Top?
    ensures !r.End?
  {
    match c
    case AfterEmpty(_, slot, gap, start) => EmptyElem(slot, gap, start, x)
    case AfterFull(_, slot, gap, start, kids, close) => FullElem(slot, gap, start, kids, close, x)
    case Inside(_, slot, gap, start, close, rest) => FullElem(slot, gap, start, x, close, rest)
  }

  lemma WrapFacts(c: Ctx, x: Forest, s: nat)
    requires !c.Top? && Apart(c) && s !in Order(x) && (s in Before(c) || s in Behind(c))
    ensures Plug(c, x) == Plug(c.outer, Wrap(c, x)) && Apart(c.outer)
    ensures s in Order(Wrap(c, x)) <==> !(s in Before(c.outer) || s in Behind(c.outer))
  {
    hide Order, Distinct, Disjoint, Plug;
    var w := Wrap(c, x);
    ElemOrder(w);
    PlugWrap(c, x);
    LayerApart(c);
    assert forall r :: r in Order(w) <==> r == w.slot || r in Order(Kids(w)) || r in Order(w.rest);
    if c.AfterEmpty? { EndOrder(Kids(w)); }
    LayerSlots(c, s);
  }

  lemma PlugWrap(c: Ctx, x: Forest)
    requires !c.Top?
    ensures Plug(c, x) == Plug(c.outer, Wrap(c, x))
  {
  }

  /** The slots that the innermost layer of `c` adds to those around it. */
  function Layer(c: Ctx): (seq<nat>, seq<nat>)
    requires !c.Top?
  {
    match c
    case AfterEmpty(_, slot, _, _) => ([slot], [])
    case AfterFull(_, slot, _, _, kids, _) => ([slot] + Order(kids), [])
    case Inside(_, slot, _, _, _, rest) => ([slot], Order(rest))
  }

  lemma LayerIs(c: Ctx)
    requires !c.Top?
    ensures Before(c) == Before(c.outer) + Layer(c).0 && Behind(c) == Layer(c).1 + Behind(c.outer)
  {
    hide Order;
  }

  lemma LayerApart(c: Ctx)
    requires !c.Top? && Apart(c)
    ensures Apart(c.outer)
    ensures Disjoint(Before(c.outer), Layer(c).0) && Disjoint(Layer(c).1, Behind(c.outer))
    ensures Disjoint(Layer(c).0, Behind(c.outer)) && Disjoint(Before(c.outer), Layer(c).1)
  {
    hide Layer, Before, Behind, Distinct;
    LayerIs(c);
    DistinctParts(Before(c.outer), Layer(c).0);
    DistinctParts(Layer(c).1, Behind(c.outer));
    assert forall r :: r in Before(c.outer) || r in Layer(c).0 ==> r in Before(c);
    assert forall r :: r in Behind(c.outer) || r in Layer(c).1 ==> r in Behind(c);
  }

  lemma LayerSlots(c: Ctx, s: nat)
    requires !c.Top? && Apart(c) && (s in Before(c) || s in Behind(c))
    ensures (s in Layer(c).0 || s in Layer(c).1) <==> !(s in Before(c.outer) || s in Behind(c.outer))
  {
    hide Layer, Before, Behind, Distinct;
    LayerIs(c);
    LayerApart(c);
    var o, l := Before(c.outer), Layer(c);
    assert s in Before(c) ==> s in o || s in l.0;
    assert s in Behind(c) ==> s in l.1 || s in Behind(c.outer);
  }

  /** The elements of that layer. */
  lemma SameInWrap(c: Ctx, x: Forest, y: Forest, s: nat)
    requires !c.Top? && s !in Order(x) && s !in Order(y) && s in Order(Wrap(c, x)) && s in Order(Wrap(c, y))
    ensures SameElem(Find(Wrap(c, x), c.outer, s).focus, Find(Wrap(c, y), c.outer, s).focus,
                     s != ParentOf(c, 0) || (!x.End? && !y.End?))
  {
    hide Order, Find, DataIn;
    var xx, yy := Wrap(c, x), Wrap(c, y);
    ElemOrder(xx); ElemOrder(yy);
    FindStep(xx, c.outer, s); FindStep(yy, c.outer, s);
    EndOrder(End(""));
    if s != c.slot {
      SameItself(Find(xx, c.outer, s).focus);
    }
  }

  // ---- The edits

  /** The document with `x` in the hole of `c`. */
  predicate Whole(c: Ctx, x: Forest) {
    Tagged(Plug(c, x)) && DistinctAt(c, x)
  }

  lemma WholeParts(f: Forest, c: Ctx, x: Forest)
    requires f == Plug(c, x) && Tagged(f) && Distinct(Order(f)) && 0 !in Order(f)
    ensures Whole(c, x) && Tagged(x) && TaggedCtx(c) && Apart(c)
  {
    hide Order, Plug, Tagged, TaggedCtx, Distinct, Before, Behind, Disjoint;
    DistinctPlug(c, x);
    PlugTagged(c, x);
  }

  lemma KeptAround(c: Ctx, x: Forest, y: Forest, s: nat)
    requires Whole(c, x) && Whole(c, y) && (s in Before(c) || s in Behind(c))
    ensures Kept(Plug(c, x), Plug(c, y), s, s != ParentOf(c, 0) || (!x.End? && !y.End?))
  {
    hide Order, Plug, Tagged, Before, Behind, Distinct, ParentOf, Kept, SameElem, Focus;
    SameAround(c, x, y, s);
    SameIsKept(Plug(c, x), Plug(c, y), s, s != ParentOf(c, 0) || (!x.End? && !y.End?));
  }

  lemma KeptInside(c: Ctx, x: Forest, y: Forest, s: nat, data: bool)
    requires Whole(c, x) && Whole(c, y) && s in Order(x) && s in Order(y)
    requires SameElem(Find(x, Top, s).focus, Find(y, Top, s).focus, data)
    ensures Kept(Plug(c, x), Plug(c, y), s, data)
  {
    hide Order, Plug, Tagged, Before, Behind, Distinct, Kept, SameElem, Focus, Find;
    FindPlugged(c, x, s); FindPlugged(c, y, s);
    FindAnywhere(x, c, Top, s); FindAnywhere(y, c, Top, s);
    SameIsKept(Plug(c, x), Plug(c, y), s, data);
  }

  lemma KeptFor(f: Forest, g: Forest, s: nat, data: bool, less: bool)
    requires Kept(f, g, s, data) && (less ==> data)
    ensures Kept(f, g, s, less)
  {
    hide Order, Focus, DataAt;
  }

  lemma PlugSlots(c: Ctx, x: Forest, s: nat)
    ensures s in Order(Plug(c, x)) <==> s in Before(c) || s in Order(x) || s in Behind(c)
  {
    hide Order, Plug, Before, Behind;
    PlugOrder(c, x);
  }

  // ---- x_AddElem

  /** Where an element may be put. */
  predicate Fits(f: Forest, parent: nat, rel: nat, insert: bool) {
    && (parent != 0 ==> parent in Order(f))
    && (rel != 0 ==> rel in Order(f) && ParentOf(Focus(f, rel).ctx, 0) == parent && (parent != 0 ==> Focus(f, parent).focus.FullElem?))
    && (parent == 0 && rel == 0 && insert ==> f.gap != "")
  }

  /** x_AddElem, in all its variants: the new element has the name and holds the value; every other
      element is as it was, up to the data of the element around it, and the start tag of that
      element if it was empty, whose name stays. */
  lemma AddedIsRead(f: Forest, slot: nat, parent: nat, rel: nat, insert: bool, name: string, value: string)
    requires Tagged(f) && WellFormed(f, false) && Distinct(Order(f)) && 0 !in Order(f)
    requires Fits(f, parent, rel, insert) && PlainName(name) && 0 < slot && slot !in Order(f)
    ensures var g := Added(f, slot, parent, rel, insert, name, value);
      && slot in Order(g) && TagName(Focus(g, slot).focus.start) == name && DataAt(g, slot) == value
      && (forall s :: s in Order(g) <==> s == slot || s in Order(f))
      && (forall s :: s in Order(f) && s != parent ==> Kept(f, g, s, true))
      && (parent != 0 ==> TagName(Focus(g, parent).focus.start) == TagName(Focus(f, parent).focus.start))
      && (parent != 0 && !Focus(f, parent).focus.EmptyElem? ==> Kept(f, g, parent, false))
  {
    hide Tagged, WellFormed, Distinct, Order, Focus, Added, TagName, DataAt, PlainName;
    if parent != 0 && Focus(f, parent).focus.EmptyElem? {
      AddedUnderEmpty(f, slot, parent, rel, insert, name, value);
    } else {
      AddedAmong(f, slot, parent, rel, insert, name, value);
    }
  }

  /** The new element itself. */
  lemma NewIsRead(c: Ctx, slot: nat, gap: string, name: string, value: string, rest: Forest)
    requires var x := NewElem(slot, gap, name, value, rest); Whole(c, x)
    requires PlainName(name)
    ensures var g := Plug(c, NewElem(slot, gap, name, value, rest));
      slot in Order(g) && TagName(Focus(g, slot).focus.start) == name && DataAt(g, slot) == value
  {
    hide Plug, Order, Tagged, Focus, DistinctAt, TagName, Before, Behind, DataAt, Own, NewElem, Whole;
    var x := NewElem(slot, gap, name, value, rest);
    WholeApart(c, x);
    FocusPlug(c, x);
    DataIsOwn(Plug(c, x), slot);
    NewOwn(slot, gap, name, value, rest);
  }

  lemma WholeApart(c: Ctx, x: Forest)
    requires Whole(c, x) && !x.End?
    ensures Tagged(Plug(c, x)) && x.slot !in Before(c) && x.slot in Order(x)
  {
    hide Plug, Order, Tagged, Before, Behind, Distinct;
    ElemOrder(x);
    assert x.slot in [x.slot];
  }

  lemma NewOwn(slot: nat, gap: string, name: string, value: string, rest: Forest)
    requires PlainName(name)
    ensures var x := NewElem(slot, gap, name, value, rest); TagName(x.start) == name && Own(x) == value
  {
    hide TagName, DataIn, ToDoc;
    NewTags(name);
    if value != "" {
      EscapedReads(value, "<");
    }
  }

  lemma AddedAmong(f: Forest, slot: nat, parent: nat, rel: nat, insert: bool, name: string, value: string)
    requires Tagged(f) && Distinct(Order(f)) && 0 !in Order(f)
    requires Fits(f, parent, rel, insert) && PlainName(name) && 0 < slot && slot !in Order(f)
    requires parent != 0 ==> !Focus(f, parent).focus.EmptyElem?
    ensures var g := Added(f, slot, parent, rel, insert, name, value);
      && slot in Order(g) && TagName(Focus(g, slot).focus.start) == name && DataAt(g, slot) == value
      && (forall s :: s in Order(g) <==> s == slot || s in Order(f))
      && (forall s :: s in Order(f) ==> Kept(f, g, s, s != parent))
  {
    hide *;
    var z := Place(f, parent, rel, insert);
    var k := PlaceOf(f, slot, parent, rel, insert, name, value);
    var c, x, y := z.ctx, z.focus, Inserted(z.focus, k, slot, name, value);
    WholeParts(f, c, x);
    InsertedWhole(c, x, k, slot, name, value);
    var r := WithGap(x, CRLF + x.gap[k..]);
    assert y == NewElem(slot, x.gap[..k], name, value, r) by { InsertedIs(x, k, slot, name, value); }
    NewIsRead(c, slot, x.gap[..k], name, value, r);
    forall s
      ensures s in Order(Plug(c, y)) <==> s == slot || s in Order(f)
      ensures s in Order(f) ==> Kept(f, Plug(c, y), s, s != parent)
    {
      PlugSlots(c, x, s); PlugSlots(c, y, s);
      InsertedHas(x, k, slot, name, value, s);
      if s in Order(x) {
        KeptInside(c, x, y, s, true);
        KeptFor(f, Plug(c, y), s, true, s != parent);
      } else if s in Order(f) {
        KeptAround(c, x, y, s);
        KeptFor(f, Plug(c, y), s, s != ParentOf(c, 0) || (!x.End? && !y.End?), s != parent);
      }
    }
  }

  /** The place of the new element, and how much of the gap there stays in front of it. */
  lemma PlaceOf(f: Forest, slot: nat, parent: nat, rel: nat, insert: bool, name: string, value: string) returns (k: nat)
    requires Tagged(f) && Fits(f, parent, rel, insert) && (parent != 0 ==> !Focus(f, parent).focus.EmptyElem?)
    ensures var z := Place(f, parent, rel, insert);
      && f == Plug(z.ctx, z.focus) && ParentOf(z.ctx, 0) == parent && k <= |z.focus.gap|
      && k == NewGap(z, LookFrom(z, parent, rel, insert))
      && Added(f, slot, parent, rel, insert, name, value) == Plug(z.ctx, Inserted(z.focus, k, slot, name, value))
  {
    hide Tagged, TaggedCtx, Order, Plug, Focus, Place, NewGap, Inserted, ParentOf;
    var z := Place(f, parent, rel, insert);
    FullParent(f, parent);
    PlaceAmong(f, parent, rel, insert);
    PlugTagged(z.ctx, z.focus);
    if parent == 0 && rel == 0 && insert { RootPlace(f, parent, rel, insert); }
    var from := LookFrom(z, parent, rel, insert);
    NewGapFacts(z, from);
    k := NewGap(z, from);
  }

  lemma FullParent(f: Forest, parent: nat)
    ensures parent != 0 && parent in Order(f) && !Focus(f, parent).focus.EmptyElem? ==> Focus(f, parent).focus.FullElem?
  {
    hide Order, Find;
  }

  lemma RootPlace(f: Forest, parent: nat, rel: nat, insert: bool)
    requires parent == 0 && rel == 0 && insert
    ensures Place(f, parent, rel, insert) == Zipper(Top, f)
  {
  }

  lemma InsertedIs(x: Forest, k: nat, slot: nat, name: string, value: string)
    requires k <= |x.gap|
    ensures Inserted(x, k, slot, name, value) == NewElem(slot, x.gap[..k], name, value, WithGap(x, CRLF + x.gap[k..]))
  {
  }

  lemma InsertedWhole(c: Ctx, x: Forest, k: nat, slot: nat, name: string, value: string)
    requires Whole(c, x) && k <= |x.gap| && PlainName(name) && 0 < slot && slot !in Order(Plug(c, x))
    ensures Whole(c, Inserted(x, k, slot, name, value))
  {
    hide Order, Plug, Tagged, TaggedCtx, Distinct, Before, Behind, Disjoint, NewElem, DistinctAt, ToDoc;
    var r := WithGap(x, CRLF + x.gap[k..]);
    var y := Inserted(x, k, slot, name, value);
    PlugTagged(c, x); PlugTagged(c, y);
    NewElemTags(slot, x.gap[..k], name, value, r);
    RegapForm(x, CRLF + x.gap[k..], false);
    PlugSlots(c, x, slot);
    RegapFacts([], x, CRLF + x.gap[k..], 0, 0);
    DistinctInsert(c, x, y);
  }

  lemma InsertedHas(x: Forest, k: nat, slot: nat, name: string, value: string, s: nat)
    requires k <= |x.gap|
    ensures var y := Inserted(x, k, slot, name, value);
      && (s in Order(y) <==> s == slot || s in Order(x))
      && (s in Order(x) && s != slot ==> SameElem(Find(x, Top, s).focus, Find(y, Top, s).focus, true))
  {
    hide Order, Plug, Find, Own, NewElem, SameElem;
    var g := CRLF + x.gap[k..];
    var y := Inserted(x, k, slot, name, value);
    ElemOrder(y);
    EndOrder(Kids(y));
    RegapFacts([], x, g, 0, 0);
    if s in Order(x) && s != slot {
      SameRegapped(x, g, Top, s);
      FindStep(y, Top, s);
    }
  }

  lemma AddedUnderEmpty(f: Forest, slot: nat, parent: nat, rel: nat, insert: bool, name: string, value: string)
    requires Tagged(f) && WellFormed(f, false) && Distinct(Order(f)) && 0 !in Order(f)
    requires parent in Order(f) && Focus(f, parent).focus.EmptyElem? && PlainName(name) && 0 < slot && slot !in Order(f) && parent != 0
    ensures var g := Added(f, slot, parent, rel, insert, name, value);
      && slot in Order(g) && TagName(Focus(g, slot).focus.start) == name && DataAt(g, slot) == value
      && (forall s :: s in Order(g) <==> s == slot || s in Order(f))
      && (forall s :: s in Order(f) && s != parent ==> Kept(f, g, s, true))
      && TagName(Focus(g, parent).focus.start) == TagName(Focus(f, parent).focus.start)
  {
    hide *;
    var z := Focus(f, parent);
    var c, x := z.ctx, z.focus;
    WholeParts(f, c, x);
    TagsOf(x);
    var y := SplitElem(x, slot, name, value);
    AddedIsSplit(f, slot, parent, rel, insert, name, value);
    SplitWhole(c, x, slot, name, value);
    SplitNew(c, x, slot, name, value);
    FormOfHole(f, c, x);
    SplitName(c, x, slot, name, value);
    forall s
      ensures s in Order(Plug(c, y)) <==> s == slot || s in Order(f)
      ensures s in Order(f) && s != parent ==> Kept(f, Plug(c, y), s, true)
    {
      PlugSlots(c, x, s); PlugSlots(c, y, s);
      SplitHas(x, slot, name, value, s);
      if s in Order(f) && s != parent {
        if s in Order(x) {
          KeptInside(c, x, y, s, true);
        } else {
          KeptAround(c, x, y, s);
          KeptFor(f, Plug(c, y), s, s != ParentOf(c, 0) || (!x.End? && !y.End?), true) by { SplitShape(x, slot, name, value); }
        }
      }
    }
  }

  lemma SplitShape(x: Forest, slot: nat, name: string, value: string)
    requires x.EmptyElem? && |x.start| >= 2
    ensures !x.End? && !SplitElem(x, slot, name, value).End?
  {
    hide NewElem, OpenTag, TagName;
  }

  lemma FormOfHole(f: Forest, c: Ctx, x: Forest)
    requires f == Plug(c, x) && WellFormed(f, false) && x.EmptyElem?
    ensures ValidStart(x.start) && EmptyTag(x.start)
  {
    hide Plug, ValidStart, EmptyTag, ValidGap;
    PlugWellFormed(c, x, false);
  }

  lemma AddedIsSplit(f: Forest, slot: nat, parent: nat, rel: nat, insert: bool, name: string, value: string)
    requires parent != 0 && parent in Order(f) && Focus(f, parent).focus.EmptyElem? && |Focus(f, parent).focus.start| >= 2
    ensures var z := Focus(f, parent);
      Added(f, slot, parent, rel, insert, name, value) == Plug(z.ctx, SplitElem(z.focus, slot, name, value))
  {
    hide Plug, Order, Focus, SplitElem, Place;
  }

  lemma SplitWhole(c: Ctx, x: Forest, slot: nat, name: string, value: string)
    requires Whole(c, x) && x.EmptyElem? && |x.start| >= 2 && PlainName(name) && 0 < slot && slot !in Order(Plug(c, x))
    ensures var y := SplitElem(x, slot, name, value);
      Whole(c, y) && Whole(Inside(c, x.slot, x.gap, y.start, y.close, x.rest), y.kids)
  {
    hide Order, Plug, Distinct, Before, Behind, Disjoint, NewElem, DistinctAt, TaggedCtx, ToDoc, OpenTag, TagName, EmptyTag, TagText, CloseTag;
    var y := SplitElem(x, slot, name, value);
    var kid := y.kids;
    PlugTagged(c, x); PlugTagged(c, y);
    NewElemTags(slot, CRLF, name, value, End(CRLF));
    PlugSlots(c, x, slot);
    DistinctSplit(c, x, y.start, kid, y.close);
    SplitTagged(x);
    PlugWrap(Inside(c, x.slot, x.gap, y.start, y.close, x.rest), kid);
  }

  lemma SplitTagged(x: Forest)
    requires x.EmptyElem? && Tagged(x) && |x.start| >= 2
    ensures TagText(OpenTag(x.start)) && TagText(CloseTag(TagName(x.start)))
  {
    hide TagName;
  }

  lemma SplitNew(c: Ctx, x: Forest, slot: nat, name: string, value: string)
    requires x.EmptyElem? && |x.start| >= 2 && PlainName(name)
    requires var y := SplitElem(x, slot, name, value); Whole(Inside(c, x.slot, x.gap, y.start, y.close, x.rest), y.kids)
    ensures var g := Plug(c, SplitElem(x, slot, name, value));
      slot in Order(g) && TagName(Focus(g, slot).focus.start) == name && DataAt(g, slot) == value
  {
    hide Order, Plug, Whole, NewElem, OpenTag, TagName, CloseTag, Focus, DataAt;
    var y := SplitElem(x, slot, name, value);
    var d := Inside(c, x.slot, x.gap, y.start, y.close, x.rest);
    PlugWrap(d, y.kids);
    NewIsRead(d, slot, CRLF, name, value, End(CRLF));
  }

  /** The element around it keeps its name. */
  lemma SplitName(c: Ctx, x: Forest, slot: nat, name: string, value: string)
    requires x.EmptyElem? && ValidStart(x.start) && EmptyTag(x.start) && |x.start| >= 2
    requires Whole(c, SplitElem(x, slot, name, value))
    ensures var g := Plug(c, SplitElem(x, slot, name, value));
      x.slot in Order(g) && TagName(Focus(g, x.slot).focus.start) == TagName(x.start)
  {
    hide Order, Plug, Tagged, Distinct, Before, Behind, Disjoint, NewElem, ValidStart, TagName, EmptyTag, Focus, DistinctAt, OpenTag, Whole, Splittable, ValidClose, CloseTag;
    var y := SplitElem(x, slot, name, value);
    WholeApart(c, y);
    FocusPlug(c, y);
    OpenTagValid(x.start);
  }

  lemma SplitHas(x: Forest, slot: nat, name: string, value: string, s: nat)
    requires x.EmptyElem? && |x.start| >= 2
    ensures var y := SplitElem(x, slot, name, value);
      && (s in Order(y) <==> s == slot || s in Order(x))
      && (s in Order(x) && s != slot && s != x.slot ==> SameElem(Find(x, Top, s).focus, Find(y, Top, s).focus, true))
  {
    hide Order, Plug, Find, Own, NewElem, SameElem, OpenTag, TagName;
    var y := SplitElem(x, slot, name, value);
    var kid := y.kids;
    ElemOrder(x); ElemOrder(y); ElemOrder(kid);
    EndOrder(Kids(kid)); EndOrder(kid.rest); EndOrder(Kids(x));
    if s in Order(x) && s != slot && s != x.slot {
      FindStep(x, Top, s); FindStep(y, Top, s);
      SameItself(Find(x, Top, s).focus);
    }
  }

  /** The offset from which x_LocateNew looks for white space: the start of the sibling `rel` or
      behind its end; behind the start tag of the parent (behind the first character of a document
      without a root), or at its end tag (at the end of such a document). */
  function LookOffset(f: Forest, parent: nat, rel: nat, insert: bool): nat {
    if rel != 0 then
      var z := Focus(f, rel);
      |Pre(z.ctx)| + |z.focus.gap| + (if insert || z.focus.End? then 0 else |OwnText(z.focus)|)
    else if parent != 0 then
      var z := Focus(f, parent);
      |Pre(z.ctx)| + |z.focus.gap| + (if z.focus.End? then 0 else |z.focus.start|) + (if insert then 0 else |Text(Kids(z.focus))|)
    else if insert then 1 else |Text(f)|
  }

  /** The text after x_AddElem: the new element and a line break come in between, behind what is
      passed over there; an empty element loses its '/' and gets an end tag. */
  lemma AddedDoc(f: Forest, slot: nat, parent: nat, rel: nat, insert: bool, name: string, value: string) returns (p: string, q: string)
    requires Tagged(f) && Fits(f, parent, rel, insert)
    ensures var elem := if value == "" then "<" + name + "/>" else "<" + name + ">" + ToDoc(value, false) + "</" + name + ">";
      var g := Added(f, slot, parent, rel, insert, name, value);
      if parent != 0 && Focus(f, parent).focus.EmptyElem? then
        && Text(f) == p + "/>" + q
        && Text(g) == p + ">\r\n" + elem + "\r\n</" + TagName(Focus(f, parent).focus.start) + ">" + q
      else
        var at := LookOffset(f, parent, rel, insert);
        && Text(f) == p + q && Text(g) == p + elem + "\r\n" + q
        && at <= |Text(f)| && |p| == at + Passed(Text(f)[at..])
  {
    hide *;
    FitsParent(f, parent, rel, insert);
    NewTextIs(name, value);
    if parent != 0 && Focus(f, parent).focus.EmptyElem? {
      p, q := SplitDoc(f, slot, parent, rel, insert, name, value);
    } else {
      p, q := AmongDoc(f, slot, parent, rel, insert, name, value);
    }
  }

  lemma SplitDoc(f: Forest, slot: nat, parent: nat, rel: nat, insert: bool, name: string, value: string) returns (p: string, q: string)
    requires Tagged(f) && parent != 0 && parent in Order(f) && Focus(f, parent).focus.EmptyElem?
    ensures Text(f) == p + "/>" + q
    ensures Text(Added(f, slot, parent, rel, insert, name, value))
      == p + ">\r\n" + NewText(name, value) + "\r\n</" + TagName(Focus(f, parent).focus.start) + ">" + q
  {
    hide *;
    var z := Focus(f, parent);
    EmptyFocus(f, parent);
    AddedIsSplit(f, slot, parent, rel, insert, name, value);
    SplitText(z.ctx, z.focus, Text(f), slot, name, value);
    var at := SlashAt(z.ctx, z.focus, Text(f));
    p, q := Text(f)[..at], Text(f)[at + 2..];
    SplitPieces(Text(f), at, NewText(name, value), TagName(z.focus.start));
  }

  lemma AmongDoc(f: Forest, slot: nat, parent: nat, rel: nat, insert: bool, name: string, value: string) returns (p: string, q: string)
    requires Tagged(f) && Fits(f, parent, rel, insert) && (parent != 0 ==> !Focus(f, parent).focus.EmptyElem?)
    ensures var at := LookOffset(f, parent, rel, insert);
      && Text(f) == p + q && Text(Added(f, slot, parent, rel, insert, name, value)) == p + NewText(name, value) + "\r\n" + q
      && at <= |Text(f)| && |p| == at + Passed(Text(f)[at..])
  {
    hide *;
    var z := Place(f, parent, rel, insert);
    var k := PlaceOf(f, slot, parent, rel, insert, name, value);
    AddedText(z.ctx, z.focus, Text(f), k, slot, name, value);
    PlaceIsAt(f, parent, rel, insert, k);
    var at := |Pre(z.ctx)| + k;
    p, q := Text(f)[..at], Text(f)[at..];
    assert Text(f) == p + q;
    SpliceNew(Text(f), at, NewText(name, value));
  }

  lemma SpliceNew(doc: string, at: nat, elem: string)
    requires at <= |doc|
    ensures Splice(doc, at, 0, elem + CRLF) == doc[..at] + elem + "\r\n" + doc[at..]
  {
    assert CRLF == "\r\n";
    assert doc[..at] + (elem + CRLF) + doc[at..] == doc[..at] + elem + CRLF + doc[at..];
  }

  /** The place is what x_LocateNew finds in the text. */
  lemma PlaceIsAt(f: Forest, parent: nat, rel: nat, insert: bool, k: nat)
    requires Tagged(f) && Fits(f, parent, rel, insert) && (parent != 0 ==> !Focus(f, parent).focus.EmptyElem?)
    requires var z := Place(f, parent, rel, insert); k == NewGap(z, LookFrom(z, parent, rel, insert))
    ensures var at, z := LookOffset(f, parent, rel, insert), Place(f, parent, rel, insert);
      at <= |Text(f)| && |Pre(z.ctx)| + k == at + Passed(Text(f)[at..])
  {
    hide Tagged, Order, Plug, Focus, Place, Text, Pre, Post, Fits, SkipTo, Passed, LookFrom, LookOffset;
    var z := Place(f, parent, rel, insert);
    var from := LookFrom(z, parent, rel, insert);
    PlaceFits(f, parent, rel, insert);
    LooksThere(f, parent, rel, insert);
    HoleText(z.ctx, z.focus, Text(f), from);
    RegapText(z.focus, z.focus.gap);
    PassedIs((Text(z.focus) + Post(z.ctx))[from..]);
  }

  lemma PlaceFits(f: Forest, parent: nat, rel: nat, insert: bool)
    requires Tagged(f) && Fits(f, parent, rel, insert) && (parent != 0 ==> !Focus(f, parent).focus.EmptyElem?)
    ensures var z := Place(f, parent, rel, insert);
      f == Plug(z.ctx, z.focus) && LookFrom(z, parent, rel, insert) <= |z.focus.gap|
  {
    hide Tagged, Order, Plug, Focus, Place, ParentOf;
    FullParent(f, parent);
    PlaceAmong(f, parent, rel, insert);
    if parent == 0 && rel == 0 && insert { RootPlace(f, parent, rel, insert); }
  }

  lemma LooksThere(f: Forest, parent: nat, rel: nat, insert: bool)
    requires Fits(f, parent, rel, insert) && (parent != 0 ==> !Focus(f, parent).focus.EmptyElem?)
    ensures var z := Place(f, parent, rel, insert);
      |Pre(z.ctx)| + LookFrom(z, parent, rel, insert) == LookOffset(f, parent, rel, insert)
  {
    hide Order, Plug, Find, Focus, Text, Pre, LastHole, ParentOf, OwnText;
    PreTop();
    if rel != 0 {
      var z := Focus(f, rel);
      TextOf(z.focus);
      ExtendWidth(z.ctx, z.focus);
    } else {
      FullParent(f, parent);
      if parent != 0 { PreWidth(FirstHole(f, parent).ctx); }
      LastHoleWidth(FirstHole(f, parent));
    }
  }

  lemma FitsParent(f: Forest, parent: nat, rel: nat, insert: bool)
    requires Fits(f, parent, rel, insert)
    ensures parent != 0 ==> parent in Order(f)
  {
    hide Order, Focus;
  }

  lemma EmptyFocus(f: Forest, i: nat)
    requires Tagged(f) && i in Order(f) && Focus(f, i).focus.EmptyElem?
    ensures var z := Focus(f, i);
      f == Plug(z.ctx, z.focus) && TagText(z.focus.start) && EmptyTag(z.focus.start) && |z.focus.start| >= 2
  {
    hide Order, Find, Plug;
    var z := Focus(f, i);
    PlugTagged(z.ctx, z.focus);
  }

  lemma NewTextIs(name: string, value: string)
    ensures NewText(name, value) == if value == "" then "<" + name + "/>" else "<" + name + ">" + ToDoc(value, false) + "</" + name + ">"
  {
    hide ToDoc;
  }

  lemma SlashAt(c: Ctx, x: Forest, doc: string) returns (at: nat)
    requires x.EmptyElem? && TagText(x.start) && EmptyTag(x.start) && doc == Text(Plug(c, x))
    ensures at == |Pre(c)| + |x.gap| + |x.start| - 2 && at + 2 <= |doc| && doc[at] == '/' && doc[at + 1] == '>'
  {
    hide Plug, Pre, Post;
    PlugText(c, x);
    var t := Pre(c) + x.gap;
    assert doc == t + (x.start + (Text(x.rest) + Post(c)));
    at := |Pre(c)| + |x.gap| + |x.start| - 2;
    assert doc[at] == x.start[|x.start| - 2] && doc[at + 1] == x.start[|x.start| - 1];
  }

  lemma SplitPieces(doc: string, at: nat, elem: string, name: string)
    requires at + 2 <= |doc| && doc[at] == '/' && doc[at + 1] == '>'
    ensures var p, q := doc[..at], doc[at + 2..];
      && doc == p + "/>" + q
      && Splice(doc, at, 1, ">" + CRLF + elem + CRLF + "</" + name) == p + ">\r\n" + elem + "\r\n</" + name + ">" + q
  {
    assert doc[at + 1..] == ">" + doc[at + 2..];
    var p, q := doc[..at], doc[at + 2..];
    assert ">" + CRLF == ">\r\n" && CRLF + "</" == "\r\n</";
    assert p + (">" + CRLF + elem + CRLF + "</" + name) + (">" + q) == p + (">" + CRLF) + elem + (CRLF + "</") + name + ">" + q;
  }

  // ---- x_RemoveElem

  /** RemoveElem takes exactly the element and those in it; all others are as they were, up to the
      data of the element around it. */
  lemma RemovedKeeps(f: Forest, i: nat)
    requires Tagged(f) && Distinct(Order(f)) && 0 !in Order(f) && i in Order(f)
    ensures var z, g := Focus(f, i), RemovedForest(f, i);
      && (forall s :: s in Order(g) <==> s in Order(f) && s != i && s !in Order(Kids(z.focus)))
      && (forall s :: s in Order(g) ==> Kept(f, g, s, s != ParentOf(z.ctx, 0)))
  {
    hide *;
    var z := Focus(f, i);
    var c, x := z.ctx, z.focus;
    WholeParts(f, c, x);
    var k := RemovedIs(f, i);
    var y := Without(x, k);
    WithoutWhole(c, x, k);
    forall s
      ensures s in Order(Plug(c, y)) <==> s in Order(f) && s != i && s !in Order(Kids(x))
      ensures s in Order(Plug(c, y)) ==> Kept(f, Plug(c, y), s, s != ParentOf(c, 0))
    {
      PlugSlots(c, x, s); PlugSlots(c, y, s);
      WithoutHas(c, x, k, s);
      if s in Order(y) {
        KeptInside(c, x, y, s, true);
        KeptFor(f, Plug(c, y), s, true, s != ParentOf(c, 0));
      } else if s in Order(Plug(c, y)) {
        KeptAround(c, x, y, s);
        KeptFor(f, Plug(c, y), s, s != ParentOf(c, 0) || (!x.End? && !y.End?), s != ParentOf(c, 0));
      }
    }
  }

  lemma RemovedIs(f: Forest, i: nat) returns (k: nat)
    requires Tagged(f) && i in Order(f)
    ensures var z := Focus(f, i);
      && f == Plug(z.ctx, z.focus) && !z.focus.End? && z.focus.slot == i
      && k == SkipTo(Text(z.focus.rest) + Post(z.ctx)) <= |z.focus.rest.gap|
      && RemovedForest(f, i) == Plug(z.ctx, Without(z.focus, k))
  {
    hide Order, Find, Plug, TaggedCtx, Text, Post, SkipTo, TagText, EmptyTag;
    var z := Focus(f, i);
    PlugTagged(z.ctx, z.focus);
    PostStartsTag(z.ctx);
    k := SkipTo(Text(z.focus.rest) + Post(z.ctx));
    SkipInGap(z.focus.rest, 0, Post(z.ctx));
    assert (Text(z.focus.rest) + Post(z.ctx))[0..] == Text(z.focus.rest) + Post(z.ctx);
  }

  lemma WithoutWhole(c: Ctx, x: Forest, k: nat)
    requires Whole(c, x) && !x.End? && k <= |x.rest.gap|
    ensures Whole(c, Without(x, k))
  {
    hide Order, Plug, TaggedCtx, Before, Behind, TagText, EmptyTag;
    var g := x.gap + x.rest.gap[k..];
    PlugTagged(c, x); PlugTagged(c, Without(x, k));
    RegapForm(x.rest, g, false);
    RegapFacts([], x.rest, g, 0, 0);
    ElemOrder(x);
    DistinctParts([x.slot] + Order(Kids(x)), Order(x.rest));
  }

  lemma WithoutHas(c: Ctx, x: Forest, k: nat, s: nat)
    requires Whole(c, x) && !x.End? && k <= |x.rest.gap|
    ensures var y := Without(x, k);
      && x.slot in Order(x) && (s in Order(Kids(x)) ==> s in Order(x))
      && (s in Before(c) || s in Behind(c) ==> s !in Order(x))
      && (s in Order(y) <==> s in Order(x) && s != x.slot && s !in Order(Kids(x)))
      && (s in Order(y) ==> SameElem(Find(x, Top, s).focus, Find(y, Top, s).focus, true))
  {
    hide Order, Plug, Find, Own, SameElem, Tagged, Before, Behind;
    var g := x.gap + x.rest.gap[k..];
    ElemOrder(x);
    DistinctParts([x.slot] + Order(Kids(x)), Order(x.rest));
    RegapFacts([], x.rest, g, 0, 0);
    assert x.slot in [x.slot] + Order(Kids(x));
    assert s in [x.slot] + Order(Kids(x)) <==> s == x.slot || s in Order(Kids(x));
    if s in Order(x.rest) {
      SameRegapped(x.rest, g, Top, s);
      FindStep(x, Top, s);
    }
  }

  /** The text after RemoveElem: the element is gone from its start tag to its end tag, and with it
      what is passed over behind it; all other characters stay. */
  lemma RemovedText(f: Forest, i: nat) returns (p: string, t: string)
    requires Tagged(f) && i in Order(f)
    ensures var z := Focus(f, i);
      && Text(f) == p + OwnText(z.focus) + t && |p| == |Pre(z.ctx)| + |z.focus.gap|
      && Text(RemovedForest(f, i)) == p + t[Passed(t)..]
  {
    hide Tagged, Order, Focus, Plug, Text, Pre, Post, Without, OwnText, SkipTo, Splice, RemovedForest, Passed;
    var z := Focus(f, i);
    var c, x := z.ctx, z.focus;
    var k := RemovedIs(f, i);
    p, t := Pre(c) + x.gap, Text(x.rest) + Post(c);
    PassedIs(t);
    PlugText(c, x);
    TextOf(x);
    assert Pre(c) + (x.gap + OwnText(x) + Text(x.rest)) + Post(c) == p + OwnText(x) + t;
    SpliceRemove(c, x, Text(f), k);
    CutAway(p, OwnText(x), t, k);
  }

  lemma CutAway(p: string, e: string, t: string, k: nat)
    requires k <= |t|
    ensures Splice(p + e + t, |p|, |e| + k, "") == p + t[k..]
  {
    var s := p + e + t;
    assert s[..|p|] == p && s[|p| + |e| + k..] == t[k..];
  }

  /** A quote between an element and the next one is character data, but it goes with the element:
      when "<b/>" is removed from "<a><b/>\"<c/></a>", "<a><c/></a>" is left. */
  lemma QuoteGoes(c: Ctx, x: Forest)
    requires !x.End? && Tagged(Plug(c, x)) && x.slot !in Before(c) && x.rest.gap == "\"" && !x.rest.End?
    ensures x.slot in Order(Plug(c, x)) && RemovedForest(Plug(c, x), x.slot) == Plug(c, WithGap(x.rest, x.gap))
    ensures SkipTo("\"<c/></a>") == 1
  {
    hide Order, Focus, Plug, Text, Tagged, SkipTo, Post, Before, TaggedCtx;
    FocusPlug(c, x);
    PlugTagged(c, x);
    TagsOf(x);
    RestTagged(x);
    TextAfterGap(x.rest);
    RegapText(x.rest, "");
    var s := Text(x.rest) + Post(c);
    assert s[0] == '\"' && s[1] == '<' && s == "" + s;
    SkipsBlanks("", s);
    assert x.gap + x.rest.gap[1..] == x.gap;
    var t := "\"<c/></a>";
    assert t == "" + t && t[0] == '\"' && t[1] == '<';
    SkipsBlanks("", t);
  }

  lemma RestTagged(x: Forest)
    requires !x.End? && Tagged(x)
    ensures Tagged(x.rest)
  {
  }

  // ---- x_SetData, x_SetAttrib and x_RemoveAttrib

  lemma ReplacedHas(x: Forest, y: Forest, s: nat)
    requires !x.End? && !y.End? && x.slot == y.slot && x.rest == y.rest
    requires Kids(x) == Kids(y) || (Kids(x).End? && Kids(y).End?)
    ensures s in Order(x) <==> s in Order(y)
    ensures s in Order(x) && s != x.slot ==> SameElem(Find(x, Top, s).focus, Find(y, Top, s).focus, true)
  {
    hide Order, Plug, Find, Own, SameElem, Kids;
    ElemOrder(x); ElemOrder(y);
    if Kids(x).End? && Kids(y).End? { EndOrder(Kids(x)); EndOrder(Kids(y)); }
    if s in Order(x) && s != x.slot {
      FindStep(x, Top, s); FindStep(y, Top, s);
      SameItself(Find(x, Top, s).focus);
    }
  }

  /** An element replaced: all others are as they were. */
  lemma ReplacedKeeps(c: Ctx, x: Forest, y: Forest)
    requires Whole(c, x) && Tagged(y) && !x.End? && !y.End? && x.slot == y.slot && x.rest == y.rest
    requires Kids(x) == Kids(y) || (Kids(x).End? && Kids(y).End?)
    ensures var f, g := Plug(c, x), Plug(c, y);
      && Order(g) == Order(f) && Tagged(g)
      && forall s :: s in Order(f) && s != x.slot ==> Kept(f, g, s, true)
  {
    hide *;
    var f, g := Plug(c, x), Plug(c, y);
    ReplacedWhole(c, x, y);
    forall s | s in Order(f) && s != x.slot
      ensures Kept(f, g, s, true)
    {
      PlugSlots(c, x, s);
      ReplacedHas(x, y, s);
      if s in Order(x) {
        KeptInside(c, x, y, s, true);
      } else {
        KeptAround(c, x, y, s);
        KeptFor(f, g, s, s != ParentOf(c, 0) || (!x.End? && !y.End?), true);
      }
    }
  }

  lemma ReplacedWhole(c: Ctx, x: Forest, y: Forest)
    requires Whole(c, x) && Tagged(y) && !x.End? && !y.End? && x.slot == y.slot && x.rest == y.rest
    requires Kids(x) == Kids(y) || (Kids(x).End? && Kids(y).End?)
    ensures Whole(c, y) && Order(Plug(c, y)) == Order(Plug(c, x)) && Tagged(Plug(c, y))
  {
    hide Order, Plug, TaggedCtx, Before, Behind, Tagged, Kids, Distinct;
    PlugTagged(c, x); PlugTagged(c, y);
    ElemOrder(x); ElemOrder(y);
    if Kids(x).End? && Kids(y).End? { EndOrder(Kids(x)); EndOrder(Kids(y)); }
    PlugOrder(c, x); PlugOrder(c, y);
  }

  /** x_SetData touches no other element. */
  lemma RefilledKeeps(f: Forest, i: nat, ins: string)
    requires Tagged(f) && Distinct(Order(f)) && 0 !in Order(f) && i in Order(f) && Kids(Focus(f, i).focus).End?
    ensures |Focus(f, i).focus.start| >= 2
    ensures var z := Focus(f, i);
      var g := Plug(z.ctx, Refilled(z.focus, ins));
      && Order(g) == Order(f)
      && forall s :: s in Order(f) && s != i ==> Kept(f, g, s, true)
  {
    hide Order, Find, Plug, Distinct, Tagged, TaggedCtx, Kept, Whole, DataAt;
    var z := Focus(f, i);
    WholeParts(f, z.ctx, z.focus);
    TagsOf(z.focus);
    RefilledTagged(z.focus, ins);
    ReplacedKeeps(z.ctx, z.focus, Refilled(z.focus, ins));
  }

  /** The text after x_SetData: what is between the tags is replaced; an empty element loses its '/' and
      gets an end tag. */
  lemma RefilledDoc(f: Forest, i: nat, ins: string) returns (p: string, q: string)
    requires Tagged(f) && i in Order(f) && Kids(Focus(f, i).focus).End?
    ensures |Focus(f, i).focus.start| >= 2
    ensures var x := Focus(f, i).focus;
      var g := Plug(Focus(f, i).ctx, Refilled(x, ins));
      if x.EmptyElem? then Text(f) == p + "/>" + q && Text(g) == p + ">" + ins + "</" + TagName(x.start) + ">" + q
      else Text(f) == p + x.kids.gap + q && Text(g) == p + ins + q && |p| == |Pre(Focus(f, i).ctx)| + |x.gap| + |x.start|
  {
    hide *;
    var z := Focus(f, i);
    FocusIs(f, i);
    TagsOf(z.focus);
    if z.focus.EmptyElem? {
      p, q := Pre(z.ctx) + z.focus.gap + z.focus.start[..|z.focus.start| - 2], Text(z.focus.rest) + Post(z.ctx);
      RefilledEmpty(z.ctx, z.focus, ins);
    } else {
      IsFull(z.focus);
      p, q := Pre(z.ctx) + z.focus.gap + z.focus.start, z.focus.close + (Text(z.focus.rest) + Post(z.ctx));
      RefilledFull(z.ctx, z.focus, ins);
    }
  }

  lemma FocusIs(f: Forest, i: nat)
    requires Tagged(f) && i in Order(f)
    ensures var z := Focus(f, i); f == Plug(z.ctx, z.focus) && !z.focus.End? && Tagged(z.focus)
  {
    hide Order, Find, Plug, Tagged, TaggedCtx;
    var z := Focus(f, i);
    PlugTagged(z.ctx, z.focus);
  }

  lemma IsFull(x: Forest)
    ensures !x.End? && !x.EmptyElem? && Kids(x).End? ==> x.FullElem? && x.kids.End?
  {
  }

  lemma RefilledEmpty(c: Ctx, x: Forest, ins: string)
    requires x.EmptyElem? && Tagged(x) && |x.start| >= 2
    ensures var p, q := Pre(c) + x.gap + x.start[..|x.start| - 2], Text(x.rest) + Post(c);
      && Text(Plug(c, x)) == p + "/>" + q
      && Text(Plug(c, Refilled(x, ins))) == p + ">" + ins + "</" + TagName(x.start) + ">" + q
  {
    hide Plug, TagName, TagText, EmptyTag, Text, Pre, Post;
    var y := Refilled(x, ins);
    PlugText(c, x); PlugText(c, y);
    TextOf(x); TextOf(y);
    EndText(ins);
    EmptyTagText(x.start);
    assert x.start + "" == x.start;
    FilledText(Pre(c), x.gap, x.start[..|x.start| - 2], ins, TagName(x.start), Text(x.rest), Post(c));
  }

  lemma RefilledFull(c: Ctx, x: Forest, ins: string)
    requires x.FullElem? && x.kids.End? && |x.start| >= 2
    ensures var p, q := Pre(c) + x.gap + x.start, x.close + (Text(x.rest) + Post(c));
      Text(Plug(c, x)) == p + x.kids.gap + q && Text(Plug(c, Refilled(x, ins))) == p + ins + q
  {
    hide Plug, TagName, Text, Pre, Post;
    var y := Refilled(x, ins);
    PlugText(c, x); PlugText(c, y);
    TextOf(x); TextOf(y);
    EndText(ins); EndText(x.kids.gap);
    assert x.kids == End(x.kids.gap);
    BodyText(Pre(c), x.gap, x.start, x.kids.gap, x.close, Text(x.rest), Post(c));
    BodyText(Pre(c), x.gap, x.start, ins, x.close, Text(x.rest), Post(c));
  }

  lemma EndText(g: string)
    ensures Text(End(g)) == g
  {
  }

  lemma EmptyTagText(t: string)
    requires TagText(t) && EmptyTag(t)
    ensures t == t[..|t| - 2] + "/>" && OpenTag(t) == t[..|t| - 2] + ">"
  {
  }

  lemma FilledText(p: string, g: string, t: string, ins: string, name: string, r: string, q: string)
    ensures p + (g + (t + "/>") + r) + q == (p + g + t) + "/>" + (r + q)
    ensures p + (g + ((t + ">") + (ins + ("</" + name + ">"))) + r) + q == (p + g + t) + ">" + ins + "</" + name + ">" + (r + q)
  {
  }

  lemma BodyText(p: string, g: string, t: string, b: string, c: string, r: string, q: string)
    ensures p + (g + (t + (b + c)) + r) + q == (p + g + t) + b + (c + (r + q))
  {
  }

  /** The text that x_SetData puts there. */
  lemma DataTextIs(data: string, cdata: bool)
    ensures DataText(data, cdata) ==
      if cdata && (forall k :: 0 <= k <= |data| ==> !("]]>" <= data[k..])) then "<![CDATA[" + data + "]]>" else ToDoc(data, false)
  {
    hide FindStr, ToDoc;
    var n := FindStr(data, "]]>");
    if n >= 0 { assert OccursAt(data, "]]>", n); MarkThere(data, n); }
    forall k: nat | k <= |data| && n == -1
      ensures !("]]>" <= data[k..])
    {
      assert !OccursAt(data, "]]>", k);
      MarkThere(data, k);
    }
    assert "<![CDATA[" + (data + "]]>") == "<![CDATA[" + data + "]]>";
  }

  lemma MarkThere(s: string, k: nat)
    requires k <= |s|
    ensures OccursAt(s, "]]>", k) <==> "]]>" <= s[k..]
  {
    if k + 3 <= |s| { assert s[k..][..3] == s[k..k + 3]; }
  }

  /** The text after x_SetAttrib or x_RemoveAttrib: the start tag is replaced. */
  lemma RetaggedDoc(f: Forest, i: nat, t: string) returns (p: string, q: string)
    requires i in Order(f)
    ensures var z := Focus(f, i);
      && Text(f) == p + z.focus.start + q && Text(Plug(z.ctx, WithStart(z.focus, t))) == p + t + q
      && |p| == |Pre(z.ctx)| + |z.focus.gap|
  {
    hide Order, Find, Focus, Plug, Text, Pre, Post;
    var z := Focus(f, i);
    var c, x := z.ctx, z.focus;
    var y := WithStart(x, t);
    PlugText(c, x); PlugText(c, y);
    TextOf(x); TextOf(y);
    p, q := Pre(c) + x.gap, PastStart(x) + (Text(x.rest) + Post(c));
    TagAlone(Pre(c), x.gap, x.start, PastStart(x), Text(x.rest), Post(c));
    TagAlone(Pre(c), x.gap, t, PastStart(x), Text(x.rest), Post(c));
  }

  lemma TagAlone(p: string, g: string, t: string, b: string, r: string, q: string)
    ensures p + (g + (t + b) + r) + q == (p + g) + t + (b + (r + q))
  {
  }

  lemma RefilledTagged(x: Forest, ins: string)
    requires !x.End? && Tagged(x) && Kids(x).End? && |x.start| >= 2
    ensures var y := Refilled(x, ins); Tagged(y) && !y.End? && y.slot == x.slot && y.rest == x.rest && Kids(y).End?
  {
    hide TagName;
    if x.EmptyElem? { SplitTagged(x); }
  }

  /** x_SetAttrib and x_RemoveAttrib touch no other element, and leave the data of this one. */
  lemma RetaggedKeeps(f: Forest, i: nat, t: string)
    requires Tagged(f) && Distinct(Order(f)) && 0 !in Order(f) && i in Order(f)
    requires TagText(t) && (EmptyTag(t) <==> Focus(f, i).focus.EmptyElem?)
    ensures var z := Focus(f, i);
      var g := Plug(z.ctx, WithStart(z.focus, t));
      && Order(g) == Order(f) && DataAt(g, i) == DataAt(f, i)
      && forall s :: s in Order(f) && s != i ==> Kept(f, g, s, true)
  {
    hide Order, Find, Plug, Distinct, Tagged, TaggedCtx, Kept, Whole, DataAt, Own, TagText, EmptyTag, WithStart;
    var z := Focus(f, i);
    var y := WithStart(z.focus, t);
    WholeParts(f, z.ctx, z.focus);
    RetaggedTagged(z.focus, t);
    ReplacedKeeps(z.ctx, z.focus, y);
    ReplacedWhole(z.ctx, z.focus, y);
    WholeApart(z.ctx, y);
    FocusPlug(z.ctx, y);
    DataIsOwn(f, i);
    DataIsOwn(Plug(z.ctx, y), i);
  }

  lemma RetaggedTagged(x: Forest, t: string)
    requires !x.End? && Tagged(x) && TagText(t) && (EmptyTag(t) <==> x.EmptyElem?)
    ensures var y := WithStart(x, t); Tagged(y) && !y.End? && y.slot == x.slot && y.rest == x.rest && Kids(y) == Kids(x) && Own(y) == Own(x)
  {
    hide DataIn, TagText, EmptyTag;
  }

  // ---- Runs of the class

  /** x_AddElem and then x_GetData of the new element, which is the current one or the current child:
      the value that was given, in every variant. */
  method AddAndGet(m: CMarkup, name: string, value: string, insert: bool, child: bool) returns (ok: bool, data: string)
    requires m.Valid() && PlainName(name) && m.Addable(insert, child)
    modifies m
    ensures m.Valid() && (ok <==> if child then old(m.iPos) != 0 else old(m.iPosParent) != 0 || old(m.forest).End?)
    ensures ok ==> data == value
    ensures ok ==> var i := if child then m.iPosChild else m.iPos;
      && i in Order(m.forest) && TagName(Focus(m.forest, i).focus.start) == name
      && (forall s :: s in Order(m.forest) <==> s == i || s in Order(old(m.forest)))
      && (forall s :: s in Order(old(m.forest)) && s != (if child then m.iPos else m.iPosParent) ==> Kept(old(m.forest), m.forest, s, true))
  {
    hide Order, Focus, Added, Tagged, WellFormed, DataAt, Fits, Distinct, Kept, TagName, PlainName, CMarkup.Valid, CMarkup.Addable, KeepsForm;
    ghost var f, slot := m.forest, m.iPosFree;
    ghost var parent, rel := if child then m.iPos else m.iPosParent, if child then m.iPosChild else m.iPos;
    ghost var fits := (if child then m.iPos != 0 else m.iPosParent != 0 || f.End?);
    if fits { AddFits(m, insert, child); }
    ok := m.AddElem(name, value, insert, child);
    data := "";
    if ok {
      AddedIsRead(f, slot, parent, rel, insert, name, value);
      data := m.GetData(if child then m.iPosChild else m.iPos);
    }
  }

  lemma AddFits(m: CMarkup, insert: bool, child: bool)
    requires m.Valid() && m.Addable(insert, child)
    requires if child then m.iPos != 0 else m.iPosParent != 0 || m.forest.End?
    ensures Tagged(m.forest) && WellFormed(m.forest, false) && Distinct(Order(m.forest)) && 0 !in Order(m.forest)
    ensures 0 < m.iPosFree && m.iPosFree !in Order(m.forest)
    ensures var parent, rel := if child then m.iPos else m.iPosParent, if child then m.iPosChild else m.iPos;
      Fits(m.forest, parent, rel, insert)
  {
    hide Order, Find, Focus, Tagged, WellFormed, Linked, Placed, Distinct, Splittable, Text;
    var parent, rel := if child then m.iPos else m.iPosParent, if child then m.iPosChild else m.iPos;
    if rel != 0 { m.AtElement(rel); }
    if rel != 0 && parent != 0 { m.ParentIsFull(parent, rel); }
    if parent == 0 { m.RootShape(); EndOrder(m.forest); RootText(m); }
  }

  lemma RootText(m: CMarkup)
    requires m.Valid() && m.forest.End?
    ensures m.forest.gap == m.doc
  {
    hide Tagged, WellFormed, Represents;
  }
}
