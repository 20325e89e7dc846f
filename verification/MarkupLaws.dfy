/** Laws that tie the operations of CMarkupSTL together: what is set is what is read, what
    is undone leaves no trace, and a re-parse sees the offsets the index holds. */
module MarkupLaws {
  import opened MarkupText
  import opened MarkupGrammar
  import opened MarkupTree
  import opened MarkupAdjust
  import opened MarkupEdits
  import opened MarkupEntities
  import opened MarkupSplice
  import opened MarkupTags
  import opened MarkupAttribs
  import opened MarkupValid
  import opened MarkupAdd
  import opened MarkupParse
  import opened Markup

  // ---- Finding the place of an edit again

  lemma {:induction false} FindPlug(c: Ctx, x: Forest, s: nat)
    requires s in Order(x) && s !in Before(c)
    ensures Find(Plug(c, x), Top, s) == Find(x, c, s)
  {
    match c
    case Top =>
    case AfterEmpty(outer, slot, gap, start) =>
      var y := EmptyElem(slot, gap, start, x);
      FindPlug(outer, y, s);
    case AfterFull(outer, slot, gap, start, kids, close) =>
      var y := FullElem(slot, gap, start, kids, close, x);
      FindPlug(outer, y, s);
    case Inside(outer, slot, gap, start, close, rest) =>
      var y := FullElem(slot, gap, start, x, close, rest);
      FindPlug(outer, y, s);
  }

  lemma FocusPlug(c: Ctx, x: Forest)
    requires !x.End? && x.slot !in Before(c)
    ensures Focus(Plug(c, x), x.slot) == Zipper(c, x) && x.slot in Order(Plug(c, x))
  {
    ElemOrder(x);
    assert x.slot in [x.slot] && x.slot in Order(x);
    FindPlug(c, x, x.slot);
    PlugOrder(c, x);
  }

  /** The slots in front of an element are not its own. */
  lemma FocusBefore(f: Forest, i: nat)
    requires i in Order(f) && Distinct(Order(f))
    ensures i !in Before(Focus(f, i).ctx)
  {
    hide Order, Before, Behind, Plug, Focus;
    var z := Focus(f, i);
    PlugOrder(z.ctx, z.focus);
    ElemOrder(z.focus);
    DistinctParts(Before(z.ctx) + Order(z.focus), Behind(z.ctx));
    DistinctParts(Before(z.ctx), Order(z.focus));
    assert i in [z.focus.slot] && i in Order(z.focus);
  }

  // ---- Data

  /** x_GetData after x_SetData gives the data, for any data and in either form. */
  lemma SetThenGetData(f: Forest, i: nat, data: string, cdata: bool)
    requires i in Order(f) && Distinct(Order(f)) && Tagged(f) && Kids(Focus(f, i).focus).End?
    ensures |Focus(f, i).focus.start| >= 2
    ensures var z := Focus(f, i);
      var g := Plug(z.ctx, Refilled(z.focus, DataText(data, cdata)));
      i in Order(g) && DataAt(g, i) == data
  {
    hide Order, Plug, Focus, Tagged, TaggedCtx, DataText, DataIn, Tail, Text, Post, TagName, TagText;
    var z := Focus(f, i);
    PlugTagged(z.ctx, z.focus);
    TagsOf(z.focus);
    var ins := DataText(data, cdata);
    var y := Refilled(z.focus, ins);
    FocusBefore(f, i);
    FocusPlug(z.ctx, y);
    var x := Tail(WithBody(y, "", "", y.close)) + Post(z.ctx);
    assert x != "" && x[0] == '<' by { CloseComes(y); }
    DataReads(data, cdata, x);
  }

  lemma TagsOf(x: Forest)
    requires !x.End? && Tagged(x)
    ensures |x.start| >= 2 && (x.FullElem? ==> x.close != "" && x.close[0] == '<')
  {
  }

  lemma CloseComes(y: Forest)
    requires y.FullElem? && y.close != "" && y.close[0] == '<'
    ensures var t := Tail(WithBody(y, "", "", y.close)); t != "" && t[0] == '<'
  {
    hide Text;
    assert Text(End("")) == "" by { TextNone(); }
  }

  lemma TextNone()
    ensures Text(End("")) == ""
  {
  }

  // ---- Attributes

  /** What x_GetAttrib reads for element `i`. */
  function AttribAt(f: Forest, i: nat, name: string): string
    requires i in Order(f)
  {
    var t := Focus(f, i).focus.start;
    if t == "" then "" else AttribOf(t, name)
  }

  /** x_GetAttrib after x_SetAttrib gives the value, and every other attribute of the
      element as before. */
  lemma SetThenGetAttrib(f: Forest, i: nat, t: Tag, name: string, value: string, other: string)
    requires i in Order(f) && Distinct(Order(f)) && t.Valid() && Focus(f, i).focus.start == t.Text()
    requires PlainName(name) && PlainName(other)
    ensures |t.Text()| >= 2
    ensures var z := Focus(f, i);
      var g := Plug(z.ctx, WithStart(z.focus, SetTag(t.Text(), t.empty, name, value)));
      && i in Order(g) && AttribAt(g, i, name) == value
      && (other != name ==> AttribAt(g, i, other) == AttribAt(f, i, other))
  {
    hide Order, Plug, Focus, AttribOf, SetTag, Tag.Text, Tag.Valid, PlainName;
    SetThenGet(t, name, value, other);
    var z := Focus(f, i);
    FocusBefore(f, i);
    FocusPlug(z.ctx, WithStart(z.focus, SetTag(t.Text(), t.empty, name, value)));
  }

  /** The index of a document is determined by its tree. */
  lemma {:induction false} LinksDetermined(a: seq<ElemPos>, b: seq<ElemPos>, f: Forest, p: nat, s: nat)
    requires Linked(a, f, p) && Linked(b, f, p) && s in Order(f)
    ensures s < |a| && s < |b| && a[s].parent == b[s].parent && a[s].child == b[s].child && a[s].next == b[s].next
  {
    ElemOrder(f);
    if s != f.slot {
      if s in Order(f.rest) {
        LinksDetermined(a, b, f.rest, p, s);
      } else {
        LinksDetermined(a, b, Kids(f), f.slot, s);
      }
    }
  }

  lemma {:induction false} OffsetsDetermined(a: seq<ElemPos>, b: seq<ElemPos>, f: Forest, base: int, s: nat)
    requires Placed(a, f, base) && Placed(b, f, base) && s in Order(f)
    ensures s < |a| && s < |b| && SameTags(a[s], b[s])
  {
    ElemOrder(f);
    if s != f.slot {
      var inner := base + |f.gap| + |f.start|;
      if s in Order(f.rest) {
        OffsetsDetermined(a, b, f.rest, if f.FullElem? then inner + |Text(f.kids)| + |f.close| else inner, s);
      } else {
        assert f.FullElem?;
        OffsetsDetermined(a, b, f.kids, inner, s);
      }
    }
  }

  predicate SameTags(p: ElemPos, q: ElemPos) {
    p.startL == q.startL && p.startR == q.startR && p.endL == q.endL && p.endR == q.endR
  }

  lemma IndexDetermined(a: seq<ElemPos>, b: seq<ElemPos>, f: Forest)
    requires Represents(a, f) && Represents(b, f)
    ensures forall s :: s in Order(f) ==> s < |a| && s < |b| && a[s] == b[s]
  {
    hide Order, Linked, Placed, Distinct;
    forall s | s in Order(f)
      ensures s < |a| && s < |b| && a[s] == b[s]
    {
      LinksDetermined(a, b, f, 0, s);
      OffsetsDetermined(a, b, f, 0, s);
    }
  }

  /** Removing an attribute that was absent before it was set gives back the document. */
  lemma SetThenRemoveAttrib(f: Forest, i: nat, t: Tag, name: string, value: string)
    requires i in Order(f) && Distinct(Order(f)) && t.Valid() && Focus(f, i).focus.start == t.Text()
    requires PlainName(name) && IndexOf(t.list, name) == |t.list|
    ensures |t.Text()| >= 2
    ensures var z := Focus(f, i);
      var s := SetTag(t.Text(), t.empty, name, value);
      var g := Plug(z.ctx, WithStart(z.focus, s));
      && i in Order(g) && s != ""
      && Focus(g, i) == Zipper(z.ctx, WithStart(z.focus, s))
      && Plug(z.ctx, WithStart(WithStart(z.focus, s), CutTag(s, name))) == f
  {
    hide Order, Plug, SetTag, CutTag, Tag.Text, Tag.Valid, PlainName, IndexOf, Find;
    SetThenRemove(t, name, value);
    var z := Focus(f, i);
    FocusBefore(f, i);
    FocusPlug(z.ctx, WithStart(z.focus, SetTag(t.Text(), t.empty, name, value)));
    SameStart(z.focus);
  }

  lemma SameStart(x: Forest)
    requires !x.End?
    ensures forall s :: WithStart(WithStart(x, s), x.start) == x
  {
  }

  // ---- Re-parsing

  /** The offsets of a list of slots. */
  predicate SameOffsetsAlong(a: seq<ElemPos>, o: seq<nat>, b: seq<ElemPos>, q: seq<nat>) {
    |o| == |q| && forall k :: 0 <= k < |o| ==> o[k] < |a| && q[k] < |b| && SameTags(a[o[k]], b[q[k]])
  }

  lemma AlongJoin(a: seq<ElemPos>, o1: seq<nat>, o2: seq<nat>, b: seq<ElemPos>, q1: seq<nat>, q2: seq<nat>)
    requires SameOffsetsAlong(a, o1, b, q1) && SameOffsetsAlong(a, o2, b, q2)
    ensures SameOffsetsAlong(a, o1 + o2, b, q1 + q2)
  {
  }

  /** Two indexes of one text that differ in slot numbers have the same offsets, element by
      element in document order. */
  lemma {:induction false} EraseOffsets(a: seq<ElemPos>, f: Forest, b: seq<ElemPos>, g: Forest, base: int)
    requires Placed(a, f, base) && Placed(b, g, base) && Erase(f) == Erase(g)
    ensures SameOffsetsAlong(a, Order(f), b, Order(g))
    decreases f
  {
    hide SameOffsetsAlong, EmptyAt, FullAt, SameTags, Text, Erase;
    EraseParts(f, g);
    match f
    case End(_) => AlongNone(a, b);
    case EmptyElem(slot, gap, start, rest) =>
      OneAlong(a[slot], b[g.slot], a, slot, b, g.slot, base + |gap|, |start|, 0, 0);
      EraseOffsets(a, rest, b, g.rest, base + |gap| + |start|);
      AlongJoin(a, [slot], Order(rest), b, [g.slot], Order(g.rest));
    case FullElem(slot, gap, start, kids, close, rest) =>
      EraseText(kids); EraseText(g.kids);
      OneAlong(a[slot], b[g.slot], a, slot, b, g.slot, base + |gap|, |start|, |Text(kids)|, |close|);
      EraseOffsets(a, kids, b, g.kids, base + |gap| + |start|);
      EraseOffsets(a, rest, b, g.rest, base + |gap| + |start| + |Text(kids)| + |close|);
      AlongJoin(a, [slot], Order(kids), b, [g.slot], Order(g.kids));
      AlongJoin(a, [slot] + Order(kids), Order(rest), b, [g.slot] + Order(g.kids), Order(g.rest));
  }

  lemma EraseParts(f: Forest, g: Forest)
    requires Erase(f) == Erase(g)
    ensures f.End? <==> g.End?
    ensures f.EmptyElem? <==> g.EmptyElem?
    ensures !f.End? ==> f.gap == g.gap && f.start == g.start && Erase(f.rest) == Erase(g.rest)
    ensures f.FullElem? ==> f.close == g.close && Erase(f.kids) == Erase(g.kids)
  {
  }

  lemma AlongNone(a: seq<ElemPos>, b: seq<ElemPos>)
    ensures SameOffsetsAlong(a, [], b, [])
  {
  }

  /** The offsets of one element. */
  lemma OneAlong(p: ElemPos, q: ElemPos, a: seq<ElemPos>, s: nat, b: seq<ElemPos>, t: nat, at: int, start: int, inner: int, close: int)
    requires s < |a| && t < |b| && a[s] == p && b[t] == q
    requires (EmptyAt(p, at, start) && EmptyAt(q, at, start)) || (FullAt(p, at, start, inner, close) && FullAt(q, at, start, inner, close))
    ensures SameOffsetsAlong(a, [s], b, [t])
  {
  }

  // ---- Which documents are read back as they are

  /** The text of the document is read as the document itself. */
  predicate ReadBack(g: Forest) {
    ReadDoc(Text(g)).Read? && Erase(ReadDoc(Text(g)).f) == Erase(g)
  }

  lemma {:induction false} EraseForm(f: Forest, strict: bool)
    ensures WellFormed(Erase(f), strict) <==> WellFormed(f, strict)
  {
    hide ValidGap, ValidStart, ValidClose, EmptyTag, TagName;
    match f
    case End(_) =>
    case EmptyElem(_, _, _, rest) => EraseForm(rest, strict);
    case FullElem(_, _, _, kids, _, rest) => EraseForm(kids, true); EraseForm(rest, strict);
  }

  predicate OneRoot(f: Forest) { !f.End? && f.rest.End? }

  /** A document with one root is read back exactly if all of it up to the end of the root is well
      formed. */
  lemma ReadBackIsForm(g: Forest)
    requires OneRoot(g)
    ensures ReadBack(g) <==> RootForm(g)
  {
    hide ReadDoc, Text, WellFormed, ValidGap, Erase;
    if RootForm(g) { ReadsDoc(g); }
    if ReadBack(g) {
      var f := ReadDoc(Text(g)).f;
      ReadDocForm(Text(g));
      EraseParts(f, g);
      EraseForm(f, false); EraseForm(g, false);
    }
  }

  /** What keeps the form of a document keeps it one that is read back. */
  lemma KeptRoot(f: Forest, g: Forest)
    requires RootForm(f) && KeepsForm(f, g) && OneRoot(g)
    ensures RootForm(g)
  {
  }

  /** What replaces an element leaves what is behind the root as it was. */
  lemma {:induction false} PlugRest(c: Ctx, x: Forest, y: Forest)
    requires !x.End? && !y.End? && (x.rest == y.rest || (!x.rest.End? && !y.rest.End?))
    ensures !Plug(c, x).End? && !Plug(c, y).End?
    ensures Plug(c, x).rest.End? ==> Plug(c, y).rest == Plug(c, x).rest
  {
    match c
    case Top =>
    case AfterEmpty(outer, slot, gap, start) =>
      PlugRest(outer, EmptyElem(slot, gap, start, x), EmptyElem(slot, gap, start, y));
    case AfterFull(outer, slot, gap, start, kids, close) =>
      PlugRest(outer, FullElem(slot, gap, start, kids, close, x), FullElem(slot, gap, start, kids, close, y));
    case Inside(outer, slot, gap, start, close, rest) =>
      PlugRest(outer, FullElem(slot, gap, start, x, close, rest), FullElem(slot, gap, start, y, close, rest));
  }

  lemma SplitForm(x: Forest, kids: Forest, strict: bool)
    requires x.EmptyElem? && WellFormed(x, strict) && WellFormed(kids, true)
    ensures |x.start| >= 2
    ensures WellFormed(Split(x, OpenTag(x.start), kids, CloseTag(TagName(x.start))), strict) <==> Splittable(x.start)
  {
    hide ValidStart, TagName, EmptyTag, ValidGap, ValidClose, Splittable, OpenTag, CloseTag;
    StartFacts(x.start);
    OpenTagValid(x.start);
  }

  /** An empty element anywhere in a document gets a body: the new document is read back as it is
      meant exactly if the element's tag can be split. */
  lemma SplitIsReadBack(c: Ctx, x: Forest, kids: Forest)
    requires x.EmptyElem? && RootForm(Plug(c, x)) && WellFormed(kids, true)
    ensures |x.start| >= 2
    ensures ReadBack(Plug(c, Split(x, OpenTag(x.start), kids, CloseTag(TagName(x.start))))) <==> Splittable(x.start)
  {
    hide Plug, WellFormed, ReadBack, Splittable, OpenTag, CloseTag, TagName, ValidGap;
    PlugWellFormed(c, x, false);
    SplitForm(x, kids, Strict(c, false));
    var y := Split(x, OpenTag(x.start), kids, CloseTag(TagName(x.start)));
    PlugRest(c, x, y);
    PlugGap(c, x, y);
    PlugWellFormed(c, y, false);
    ReadBackIsForm(Plug(c, y));
  }

  /** x_SetData and AddChildElem, the two edits that do so. */
  lemma EmptyElemEdits(c: Ctx, x: Forest, data: string, cdata: bool, slot: nat, name: string, value: string)
    requires x.EmptyElem? && RootForm(Plug(c, x)) && PlainName(name)
    ensures |x.start| >= 2
    ensures ReadBack(Plug(c, Refilled(x, DataText(data, cdata)))) <==> Splittable(x.start)
    ensures ReadBack(Plug(c, SplitElem(x, slot, name, value))) <==> Splittable(x.start)
  {
    hide Plug, WellFormed, ReadBack, Splittable, OpenTag, CloseTag, TagName, ValidGap, DataText, NewElem, PlainName;
    var body := BodyOf(data, cdata);
    var child := ChildOf(slot, name, value);
    SplitIsReadBack(c, x, body);
    SplitIsReadBack(c, x, child);
  }

  lemma BodyOf(data: string, cdata: bool) returns (kids: Forest)
    ensures kids == End(DataText(data, cdata)) && WellFormed(kids, true)
  {
    DataGap(data, cdata);
    kids := End(DataText(data, cdata));
  }

  lemma ChildOf(slot: nat, name: string, value: string) returns (kids: Forest)
    requires PlainName(name)
    ensures kids == NewElem(slot, CRLF, name, value, End(CRLF)) && WellFormed(kids, true)
  {
    PlainGap(CRLF);
    NewElemTags(slot, CRLF, name, value, End(CRLF));
    kids := NewElem(slot, CRLF, name, value, End(CRLF));
  }

  /** One that cannot: the tag ends in "//>", and the data set is read as text behind the root. */
  lemma SlashStays()
    ensures var f := EmptyElem(1, "", "<a//>", End(""));
      && WellFormed(f, true) && Text(f) == "<a//>"
      && var g := Refilled(f, "x");
      && Text(g) == "<a/>x</a>" && !ReadBack(g)
      && ReadDoc(Text(g)).Read? && ReadDoc(Text(g)).f == EmptyElem(1, "", "<a/>", End("x</a>"))
  {
    hide ReadDoc, ValidStart, TagName, ValidGap, ReadBack;
    SlashTags();
    PlainGap("");
    assert OpenTag("<a//>") == "<a/>" && CloseTag("a") == "</a>";
    var g := Refilled(EmptyElem(1, "", "<a//>", End("")), "x");
    assert g == FullElem(1, "", "<a/>", End("x"), "</a>", End(""));
    assert Text(g) == "<a/>x</a>";
    SlashRead();
    NotReadBack(g);
  }

  lemma NotReadBack(g: Forest)
    requires g.FullElem? && ReadDoc(Text(g)).Read? && ReadDoc(Text(g)).f.EmptyElem?
    ensures !ReadBack(g)
  {
    hide ReadDoc, Text;
  }

  lemma SlashRead()
    ensures ReadDoc("<a/>x</a>") == Read(EmptyElem(1, "", "<a/>", End("x</a>")), 9, 2)
  {
    hide Scan, FindToken, StartEnd, ValidStart, TagName, ValidGap, EndTagScan;
    var t, y := "<a/>", "x</a>";
    var s := t + y;
    SlashTags();
    PlainGap("");
    GapOpens("", t, y);
    StartReads(t, y);
    assert "" + s == s && s == "<a/>x</a>";
    assert EmptyTag(t) && s[..4] == t && s[4..] == y && s[0..] == s;
    assert ReadElem(s, 1) == Read(EmptyElem(1, "", t, End("")), 4, 2);
  }

  lemma SlashTags()
    ensures ValidStart("<a//>") && EmptyTag("<a//>") && TagName("<a//>") == "a" && ValidStart("<a/>")
  {
    var t, u := "<a//>"[1..], "<a/>"[1..];
    assert t == "a//>" && u == "a/>";
    FirstNotOfIs(t, SPACES, 0); FirstNotOfIs(u, SPACES, 0);
    FirstOfIs(t[0..], SPECIALS, 1); FirstOfIs(u[0..], SPECIALS, 1);
    assert FindToken(t) == FindToken(u) == Token(true, false, 0, 0, 1);
    FirstOfIs("<a//>"[2..], {'>'}, 2); FirstOfIs("<a/>"[2..], {'>'}, 1);
    assert t[0..1] == "a";
  }

  // ---- Runs of the class

  /** Setting an attribute that was absent and removing it again leaves the document, its
      tree and the index of every element as they were. */
  method SetAndRemove(m: CMarkup, i: nat, name: string, value: string, ghost t: Tag) returns (ok: bool)
    requires m.Valid() && m.nodeType == MNT_ELEMENT && i in Order(m.forest) && PlainName(name)
    requires t.Valid() && Focus(m.forest, i).focus.start == t.Text() && IndexOf(t.list, name) == |t.list|
    modifies m
    ensures m.Valid() && m.doc == old(m.doc) && m.forest == old(m.forest)
    ensures ok && forall s :: s in Order(m.forest) ==> s < |m.aPos| && s < old(|m.aPos|) && m.aPos[s] == old(m.aPos)[s]
  {
    hide Order, Plug, SetTag, CutTag, Tag.Text, Tag.Valid, PlainName, IndexOf, Focus, Text, Tagged, WellFormed, FindCut, ClosedTag, Linked, Placed, SameLinks, KeepsForm, TagText, Distinct, ValidStart, TagName, EmptyTag;
    ghost var f, a := m.forest, m.aPos;
    PairTagValid(t);
    m.ElementForm(i);
    SetThenRemoveAttrib(f, i, t, name, value);
    var b := m.SetAttrib(i, name, value);
    SetTagPaired(m, t, name, value);
    ok := m.RemoveAttrib(i, name);
    IndexDetermined(a, m.aPos, f);
  }

  lemma SetTagPaired(m: CMarkup, t: Tag, name: string, value: string)
    requires t.Valid() && PlainName(name)
    ensures |t.Text()| >= 2
    ensures var s := SetTag(t.Text(), t.empty, name, value);
      s != "" && m.PairedTag(s) && FindCut(s[1..], name).Cut?
  {
    hide SetTag, Tag.Text, Tag.Valid, PlainName, IndexOf, FindCut, ToDoc;
    SetTagIs(t, name, value);
    WithAttrValid(t, name, value);
    var w := WithAttr(t, name, value);
    CutTagIs(w, "", name);
    var i := IndexOf(t.list, name);
    IndexOfIs(w.list, name, i);
  }

  /** After any edits of a document that could be parsed (KeptRoot): parsing its text anew succeeds,
      and gives the same elements with the same offsets, in document order. */
  method Reparse(m: CMarkup, n: CMarkup) returns (ok: bool)
    requires m.Valid() && !m.forest.End? && ValidGap(m.forest.gap) && m != n
    modifies n
    ensures ok && m.Valid() && n.Valid() && n.doc == m.doc && Erase(n.forest) == Erase(m.forest)
    ensures SameOffsetsAlong(m.aPos, Order(m.forest), n.aPos, Order(n.forest))
  {
    hide WellFormed, ReadDoc, Erase, Order, Text, Tagged, SameOffsetsAlong, Placed, Linked, Endless;
    m.IndexIsReparse();
    DocHangs(m.doc);
    ok := n.SetDoc(m.doc);
    EraseOffsets(m.aPos, m.forest, n.aPos, n.forest, 0);
  }
}
