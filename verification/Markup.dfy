/** CMarkupSTL itself: the document text, the position array beside it and the methods
    that keep the two in step. */
module Markup {
  import opened MarkupText
  import opened MarkupGrammar
  import opened MarkupTree
  import opened MarkupAdjust
  import opened MarkupEdits
  import opened MarkupSplice
  import opened MarkupPlaces
  import opened MarkupEntities
  import opened MarkupTags
  import opened MarkupAttribs
  import opened MarkupValid
  import opened MarkupAdd
  import opened MarkupScan
  import opened MarkupParse
  import opened MarkupBuild

  const MNT_ELEMENT := 1

  /** `g` is as well formed as `f`; `strict` adds the text around the root element. If both have
      one, the text before it is the same. */
  ghost predicate KeepsForm(f: Forest, g: Forest) {
    (forall strict :: WellFormed(f, strict) ==> WellFormed(g, strict)) && (f.End? || g.End? || g.gap == f.gap)
  }

  /** The token after the '<' at `at`. */
  function NameAt(doc: string, at: int): string {
    if 0 <= at < |doc| then
      var token := FindToken(doc[at + 1..]).Shift(at + 1);
      if token.found then GetToken(doc, token) else ""
    else ""
  }

  /** `b` has the parents of `a`, and a new position `i` under `p`. */
  predicate KeptParents(a: seq<ElemPos>, b: seq<ElemPos>, i: nat, p: nat) {
    && |a| <= |b| && i < |b| && b[i].parent == p
    && forall s :: 0 <= s < |a| && s != i ==> b[s].parent == a[s].parent
  }

  /** Only the start of `i` and the place in its parent from which to go on changed. */
  predicate Searched(a: seq<ElemPos>, b: seq<ElemPos>, i: nat, parent: nat) {
    && |a| == |b| && i < |a| && parent < |a|
    && b[parent] == a[parent].(endL := b[parent].endL) && b[i] == a[i].(startL := b[i].startL)
    && forall s :: 0 <= s < |a| && s != i && s != parent ==> b[s] == a[s]
  }

  /** The positions below `n` did not change, but for where the end tag of `parent` is
      looked for. */
  predicate KeptBelow(a: seq<ElemPos>, b: seq<ElemPos>, n: nat, parent: nat) {
    && |a| <= |b| && parent < |a| && b[parent] == a[parent].(endL := b[parent].endL)
    && forall s :: 0 <= s < n && s < |a| && s != parent ==> b[s] == a[s]
  }

  /** The element with the text `ins` between its tags. */
  function Refilled(x: Forest, ins: string): Forest
    requires !x.End? && |x.start| >= 2
  {
    if x.EmptyElem? then Split(x, OpenTag(x.start), End(ins), CloseTag(TagName(x.start)))
    else WithBody(x, x.start, ins, x.close)
  }

  /** What x_GetData reads for element `i`. */
  function DataAt(f: Forest, i: nat): string
    requires i in Order(f)
  {
    var z := Focus(f, i);
    if !z.focus.FullElem? || !z.focus.kids.End? then ""
    else DataIn(z.focus.kids.gap + (Tail(WithBody(z.focus, "", "", z.focus.close)) + Post(z.ctx)), |z.focus.kids.gap|)
  }

  /** What is left when `i` is removed: its place, and how much white space goes with it. */
  function RemovedForest(f: Forest, i: nat): Forest
    requires i in Order(f)
  {
    var z := Focus(f, i);
    var k := SkipTo(Text(z.focus.rest) + Post(z.ctx));
    if k <= |z.focus.rest.gap| then Plug(z.ctx, Without(z.focus, k)) else f
  }

  class CMarkup {
    var doc: string
    var aPos: seq<ElemPos>
    var iPosParent: nat
    var iPos: nat
    var iPosChild: nat
    var iPosFree: nat
    var nodeType: int
    var error: Option<Fault>
    ghost var forest: Forest

    /** The index represents the document text: the invariant of every edit. */
    ghost predicate Indexed()
      reads this`doc, this`aPos, this`iPosFree, this`forest
    {
      && 1 <= iPosFree <= |aPos| && 8 <= |aPos|
      && doc == Text(forest) && Tagged(forest) && Represents(aPos, forest)
      && WellFormed(forest, false) && aPos[0].startR == 0 && |Slots(forest)| <= 1
      && forall s :: s in Order(forest) ==> s < iPosFree
    }

    /** The current position is an element, its parent and a child of it, or less. */
    ghost predicate Positioned()
      reads this
    {
      && PosIn(iPosParent) && PosUnder(iPos, iPosParent) && PosUnder(iPosChild, iPos)
      && (iPos == 0 ==> iPosChild == 0)
      && nodeType == (if iPos != 0 then MNT_ELEMENT else 0)
    }

    ghost predicate PosIn(p: nat)
      reads this`forest
    {
      p == 0 || p in Order(forest)
    }

    ghost predicate PosUnder(p: nat, parent: nat)
      reads this`aPos, this`forest
    {
      p == 0 || (p in Order(forest) && p < |aPos| && aPos[p].parent == parent)
    }

    ghost predicate Valid()
      reads this
    {
      Indexed() && Positioned()
    }

    /** x_SetPos. */
    method SetPos(parent: nat, pos: nat, child: nat)
      modifies this`iPosParent, this`iPos, this`iPosChild, this`nodeType
      ensures iPosParent == parent && iPos == pos && iPosChild == child
      ensures nodeType == if pos != 0 then MNT_ELEMENT else 0
    {
      iPosParent, iPos, iPosChild := parent, pos, child;
      nodeType := if pos != 0 then MNT_ELEMENT else 0;
    }

    /** x_DocChange. */
    method DocChange(nLeft: nat, nReplace: nat, strInsert: string)
      requires nLeft + nReplace <= |doc|
      modifies this`doc
      ensures doc == Splice(old(doc), nLeft, nReplace, strInsert)
    {
      doc := doc[..nLeft] + strInsert + doc[nLeft + nReplace..];
    }

    /** What the index says of element `i`. */
    lemma AtElement(i: nat)
      requires Indexed() && i in Order(forest)
      ensures var z := Focus(forest, i);
        && !z.focus.End? && z.focus.slot == i && forest == Plug(z.ctx, z.focus) && doc == Text(Plug(z.ctx, z.focus))
        && RepAt(aPos, z.ctx, z.focus) && TaggedCtx(z.ctx) && Tagged(z.focus)
        && 0 < i < |aPos| && i != 0 && aPos[i].startL == |Pre(z.ctx)| + |z.focus.gap|
        && aPos[i].startR == aPos[i].startL + |z.focus.start| - 1
        && aPos[i].parent == ParentOf(z.ctx, 0)
        && (z.focus.FullElem? ==> FullAt(aPos[i], aPos[i].startL, |z.focus.start|, |Text(z.focus.kids)|, |z.focus.close|))
        && (z.focus.EmptyElem? ==> EmptyAt(aPos[i], aPos[i].startL, |z.focus.start|))
        && aPos[i].child == First(Kids(z.focus))
        && aPos[i].endR + 1 == |Pre(z.ctx)| + |Text(z.focus)| - |Text(z.focus.rest)|
        && (aPos[i].IsEmptyElement() <==> z.focus.EmptyElem?)
    {
      hide Order, Plug, Text, Pre, LinkedCtx, PlacedCtx, Focus, Tagged, TaggedCtx;
      var z := Focus(forest, i);
      RepPlug(aPos, z.ctx, z.focus);
      PlugTagged(z.ctx, z.focus);
      TextWidth(z.focus);
      TaggedElem(z.focus);
    }

    lemma TaggedElem(x: Forest)
      requires Tagged(x)
      ensures !x.End? ==> TagText(x.start) && Tagged(x.rest)
      ensures x.EmptyElem? ==> EmptyTag(x.start)
      ensures x.FullElem? ==> TagText(x.close) && Tagged(x.kids)
    {
    }

    /** The part of x_Adjust that goes up: from the last sibling to the next one of an
        element above it, or to `iPosTop`. */
    method ClimbPos(start: nat, iPosTop: nat, ghost a0: seq<ElemPos>, ghost w: Walk) returns (iPos: nat)
      requires SameLinks(aPos, a0) && Good(a0, w) && start == w.at && iPosTop == ParentOf(w.outer, 0)
      requires w.rest.End?
      ensures iPos == StopVisit(Climb(w.up, w.outer)).slot
      ensures match Climb(w.up, w.outer)
        case Done => iPosTop == 0
        case At(v) => Good(a0, v) && (v.skip <==> iPos == iPosTop) && (!v.skip ==> v.outer == w.outer)
    {
      ghost var up := w.up;
      ParentAround(a0, w.outer);
      iPos := aPos[start].parent;
      while iPos != 0 && iPos != iPosTop
        invariant iPos == UpSlot(up, w.outer)
        invariant StackLinked(a0, up, w.outer) && ClearStack(up, Around(w.outer))
        invariant Climb(up, w.outer) == Climb(w.up, w.outer)
        decreases up
      {
        if aPos[iPos].next != 0 {
          EnterGood(a0, up.rest, up.below, w.outer);
          iPos := aPos[iPos].next;
          return;
        }
        iPos := aPos[iPos].parent;
        up := up.below;
      }
      SurfaceGood(a0, w.outer);
    }

    /** The part of x_Adjust that finds the next position; `iPosTop` moves up when the walk
        is at it. */
    method NextPos(at: nat, top: nat, first: bool, ghost a0: seq<ElemPos>, ghost w: Walk)
      returns (iPos: nat, iPosTop: nat)
      requires SameLinks(aPos, a0) && Good(a0, w) && w.at == at
      requires at == top || top == ParentOf(w.outer, 0)
      requires w.skip <==> first || at == top
      ensures iPos == StopVisit(Next(w)).slot && iPos < |aPos|
      ensures match Next(w)
        case Done => iPosTop == 0 == iPos
        case At(v) => Good(a0, v) && (v.skip <==> iPos == iPosTop) && (iPos == iPosTop || iPosTop == ParentOf(v.outer, 0))
      ensures Next(w).At? ==> 0 < iPos
    {
      ParentAround(a0, w.outer);
      iPosTop := top;
      var bPosTop := false;
      if at == top {
        iPosTop := aPos[at].parent;
        bPosTop := true;
      }
      if !bPosTop && !first && aPos[at].child != 0 {
        EnterGood(a0, w.kids, Push(w.at, w.rest, w.up), w.outer);
        iPos := aPos[at].child;
      } else if aPos[at].next != 0 {
        EnterGood(a0, w.rest, w.up, w.outer);
        iPos := aPos[at].next;
      } else {
        iPos := ClimbPos(at, iPosTop, a0, w);
      }
    }

    /** The part of x_Adjust that shifts the offsets at `iPos`. */
    method ShiftPos(iPos: nat, iPosTop: nat, n: int)
      requires iPos < |aPos|
      modifies this`aPos
      ensures aPos == Update(old(aPos), Visit(iPos, iPos != iPosTop), n) && SameLinks(aPos, old(aPos))
    {
      if iPos != iPosTop {
        aPos := aPos[iPos := aPos[iPos].AdjustStart(n)];
      }
      aPos := aPos[iPos := aPos[iPos].AdjustEnd(n)];
    }

    /** x_Adjust: `c` and `x` say where the element `start` is (or was) in the document. */
    method Adjust(start: nat, n: int, afterPos: bool, ghost c: Ctx, ghost x: Forest)
      requires !x.End? && start == x.slot
      requires Good(aPos, StartWalk(x, c, afterPos))
      modifies this`aPos
      ensures aPos == Apply(old(aPos), Work(x, c, afterPos), n)
      ensures SameLinks(aPos, old(aPos))
    {
      hide Good, Todo, Work, Next, Apply, Update, StartWalk, StopTodo;
      ghost var w := StartWalk(x, c, afterPos);
      ghost var todo := Work(x, c, afterPos);
      var iPos := start;
      StartWalkAt(aPos, x, c, afterPos);
      var iPosTop := aPos[iPos].parent;
      var bPosFirst := afterPos;
      ApplyDone(n);
      while iPos != 0
        invariant SameLinks(aPos, old(aPos))
        invariant iPos != 0 ==> iPos < |aPos|
        invariant Apply(aPos, todo, n) == Apply(old(aPos), Work(x, c, afterPos), n)
        invariant if iPos == 0 then todo == [] else Good(old(aPos), w) && w.at == iPos && todo == Todo(w)
        invariant iPos != 0 ==> iPosTop == iPos || iPosTop == ParentOf(w.outer, 0)
        invariant iPos != 0 ==> (w.skip <==> bPosFirst || iPos == iPosTop)
        decreases |todo|
      {
        NextTodo(w);
        ghost var stop := Next(w);
        iPos, iPosTop := NextPos(iPos, iPosTop, bPosFirst, old(aPos), w);
        bPosFirst := false;
        ApplyUnfold(aPos, StopVisit(stop), StopTodo(stop), n);
        ShiftPos(iPos, iPosTop, n);
        todo := StopTodo(stop);
        StopTodoOf(stop);
        if stop.At? { w := stop.w; }
      }
    }

    // ---- Attributes

    /** x_GetAttrib. */
    method GetAttrib(i: nat, szAttrib: string) returns (value: string)
      requires Valid() && PosIn(i)
      requires i != 0 ==> ClosedTag(Focus(forest, i).focus.start)
      ensures value == (if i == 0 || nodeType != MNT_ELEMENT then "" else AttribOf(Focus(forest, i).focus.start, szAttrib))
    {
      hide Order, Plug, Text, Pre, Post, RepAt, Focus, Tagged, TaggedCtx, FindAttrib, ClosedTag, AttribOf, FromDoc, Represents, Tail, WellFormed;
      if i == 0 || nodeType != MNT_ELEMENT {
        return "";
      }
      AtElement(i);
      ghost var z := Focus(forest, i);
      StartText(z.ctx, z.focus, doc, aPos[i].startL);
      TagNotEmpty(z.focus.start);
      AttribInDoc(doc, aPos[i].startL, z.focus.start, Tail(z.focus) + Post(z.ctx), szAttrib);
      var found, token := ScanAttrib(doc, aPos[i].startL + 1, szAttrib);
      value := "";
      if found {
        value := TextFromDoc(doc, token.l, token.r);
      }
    }

    lemma TagNotEmpty(t: string)
      ensures ClosedTag(t) ==> t != ""
    {
    }

    /** What a new start tag at `i` leaves. */
    ghost predicate Retagged(i: nat, t: string, f: Forest)
      reads this
      requires i in Order(f)
    {
      var z := Focus(f, i);
      forest == Plug(z.ctx, WithStart(z.focus, t))
    }

    /** Positions stay what they are when only offsets change. */
    twostate lemma StillPositioned()
      requires old(Positioned()) && SameLinks(aPos, old(aPos))
      requires forall s :: s in Order(old(forest)) <==> s in Order(forest)
      requires iPos == old(iPos) && iPosParent == old(iPosParent) && iPosChild == old(iPosChild) && nodeType == old(nodeType)
      ensures Positioned()
    {
    }

    /** The end of x_SetAttrib and x_RemoveAttrib: a replacement inside the start tag of
        `i` and the adjustments for it. */
    method ReplaceInTag(i: nat, nInsertAt: nat, nReplace: nat, strInsert: string)
      requires Valid() && i in Order(forest)
      requires var x := Focus(forest, i).focus;
        && aPos[i].startL <= nInsertAt && nInsertAt - aPos[i].startL + nReplace <= |x.start|
        && SameTag(x.start, Splice(x.start, nInsertAt - aPos[i].startL, nReplace, strInsert))
      modifies this`doc, this`aPos, this`forest
      ensures Valid() && SameLinks(aPos, old(aPos)) && KeepsForm(old(forest), forest)
      ensures Retagged(i, Splice(Focus(old(forest), i).focus.start, nInsertAt - old(aPos)[i].startL, nReplace, strInsert), old(forest))
    {
      hide Order, Plug, Text, Pre, Post, RepAt, Focus, Tagged, TaggedCtx, Represents, Apply, Work, Good, Tail, Splice, WellFormed, SameTag;
      AtElement(i);
      ghost var z := Focus(forest, i);
      ghost var c, x := z.ctx, z.focus;
      ghost var a := aPos;
      ghost var t := Splice(x.start, nInsertAt - aPos[i].startL, nReplace, strInsert);
      SpliceStart(c, x, doc, nInsertAt - aPos[i].startL, nReplace, strInsert);
      DocChange(nInsertAt, nReplace, strInsert);
      var nAdjust := |strInsert| - nReplace;
      SpliceWidth(x.start, nInsertAt - aPos[i].startL, nReplace, strInsert);
      var p := aPos[i].(startR := aPos[i].startR + nAdjust);
      aPos := aPos[i := p.AdjustEnd(nAdjust)];
      RetagGood(a, aPos, c, x);
      WorkRoot(aPos, x, c, false, nAdjust) by { DistinctRep(a, c, x); }
      Adjust(i, nAdjust, false, c, x);
      StartChanged(a, aPos, c, x, t, nAdjust);
      forest := Plug(c, WithStart(x, t));
      RepPlug(aPos, c, WithStart(x, t));
      RetagKeeps(c, x, t);
      SameOrder(c, x, WithStart(x, t));
      StillPositioned();
    }

    lemma DistinctRep(a: seq<ElemPos>, c: Ctx, x: Forest)
      requires RepAt(a, c, x)
      ensures DistinctAt(c, x)
    {
    }

    /** A start tag that stands for the same element: it has its name and is empty if the
        other one is. */
    predicate SameTag(s: string, t: string) {
      ValidStart(t) && TagName(t) == TagName(s) && (EmptyTag(t) <==> EmptyTag(s))
    }

    lemma RetagKeeps(c: Ctx, x: Forest, t: string)
      requires !x.End? && SameTag(x.start, t) && WellFormed(Plug(c, x), false) && Tagged(Plug(c, x))
      ensures KeepsForm(Plug(c, x), Plug(c, WithStart(x, t))) && Tagged(Plug(c, WithStart(x, t)))
      ensures |Slots(Plug(c, WithStart(x, t)))| <= |Slots(Plug(c, x))|
    {
      hide Plug, ValidStart, TagName, EmptyTag, ValidGap, ValidClose;
      var y := WithStart(x, t);
      SameRoots(c, x, y);
      PlugGap(c, x, y);
      PlugTagged(c, x); PlugTagged(c, y);
      StartFacts(t);
      RetagTagged(x, t) by { TaggedElem(x); }
      forall strict | WellFormed(Plug(c, x), strict)
        ensures WellFormed(Plug(c, y), strict)
      {
        PlugWellFormed(c, x, strict);
        PlugWellFormed(c, y, strict);
      }
    }

    lemma SpliceWidth(s: string, at: nat, n: nat, ins: string)
      requires at + n <= |s|
      ensures |Splice(s, at, n, ins)| == |s| - n + |ins|
    {
    }

    lemma RetagGood(a: seq<ElemPos>, a1: seq<ElemPos>, c: Ctx, x: Forest)
      requires !x.End? && RepAt(a, c, x) && SameLinks(a, a1) && 0 < x.slot < |a|
      ensures Good(a1, StartWalk(x, c, false))
    {
      hide Linked, LinkedCtx, Placed, PlacedCtx, Order, Good, StartWalk, Text, Pre;
      LinkedSame(a, a1, x, ParentOf(c, 0));
      LinkedCtxSame(a, a1, c, x.slot, 0);
      LinkedParts(a1, x, ParentOf(c, 0));
      StartGood(a1, x, c, false, x.slot);
    }

    lemma LinkedParts(a: seq<ElemPos>, x: Forest, p: nat)
      requires !x.End? && Linked(a, x, p)
      ensures 0 < x.slot < |a| && a[x.slot].parent == p && a[x.slot].next == First(x.rest) && Linked(a, x.rest, p)
      ensures a[x.slot].child == First(Kids(x)) && Linked(a, Kids(x), x.slot)
    {
    }

    lemma RetagTagged(x: Forest, t: string)
      requires !x.End? && Tagged(x) && TagText(t) && (x.EmptyElem? ==> EmptyTag(t))
      ensures Tagged(WithStart(x, t))
    {
      hide TagText, EmptyTag;
    }

    lemma SameOrder(c: Ctx, x: Forest, y: Forest)
      requires !x.End? && !y.End? && y.slot == x.slot && Kids(y) == Kids(x) && y.rest == x.rest
      ensures Order(Plug(c, y)) == Order(Plug(c, x))
    {
      hide Order;
      ElemOrder(x); ElemOrder(y);
      PlugOrder(c, x); PlugOrder(c, y);
    }

    /** The first half of x_SetAttrib: the replacement in the document that sets the
        attribute. */
    method PlanAttrib(i: nat, szAttrib: string, szValue: string) returns (nInsertAt: nat, nReplace: nat, strInsert: string)
      requires Valid() && i in Order(forest) && ClosedTag(Focus(forest, i).focus.start)
      ensures aPos[i].startL <= nInsertAt
      ensures var x := Focus(forest, i).focus;
        && nInsertAt - aPos[i].startL + nReplace <= |x.start| && |x.start| >= 2
        && Splice(x.start, nInsertAt - aPos[i].startL, nReplace, strInsert) == SetTag(x.start, x.EmptyElem?, szAttrib, szValue)
    {
      hide Order, Plug, Text, Pre, Post, RepAt, Focus, Tagged, TaggedCtx, FindAttrib, Closed, ToDoc, Indexed, Positioned, Tail, Splice, SetTag, EmptyTag;
      AtElement(i);
      ghost var z := Focus(forest, i);
      ghost var x, at := z.focus, aPos[i].startL;
      TaggedElem(x);
      StartText(z.ctx, x, doc, at);
      FindAttribExtends(x.start[1..], Tail(x) + Post(z.ctx), szAttrib, 0, 0);
      SetTagSplice(x.start, x.EmptyElem?, szAttrib, szValue);
      var found, token := ScanAttrib(doc, aPos[i].startL + 1, szAttrib);
      if found {
        strInsert := TextToDoc(szValue, true);
        nInsertAt := token.l;
        nReplace := token.r - token.l + 1;
      } else {
        var strValue := TextToDoc(szValue, true);
        strInsert := " " + szAttrib + "=\"" + strValue + "\"";
        nInsertAt := aPos[i].startR - (if aPos[i].IsEmptyElement() then 1 else 0);
        nReplace := 0;
      }
    }

    /** What the well-formedness of the document says of element `i`. */
    lemma ElementForm(i: nat)
      requires Indexed() && i in Order(forest)
      ensures var x := Focus(forest, i).focus;
        && !x.End? && ValidStart(x.start) && (EmptyTag(x.start) <==> x.EmptyElem?) && TagText(x.start)
        && (x.FullElem? ==> ValidClose(x.close, TagName(x.start)) && WellFormed(x.kids, true))
    {
      hide Order, Plug, Focus, ValidStart, TagName, EmptyTag, ValidGap, ValidClose, Represents, Text;
      AtElement(i);
      var z := Focus(forest, i);
      PlugWellFormed(z.ctx, z.focus, false);
      PlugTagged(z.ctx, z.focus);
      TaggedElem(z.focus);
    }

    /** x_SetAttrib. */
    method SetAttrib(i: nat, szAttrib: string, szValue: string) returns (ok: bool)
      requires Valid() && PosIn(i) && PlainName(szAttrib)
      requires i != 0 ==> ClosedTag(Focus(forest, i).focus.start)
      modifies this`doc, this`aPos, this`forest
      ensures Valid() && SameLinks(aPos, old(aPos)) && KeepsForm(old(forest), forest)
      ensures ok <==> i != 0 && nodeType == MNT_ELEMENT
      ensures ok ==> var x := Focus(old(forest), i).focus;
        && TagText(x.start) && ClosedTag(SetTag(x.start, x.EmptyElem?, szAttrib, szValue))
        && Retagged(i, SetTag(x.start, x.EmptyElem?, szAttrib, szValue), old(forest))
      ensures !ok ==> doc == old(doc) && aPos == old(aPos) && forest == old(forest)
    {
      hide Order, Plug, Text, Pre, RepAt, Focus, Tagged, TaggedCtx, ClosedTag, Represents, Splice, SetTag, ValidStart, TagName, EmptyTag, WellFormed;
      if i == 0 || nodeType != MNT_ELEMENT {
        return false;
      }
      AtElement(i);
      ElementForm(i);
      ghost var x := Focus(forest, i).focus;
      SetTagValid(x.start, szAttrib, szValue);
      var nInsertAt, nReplace, strInsert := PlanAttrib(i, szAttrib, szValue);
      ReplaceInTag(i, nInsertAt, nReplace, strInsert);
      ok := true;
    }

    lemma SetTagSplice(t: string, empty: bool, name: string, value: string)
      requires |t| >= 2
      ensures match FindAttrib(t[1..], name, 0, 0)
        case Some(k) =>
          && k.l <= k.r + 1 && 1 + k.r + 1 <= |t|
          && SetTag(t, empty, name, value) == Splice(t, 1 + k.l, k.r - k.l + 1, ToDoc(value, true))
        case None => SetTag(t, empty, name, value) == Splice(t, TagTail(t, empty), 0, Pair(name, value))
    {
      hide FindAttrib, ToDoc, Pair, SetTag;
      SetTagCases(t, empty, name, value);
    }

    ghost predicate PairedTag(s: string) {
      exists t: Tag :: t.Valid() && t.Text() == s
    }

    /** x_RemoveAttrib. */
    method RemoveAttrib(i: nat, szAttrib: string) returns (ok: bool)
      requires Valid() && PosIn(i) && PlainName(szAttrib)
      requires i != 0 ==> PairedTag(Focus(forest, i).focus.start)
      modifies this`doc, this`aPos, this`forest
      ensures Valid() && SameLinks(aPos, old(aPos)) && KeepsForm(old(forest), forest)
      ensures ok ==> i != 0 && nodeType == MNT_ELEMENT
      ensures i != 0 && nodeType == MNT_ELEMENT ==>
        var t := Focus(old(forest), i).focus.start;
        && t != "" && (ok <==> FindCut(t[1..], szAttrib).Cut?)
        && (ok ==> Retagged(i, CutTag(t, szAttrib), old(forest)) && PairedTag(CutTag(t, szAttrib)))
      ensures !ok ==> doc == old(doc) && aPos == old(aPos) && forest == old(forest)
    {
      hide Order, Plug, Text, Pre, Post, RepAt, Focus, Tagged, TaggedCtx, FindCut, Indexed, Positioned, PlainName, ValidStart, TagName, EmptyTag, Splice;
      hide Retagged, SameTag, PairedTag, CutTag, EmptyAt, FullAt, ValidClose, WellFormed;
      if i == 0 || nodeType != MNT_ELEMENT {
        return false;
      }
      AtElement(i);
      ElementForm(i);
      ghost var start := Focus(forest, i).focus.start;
      CutInDoc(i, szAttrib);
      var found, nInsertAt, nReplace := ScanCut(doc, aPos[i].startL + 1, szAttrib);
      if !found {
        return false;
      }
      CutSplice(start, szAttrib);
      ReplaceInTag(i, nInsertAt, nReplace, "");
      ok := true;
    }

    /** What is taken out does not depend on what follows the tag. */
    lemma CutInDoc(i: nat, name: string)
      requires Valid() && i in Order(forest) && PlainName(name) && PairedTag(Focus(forest, i).focus.start)
      ensures var t := Focus(forest, i).focus.start;
        && t != "" && 0 < aPos[i].startL + 1 <= |doc| && i < |aPos|
        && FindCut(doc[aPos[i].startL + 1..], name) == FindCut(t[1..], name)
    {
      hide Order, Plug, Text, Pre, Post, RepAt, Focus, Tagged, TaggedCtx, FindCut, Indexed, Positioned, Tail, Tag.Valid, Tag.Text, PlainName;
      AtElement(i);
      var z := Focus(forest, i);
      var t: Tag :| t.Valid() && t.Text() == z.focus.start;
      StartText(z.ctx, z.focus, doc, aPos[i].startL);
      CutTagIs(t, Tail(z.focus) + Post(z.ctx), name);
    }

    lemma CutSplice(s: string, name: string)
      requires PairedTag(s) && PlainName(name) && s != "" && FindCut(s[1..], name).Cut?
      ensures var c := FindCut(s[1..], name);
        && 0 <= c.at <= c.end && 1 + c.end < |s|
        && Splice(s, 1 + c.at, c.end - c.at, "") == CutTag(s, name)
      ensures SameTag(s, CutTag(s, name)) && PairedTag(CutTag(s, name))
    {
      hide FindCut, Tag.Valid, Tag.Text, PlainName, ValidStart, TagName, EmptyTag, CutTag, WithoutAttr;
      var t: Tag :| t.Valid() && t.Text() == s;
      CutTagIs(t, "", name);
      CutTagText(s, name);
      WithoutAttrValid(t, name);
      PairTagValid(t);
      PairTagValid(WithoutAttr(t, name));
    }

    lemma CutTagText(s: string, name: string)
      requires s != ""
      ensures var c := FindCut(s[1..], name);
        c.Cut? && c.at <= c.end < |s| ==> CutTag(s, name) == Splice(s, 1 + c.at, c.end - c.at, "")
    {
      hide FindCut;
    }

    // ---- Data

    /** x_GetTagName: the token after the '<' at which the position starts. */
    method GetTagName(i: nat) returns (strTagName: string)
      requires i < |aPos| && (i != 0 ==> 0 <= aPos[i].startL < |doc|)
      ensures strTagName == if i == 0 then "" else NameAt(doc, aPos[i].startL)
    {
      hide FindToken;
      if i == 0 {
        return "";
      }
      var token := ScanToken(doc, aPos[i].startL + 1);
      if !token.found {
        return "";
      }
      strTagName := GetToken(doc, token);
    }

    /** The token of an element is its name. */
    lemma NameInDoc(i: nat)
      requires Indexed() && i in Order(forest)
      ensures i < |aPos| && 0 <= aPos[i].startL < |doc|
      ensures NameAt(doc, aPos[i].startL) == TagName(Focus(forest, i).focus.start)
    {
      hide Order, Plug, Text, Pre, Post, RepAt, Focus, Tagged, TaggedCtx, Indexed, Tail, ValidClose, WellFormed, EmptyTag, EmptyAt, FullAt;
      hide FindToken, FirstOf, ValidStart, TagName, GetToken;
      AtElement(i);
      ElementForm(i);
      var z := Focus(forest, i);
      StartText(z.ctx, z.focus, doc, aPos[i].startL);
      NameOfTag(doc, aPos[i].startL, z.focus.start, Tail(z.focus) + Post(z.ctx));
    }

    lemma NameOfTag(text: string, at: nat, t: string, x: string)
      requires ValidStart(t) && at < |text| && text[at + 1..] == t[1..] + x
      ensures NameAt(text, at) == TagName(t)
    {
      hide FindToken, FirstOf;
      StartExtends(t, x);
      assert (t + x)[1..] == t[1..] + x;
      var k := FindToken(t[1..]);
      var u := text[at + 1..];
      assert u == text[at + 1..|text|];
      SliceOfSlice(text, at + 1, |text|, k.l, k.next);
      assert (t[1..] + x)[k.l..k.next] == t[1..][k.l..k.next];
    }

    /** What new text between the tags of `i` leaves. */
    ghost predicate Rewritten(i: nat, ins: string, f: Forest)
      reads this
      requires i in Order(f)
    {
      var z := Focus(f, i);
      |z.focus.start| >= 2 && forest == Plug(z.ctx, Refilled(z.focus, ins))
    }

    /** x_SetData. */
    method SetData(i: nat, szData: string, cdata: bool) returns (ok: bool)
      requires Valid() && PosIn(i)
      requires i != 0 && Focus(forest, i).focus.EmptyElem? ==> Splittable(Focus(forest, i).focus.start)
      modifies this`doc, this`aPos, this`forest
      ensures Valid() && SameLinks(aPos, old(aPos)) && KeepsForm(old(forest), forest)
      ensures ok <==> i != 0 && Kids(Focus(old(forest), i).focus).End?
      ensures ok ==> Rewritten(i, DataText(szData, cdata), old(forest))
      ensures !ok ==> doc == old(doc) && aPos == old(aPos) && forest == old(forest)
    {
      hide Order, Plug, Text, Pre, Post, RepAt, Focus, Tagged, TaggedCtx, Indexed, Positioned, TagName, EmptyTag, ValidStart, ValidClose, WellFormed, Rewritten, FindStr, ToDoc, Splittable, EmptyAt, FullAt, TagText;
      if i == 0 {
        return false;
      }
      AtElement(i);
      if aPos[i].child != 0 {
        FirstOfKids(i);
        return false;
      }
      FirstOfKids(i);
      var strInsert := "";
      if cdata && FindStr(szData, "]]>") == -1 {
        strInsert := "<![CDATA[" + szData + "]]>";
        assert strInsert == CData(szData);
      } else {
        strInsert := TextToDoc(szData, false);
      }
      DataGap(szData, cdata);
      Refill(i, strInsert);
      ok := true;
    }

    lemma FirstOfKids(i: nat)
      requires Indexed() && i in Order(forest)
      ensures i < |aPos| && (aPos[i].child == 0 <==> Kids(Focus(forest, i).focus).End?)
    {
      hide Plug, Text, Pre, Order, Focus, Tagged, TaggedCtx, WellFormed, Linked, LinkedCtx, PlacedCtx, Placed;
      AtElement(i);
      var z := Focus(forest, i);
      SlotApart(z.ctx, z.focus) by { DistinctRep(aPos, z.ctx, z.focus); }
      KidsPositive(aPos, z.focus, ParentOf(z.ctx, 0));
    }

    lemma KidsPositive(a: seq<ElemPos>, x: Forest, p: nat)
      requires !x.End? && Linked(a, x, p)
      ensures First(Kids(x)) == 0 <==> Kids(x).End?
    {
    }

    /** The end of x_SetData: the replacement of the text between the tags of `i`. */
    method Refill(i: nat, ins: string)
      requires Valid() && i in Order(forest) && ValidGap(ins)
      requires var x := Focus(forest, i).focus;
        Kids(x).End? && (x.EmptyElem? ==> Splittable(x.start))
      modifies this`doc, this`aPos, this`forest
      ensures Valid() && SameLinks(aPos, old(aPos)) && KeepsForm(old(forest), forest)
      ensures Rewritten(i, ins, old(forest))
    {
      hide Order, Plug, Text, Pre, Post, RepAt, Focus, Tagged, TaggedCtx, Represents, Apply, Work, Good, Tail, Splice, WellFormed, TagName, EmptyTag, ValidStart, ValidClose, ValidGap, Splittable, EmptyAt, FullAt;
      AtElement(i);
      ElementForm(i);
      ghost var z := Focus(forest, i);
      ghost var c, x := z.ctx, z.focus;
      ghost var y := Refilled(x, ins);
      ghost var a := aPos;
      RefillText(c, x, doc, ins);
      RefillWidth(x, ins);
      RefillRoom(c, x, doc);
      var nInsertAt, nReplace, strInsert := PlanData(i, ins);
      ghost var p := aPos[i];
      SpliceWidth(doc, nInsertAt, nReplace, strInsert);
      DocChange(nInsertAt, nReplace, strInsert);
      var nAdjust := |strInsert| - nReplace;
      BodyGood(a, p, c, x);
      WorkRoot(aPos, x, c, false, nAdjust) by { DistinctRep(a, c, x); }
      Adjust(i, nAdjust, false, c, x);
      aPos := aPos[i := aPos[i].AdjustEnd(nAdjust)];
      BodyChanged(a, p, aPos, c, x, y, nAdjust);
      forest := Plug(c, y);
      RepPlug(aPos, c, y);
      RefillKeeps(c, x, ins);
      SameOrderBody(c, x, y);
      StillPositioned();
    }

    /** The part of x_SetData that decides what to replace and pre-adjusts an empty element. */
    method PlanData(i: nat, ins: string) returns (nInsertAt: nat, nReplace: nat, strInsert: string)
      requires Indexed() && i in Order(forest) && Kids(Focus(forest, i).focus).End?
      modifies this`aPos
      ensures i < |aPos| == |old(aPos)| && aPos == old(aPos)[i := aPos[i]]
      ensures var x, p, q := Focus(forest, i).focus, old(aPos)[i], aPos[i];
        var start := |Pre(Focus(forest, i).ctx)| + |x.gap|;
        && |x.start| >= 2 && q.parent == p.parent && q.child == p.child && q.next == p.next
        && (if x.FullElem? then nInsertAt == start + |x.start| && nReplace == |x.kids.gap| && strInsert == ins
            else nInsertAt == start + |x.start| - 2 && nReplace == 1 && strInsert == ">" + ins + "</" + TagName(x.start))
        && var y := Refilled(x, ins);
           FullAt(q.AdjustEnd(|strInsert| - nReplace), p.startL, |y.start|, |ins|, |y.close|)
    {
      hide Order, Plug, Text, Pre, Post, RepAt, Focus, Tagged, TaggedCtx, Tail, WellFormed, TagName, EmptyTag, ValidStart, ValidClose, NameAt;
      AtElement(i);
      ElementForm(i);
      ghost var x := Focus(forest, i).focus;
      if x.FullElem? { TextEnd(x.kids.gap); }
      NameInDoc(i);
      strInsert := ins;
      if aPos[i].IsEmptyElement() {
        nInsertAt, nReplace := aPos[i].endL, 1;
        var strTagName := GetTagName(i);
        aPos := aPos[i := aPos[i].(startR := aPos[i].startR - 1, endL := aPos[i].endL - (1 + |strTagName|))];
        strInsert := ">" + strInsert + "</" + strTagName;
      } else {
        nInsertAt, nReplace := aPos[i].startR + 1, aPos[i].endL - aPos[i].startR - 1;
      }
    }

    lemma RefillWidth(x: Forest, ins: string)
      requires !x.End? && Kids(x).End? && |x.start| >= 2
      ensures var y := Refilled(x, ins);
        |Text(y)| - |Text(x)| == (if x.FullElem? then |ins| - |x.kids.gap| else |ins| + |TagName(x.start)| + 2)
    {
      hide TagName, Text;
      TextWidth(x); TextWidth(Refilled(x, ins)); TextEnd(ins);
      if x.FullElem? { TextEnd(x.kids.gap); }
    }

    lemma RefillText(c: Ctx, x: Forest, text: string, ins: string)
      requires !x.End? && Kids(x).End? && Tagged(x) && text == Text(Plug(c, x))
      ensures |x.start| >= 2
      ensures var at := |Pre(c)| + |x.gap| + |x.start|;
        && Text(Plug(c, Refilled(x, ins))) ==
             (if x.FullElem? then
                assert at + |x.kids.gap| <= |text| by { RefillRoom(c, x, text); }
                Splice(text, at, |x.kids.gap|, ins)
              else
                assert at - 1 <= |text| by { RefillRoom(c, x, text); }
                Splice(text, at - 2, 1, ">" + ins + "</" + TagName(x.start)))
    {
      hide Plug, Text, Pre, Post, TagName, Splice, Tagged;
      TaggedElem(x);
      if x.FullElem? {
        SpliceBody(c, x, text, ins);
      } else {
        SpliceEmpty(c, x, text, End(ins), TagName(x.start));
        TextEnd(ins);
      }
    }

    lemma TextEnd(g: string)
      ensures Text(End(g)) == g
    {
    }

    lemma RefillRoom(c: Ctx, x: Forest, text: string)
      requires !x.End? && text == Text(Plug(c, x))
      ensures |Pre(c)| + |x.gap| + |x.start| <= |text|
      ensures x.FullElem? && x.kids.End? ==> |Pre(c)| + |x.gap| + |x.start| + |x.kids.gap| <= |text|
    {
      hide Plug, Pre, Post;
      ElemText(c, x);
    }

    /** What the text gains is what the element gains. */
    lemma GainOf(c: Ctx, x: Forest, y: Forest)
      ensures |Text(Plug(c, y))| - |Text(Plug(c, x))| == |Text(y)| - |Text(x)|
    {
      hide Plug, Text, Pre, Post;
      PlugText(c, x);
      PlugText(c, y);
    }

    lemma RefillKeeps(c: Ctx, x: Forest, ins: string)
      requires !x.End? && Kids(x).End? && WellFormed(Plug(c, x), false) && Tagged(Plug(c, x)) && ValidGap(ins)
      requires |x.start| >= 2 && (x.EmptyElem? ==> Splittable(x.start))
      ensures var y := Refilled(x, ins); KeepsForm(Plug(c, x), Plug(c, y)) && Tagged(Plug(c, y))
      ensures |Slots(Plug(c, Refilled(x, ins)))| <= |Slots(Plug(c, x))|
    {
      hide Plug, ValidStart, TagName, EmptyTag, ValidGap, ValidClose, Splittable, TagText, OpenTag, CloseTag;
      var y := Refilled(x, ins);
      SameRoots(c, x, y);
      PlugGap(c, x, y);
      PlugTagged(c, x); PlugTagged(c, y);
      TaggedElem(x);
      PlugWellFormed(c, x, false);
      if x.EmptyElem? {
        OpenTagValid(x.start);
        StartFacts(OpenTag(x.start));
        TagTextOf(x.start, TagName(x.start));
      }
      forall strict | WellFormed(Plug(c, x), strict)
        ensures WellFormed(Plug(c, y), strict)
      {
        PlugWellFormed(c, x, strict);
        PlugWellFormed(c, y, strict);
      }
    }


    lemma SameOrderBody(c: Ctx, x: Forest, y: Forest)
      requires !x.End? && !y.End? && y.slot == x.slot && Kids(x).End? && Kids(y).End? && y.rest == x.rest
      ensures Order(Plug(c, y)) == Order(Plug(c, x))
    {
      hide Order;
      ElemOrder(x); ElemOrder(y);
      EmptyOrder(Kids(x)); EmptyOrder(Kids(y));
      PlugOrder(c, x); PlugOrder(c, y);
    }

    lemma EmptyOrder(f: Forest)
      requires f.End?
      ensures Order(f) == []
    {
    }

    /** x_GetData at an element. */
    method GetData(i: nat) returns (strData: string)
      requires Valid() && PosIn(i) && (i == 0 ==> IsWellFormed())
      ensures strData == if i == 0 then "" else DataAt(forest, i)
    {
      hide Order, Plug, Text, Pre, Post, RepAt, Focus, Tagged, TaggedCtx, Indexed, DataIn, Tail, EmptyAt, WithBody;
      if i == 0 {
        return "";
      }
      AtElement(i);
      FirstOfKids(i);
      strData := "";
      if aPos[i].child == 0 && !aPos[i].IsEmptyElement() {
        ghost var z := Focus(forest, i);
        TextEnd(z.focus.kids.gap);
        TaggedElem(z.focus);
        BodyText(z.ctx, z.focus, doc);
        strData := ReadData(aPos[i].startR + 1, aPos[i].endL);
      }
    }

    /** The part of x_GetData that reads the text between the tags. */
    method ReadData(nStart: nat, nEndL: nat) returns (strData: string)
      requires nStart <= nEndL < |doc|
      ensures strData == DataIn(doc[nStart..], nEndL - nStart)
    {
      hide FindToken, FindStr, FromDoc, DataIn, Token.Shift;
      DataCases(doc, nStart, nEndL);
      var token := ScanToken(doc, nStart);
      if token.found && token.l < |doc| && doc[token.l] == '<' && token.l + 11 < nEndL && doc[token.l + 1..token.l + 9] == "![CDATA[" {
        var k := FindStr(doc[token.next..], "]]>");
        if k >= 0 && token.next + k < nEndL {
          return doc[token.l + 9..token.next + k];
        }
      }
      strData := TextFromDoc(doc, nStart, nEndL - 1);
    }

    lemma BodyText(c: Ctx, x: Forest, text: string)
      requires x.FullElem? && x.kids.End? && text == Text(Plug(c, x)) && x.close != ""
      ensures var at := |Pre(c)| + |x.gap| + |x.start|;
        && at + |x.kids.gap| < |text|
        && text[at..] == x.kids.gap + (Tail(WithBody(x, "", "", x.close)) + Post(c))
    {
      hide Plug, Pre, Post;
      ElemText(c, x);
      TextEnd(x.kids.gap);
      var p, q := Pre(c) + x.gap + x.start, x.close + Text(x.rest);
      assert Tail(WithBody(x, "", "", x.close)) == "" + q == q by { TextEnd(""); }
      assert text == p + (x.kids.gap + (q + Post(c)));
    }

    // ---- Removing an element

    /** The loop of x_RemoveElem that finds the sibling before `i`. */
    method PrevSibling(parent: nat, i: nat, ghost elders: seq<nat>, ghost others: seq<nat>) returns (iPosPrev: nat)
      requires Chain(aPos, parent, elders + others) && others != [] && others[0] == i
      ensures iPosPrev == Last(elders)
    {
      hide Chain, Distinct;
      ghost var o := elders + others;
      ghost var k: nat := 0;
      ChainHead(aPos, parent, o);
      assert o[|elders|] == i;
      var iPosLook := aPos[parent].child;
      iPosPrev := 0;
      while iPosLook != i
        invariant k <= |elders| && iPosLook == o[k] && iPosPrev == (if k == 0 then 0 else o[k - 1])
        decreases |elders| - k
      {
        ChainAt(aPos, parent, o, k);
        iPosPrev := iPosLook;
        iPosLook := aPos[iPosLook].next;
        k := k + 1;
      }
      SameIndex(o, k, |elders|);
    }

    lemma SameIndex(o: seq<nat>, i: nat, j: nat)
      requires Distinct(o) && i < |o| && j < |o| && o[i] == o[j]
      ensures i == j
    {
    }

    /** x_RemoveElem; the current position is for the caller to set. */
    method RemoveAt(i: nat) returns (iPosPrev: nat)
      requires Valid() && i in Order(forest)
      modifies this`doc, this`aPos, this`forest
      ensures Indexed() && KeepsForm(old(forest), forest)
      ensures forest == RemovedForest(old(forest), i)
      ensures SkipTo(Text(Focus(old(forest), i).focus.rest) + Post(Focus(old(forest), i).ctx)) <= |Focus(old(forest), i).focus.rest.gap|
      ensures |aPos| == |old(aPos)| && forall s :: 0 <= s < |aPos| ==> aPos[s].parent == old(aPos)[s].parent
      ensures iPosPrev == Last(Elders(Focus(old(forest), i).ctx))
    {
      hide Order, Plug, Text, Pre, Post, RepAt, Focus, Tagged, TaggedCtx, Represents, Apply, Work, Good, Splice, WellFormed, SkipTo, Elders, SetHole, EmptyAt, FullAt, TagText, Without;
      AtElement(i);
      ghost var z := Focus(forest, i);
      ghost var c, x := z.ctx, z.focus;
      ghost var a, f := aPos, forest;
      ghost var k := SkipTo(Text(x.rest) + Post(c));
      SkipRest(c, x) by { TaggedElem(x); }
      AfterText(c, x, doc);
      iPosPrev := Unlink(i, c, x);
      var nAfterEnd := SkipWhite(aPos[i].endR + 1);
      var nLen := nAfterEnd - aPos[i].startL;
      SpliceRemove(c, x, doc, k);
      SpliceWidth(doc, aPos[i].startL, nLen, "");
      DocChange(aPos[i].startL, nLen, "");
      GainOf(c, x, Without(x, k));
      WorkRoot(aPos, x, c, true, -nLen) by { DistinctRep(a, c, x); }
      Adjust(i, -nLen, true, c, x);
      ElemRemoved(a, aPos, c, x, k);
      forest := Plug(c, Without(x, k));
      RepPlug(aPos, c, Without(x, k));
      RemoveKeeps(c, x, k);
      assert forall s :: s in Order(forest) ==> s in Order(f) by { OrderAfterRemove(c, x, k); }
    }

    /** The part of x_RemoveElem that links around the removed element. */
    method Unlink(i: nat, ghost c: Ctx, ghost x: Forest) returns (iPosPrev: nat)
      requires !x.End? && RepAt(aPos, c, x) && x.slot == i < |aPos|
      modifies this`aPos
      ensures aPos == SetHole(old(aPos), c, 0, First(x.rest)) && iPosPrev == Last(Elders(c))
      ensures Good(aPos, StartWalk(x, c, true)) && aPos[0].startR == old(aPos)[0].startR
      ensures forall s :: 0 <= s < |aPos| ==> aPos[s].parent == old(aPos)[s].parent
      ensures aPos[i] == old(aPos)[i]
    {
      hide Order, Before, Behind, Linked, LinkedCtx, Placed, PlacedCtx, Good, StartWalk, Elders, SetHole, DistinctAt, Chain;
      SiblingChain(aPos, c, x);
      ElemSlots(x);
      UnlinkAt(aPos, c, x);
      LinkedRest(aPos, x, ParentOf(c, 0));
      var iPosParent := aPos[i].parent;
      iPosPrev := PrevSibling(iPosParent, i, Elders(c), Slots(x));
      if iPosPrev != 0 {
        aPos := aPos[iPosPrev := aPos[iPosPrev].(next := aPos[i].next)];
      } else {
        aPos := aPos[iPosParent := aPos[iPosParent].(child := aPos[i].next)];
      }
    }

    lemma ElemSlots(x: Forest)
      requires !x.End?
      ensures Slots(x) != [] && Slots(x)[0] == x.slot
    {
    }

    lemma SkipRest(c: Ctx, x: Forest)
      requires !x.End? && TaggedCtx(c) && Tagged(x.rest)
      ensures SkipTo(Text(x.rest) + Post(c)) <= |x.rest.gap|
      ensures forall i :: 0 <= i < SkipTo(Text(x.rest) + Post(c)) ==> x.rest.gap[i] != '<'
    {
      hide Text, Post, Tagged, TaggedCtx, FirstOf, SkipTo;
      PostStartsTag(c);
      var s := Text(x.rest) + Post(c);
      assert s[0..] == s;
      SkipInGap(x.rest, 0, Post(c));
      SkipPlain(s);
      RegapText(x.rest, x.rest.gap);
      var n := FirstOf(s, {'<'});
      assert forall i :: 0 <= i < |x.rest.gap| ==> s[i] == x.rest.gap[i];
    }

    /** The white space skipped, read off the whole document. */
    lemma SkipToken(text: string, at: nat, token: Token)
      requires at <= |text| && token == FindToken(text[at..]).Shift(at)
      ensures at + SkipTo(text[at..]) == (if !token.found || (token.l < |text| && text[token.l] == '<') then token.l else at)
    {
      hide FindToken;
      var t := FindToken(text[at..]);
      assert t.l < |text[at..]| ==> text[at..][t.l] == text[at + t.l];
    }

    lemma UnlinkAt(a: seq<ElemPos>, c: Ctx, x: Forest)
      requires !x.End? && RepAt(a, c, x) && x.slot < |a|
      ensures var prev, parent, head := Last(Elders(c)), ParentOf(c, 0), a[x.slot].next;
        && prev < |a| && parent < |a| && prev != x.slot && parent != x.slot
        && var a1 := if prev != 0 then a[prev := a[prev].(next := head)] else a[parent := a[parent].(child := head)];
           && a1 == SetHole(a, c, 0, First(x.rest)) && Good(a1, StartWalk(x, c, true)) && a1[0].startR == a[0].startR
           && (forall s :: 0 <= s < |a| ==> a1[s].parent == a[s].parent) && a1[x.slot] == a[x.slot]
    {
      hide Order, Before, Behind, Linked, Placed, PlacedCtx, Good, StartWalk, Elders, SetHole, DistinctAt;
      LinkedRest(a, x, ParentOf(c, 0));
      SetHoleBySlot(a, c, x.slot, First(x.rest));
      UnlinkedGood(a, c, x);
      EldersBefore(a, c, x.slot);
      SlotApart(c, x);
      assert Elders(c) != [] ==> Last(Elders(c)) in Elders(c);
    }

    lemma RemoveKeeps(c: Ctx, x: Forest, k: nat)
      requires !x.End? && WellFormed(Plug(c, x), false) && Tagged(Plug(c, x)) && k <= |x.rest.gap|
      requires |Slots(Plug(c, x))| <= 1
      requires forall i :: 0 <= i < k ==> x.rest.gap[i] != '<'
      ensures KeepsForm(Plug(c, x), Plug(c, Without(x, k))) && Tagged(Plug(c, Without(x, k)))
      ensures |Slots(Plug(c, Without(x, k)))| <= |Slots(Plug(c, x))|
    {
      hide Plug, ValidStart, TagName, EmptyTag, ValidGap, ValidClose, TagText;
      var y := Without(x, k);
      var g := x.rest.gap;
      RegapSlots(x.rest, x.gap + x.rest.gap[k..]);
      SlotsOnce(x);
      SlotsOnce(x.rest);
      PlugGap(c, x, y);
      PlugRoots(c, x, y);
      PlugTagged(c, x); PlugTagged(c, y);
      TaggedElem(x);
      forall strict | WellFormed(Plug(c, x), strict)
        ensures WellFormed(Plug(c, y), strict)
      {
        PlugWellFormed(c, x, strict);
        PlugWellFormed(c, y, strict);
        if Strict(c, strict) {
          assert g == g[..k] + g[k..];
          PlainPrefix(g[..k], g[k..]);
          GapJoin(x.gap, g[k..]);
        }
      }
    }

    lemma OrderAfterRemove(c: Ctx, x: Forest, k: nat)
      requires !x.End? && k <= |x.rest.gap|
      ensures Order(Plug(c, Without(x, k))) == Before(c) + Order(x.rest) + Behind(c)
      ensures forall s :: s in Order(Plug(c, Without(x, k))) ==> s in Order(Plug(c, x))
    {
      hide Order;
      ElemOrder(x);
      PlugOrder(c, x);
      PlugOrder(c, Without(x, k));
      RegapFacts([], x.rest, x.gap + x.rest.gap[k..], 0, 0);
    }

    /** RemoveElem. */
    method RemoveElem() returns (ok: bool)
      requires Valid()
      modifies this
      ensures Valid() && KeepsForm(old(forest), forest)
      ensures ok <==> old(iPos) != 0
      ensures ok ==> forest == RemovedForest(old(forest), old(iPos)) && iPosParent == old(iPosParent) && iPosChild == 0
      ensures ok ==> iPos == Last(Elders(Focus(old(forest), old(iPos)).ctx))
      ensures !ok ==> doc == old(doc) && aPos == old(aPos) && forest == old(forest)
    {
      hide Order, Plug, Text, Focus, Indexed, RepAt, Tagged, TaggedCtx, RemovedForest, EmptyAt, FullAt, SkipTo, Elders;
      ok := iPos != 0 && nodeType == MNT_ELEMENT;
      if ok {
        RemovedPositions(iPos);
        var iPosPrev := RemoveAt(iPos);
        SetPos(iPosParent, iPosPrev, 0);
      }
    }

    /** RemoveChildElem. */
    method RemoveChildElem() returns (ok: bool)
      requires Valid()
      modifies this
      ensures Valid() && KeepsForm(old(forest), forest)
      ensures ok <==> old(iPosChild) != 0
      ensures ok ==> forest == RemovedForest(old(forest), old(iPosChild)) && iPosParent == old(iPosParent) && iPos == old(iPos)
      ensures ok ==> iPosChild == Last(Elders(Focus(old(forest), old(iPosChild)).ctx))
      ensures !ok ==> doc == old(doc) && aPos == old(aPos) && forest == old(forest)
    {
      hide Order, Plug, Text, Focus, Indexed, RepAt, Tagged, TaggedCtx, RemovedForest, EmptyAt, FullAt, SkipTo, Elders;
      ok := iPosChild != 0;
      if ok {
        RemovedPositions(iPosChild);
        var iPosPrev := RemoveAt(iPosChild);
        SetPos(iPosParent, iPos, iPosPrev);
      }
    }

    /** The elements around and before a removed one are still there. */
    lemma RemovedPositions(i: nat)
      requires Indexed() && i in Order(forest)
      ensures var z := Focus(forest, i);
        var k := SkipTo(Text(z.focus.rest) + Post(z.ctx));
        var prev := Last(Elders(z.ctx));
        && i < |aPos|
        && (k <= |z.focus.rest.gap| ==>
            && (aPos[i].parent != 0 ==> aPos[i].parent < |aPos| && aPos[i].parent in Order(RemovedForest(forest, i)))
            && (aPos[i].parent != 0 && aPos[aPos[i].parent].parent != 0 ==> aPos[aPos[i].parent].parent in Order(RemovedForest(forest, i)))
            && (prev != 0 ==> prev < |aPos| && prev in Order(RemovedForest(forest, i)) && aPos[prev].parent == aPos[i].parent))
    {
      hide Order, Plug, Text, Post, Focus, Tagged, TaggedCtx, EmptyAt, FullAt, SkipTo, Elders, Linked, Placed, PlacedCtx, DistinctAt, Without, WellFormed, LinkedCtx;
      AtElement(i);
      var z := Focus(forest, i);
      var k := SkipTo(Text(z.focus.rest) + Post(z.ctx));
      EldersBefore(aPos, z.ctx, i);
      assert Elders(z.ctx) != [] ==> Last(Elders(z.ctx)) in Elders(z.ctx);
      if k <= |z.focus.rest.gap| {
        OrderAfterRemove(z.ctx, z.focus, k);
      }
    }

    // ---- Adding an element

    /** x_GetFreePos. */
    method GetFreePos() returns (i: nat)
      requires 1 <= iPosFree <= |aPos| && 8 <= |aPos|
      modifies this`aPos, this`iPosFree
      ensures i == old(iPosFree) && iPosFree == i + 1 <= |aPos|
      ensures |aPos| == if old(iPosFree) == |old(aPos)| then i + i / 2 else |old(aPos)|
      ensures |old(aPos)| <= |aPos| && aPos[..|old(aPos)|] == old(aPos)
    {
      if iPosFree == |aPos| {
        aPos := aPos + seq(iPosFree / 2, k => CLEARED);
      }
      iPosFree := iPosFree + 1;
      i := iPosFree - 1;
    }

    /** Where x_AddElem may be asked to put an element: under an element, before or after
        one of its children if there is one; or at the root of a document without one. */
    ghost predicate CanPlace(parent: nat, rel: nat, insert: bool)
      reads this`doc, this`aPos, this`forest
    {
      if parent != 0 then parent in Order(forest) && PosUnder(rel, parent)
      else rel == 0 && forest.End? && 0 < |aPos| && aPos[0].endL == |doc| && (insert ==> doc != "")
    }

    ghost predicate SplitsParent(parent: nat)
      reads this`forest
    {
      parent != 0 && Focus(forest, parent).focus.EmptyElem?
    }

    /** The parent of an element has a body. */
    lemma ParentIsFull(parent: nat, rel: nat)
      requires Indexed() && parent in Order(forest) && rel != 0 && PosUnder(rel, parent)
      ensures Focus(forest, parent).focus.FullElem?
    {
      hide Order, Plug, Text, Pre, Focus, Tagged, TaggedCtx, WellFormed, Elders, Linked, LinkedCtx, Placed, PlacedCtx, DistinctAt;
      AtElement(rel);
      var z := Focus(forest, rel);
      SiblingChain(aPos, z.ctx, z.focus);
      ElemSlots(z.focus);
      FirstOfKids(parent);
      AtElement(parent);
    }

    /** What the index says of the place of a new element. */
    lemma AtPlace(parent: nat, rel: nat, insert: bool)
      requires Indexed() && CanPlace(parent, rel, insert) && !SplitsParent(parent)
      ensures var z := Place(forest, parent, rel, insert);
        && forest == Plug(z.ctx, z.focus) && doc == Text(Plug(z.ctx, z.focus))
        && RepAt(aPos, z.ctx, z.focus) && TaggedCtx(z.ctx) && Tagged(z.focus) && ParentOf(z.ctx, 0) == parent
    {
      hide Order, Plug, Text, Pre, LinkedCtx, PlacedCtx, Linked, Placed, Focus, Tagged, TaggedCtx, Place;
      if rel != 0 {
        AtElement(rel);
      } else if parent != 0 {
        AtElement(parent);
      }
      PlaceAmong(forest, parent, rel, insert);
      var z := Place(forest, parent, rel, insert);
      RepPlug(aPos, z.ctx, z.focus);
      PlugTagged(z.ctx, z.focus);
    }

    /** Where x_LocateNew starts to look, in the text. */
    lemma PlaceOffset(parent: nat, rel: nat, insert: bool)
      requires Indexed() && CanPlace(parent, rel, insert) && !SplitsParent(parent)
      ensures parent < |aPos| && rel < |aPos|
      ensures var z := Place(forest, parent, rel, insert);
        var from := LookFrom(z, parent, rel, insert);
        && from <= |z.focus.gap|
        && |Pre(z.ctx)| + from ==
             (if rel != 0 then (if insert then aPos[rel].startL else aPos[rel].endR + 1)
              else if insert then aPos[parent].startR + 1 else aPos[parent].endL)
    {
      hide Order, Plug, Text, Pre, LinkedCtx, PlacedCtx, Linked, Placed, Focus, Tagged, TaggedCtx, LastHole, WellFormed;
      if rel != 0 {
        AtElement(rel);
        var z := Focus(forest, rel);
        ExtendWidth(z.ctx, z.focus);
      } else if parent != 0 {
        AtElement(parent);
        var z := Focus(forest, parent);
        var h := FirstHole(forest, parent);
        PreWidth(h.ctx);
        LastHoleWidth(h);
      } else {
        RootOffset(insert);
      }
    }

    lemma RootOffset(insert: bool)
      requires Indexed() && CanPlace(0, 0, insert)
      ensures var z := Place(forest, 0, 0, insert); z == Zipper(Top, forest) && forest.gap == doc && |Pre(z.ctx)| == 0
    {
    }

    /** Where x_LocateNew looks for white space. */
    ghost function LookAt(parent: nat, rel: nat, insert: bool): int
      requires parent < |aPos| && rel < |aPos|
      reads this`aPos
    {
      if rel != 0 then (if insert then aPos[rel].startL else aPos[rel].endR + 1)
      else if insert then aPos[parent].startR + 1 else aPos[parent].endL
    }

    lemma PlaceSkips(parent: nat, rel: nat, insert: bool)
      requires Indexed() && CanPlace(parent, rel, insert) && !SplitsParent(parent)
      ensures parent < |aPos| && rel < |aPos| && !aPos[parent].IsEmptyElement()
      ensures var at, z := LookAt(parent, rel, insert), Place(forest, parent, rel, insert);
        && 0 <= at <= |doc| && NewGap(z, LookFrom(z, parent, rel, insert)) <= |z.focus.gap|
        && at + SkipTo(doc[at..]) == |Pre(z.ctx)| + NewGap(z, LookFrom(z, parent, rel, insert))
    {
      hide Order, Plug, Text, Pre, Post, RepAt, Focus, Tagged, TaggedCtx, Represents, WellFormed, Place, SkipTo, EmptyAt, FullAt;
      PlaceOffset(parent, rel, insert);
      AtPlace(parent, rel, insert);
      var z := Place(forest, parent, rel, insert);
      var from := LookFrom(z, parent, rel, insert);
      NewGapFacts(z, from);
      HoleText(z.ctx, z.focus, doc, from);
      PlaceParent(parent, rel, insert);
    }

    lemma PlaceParent(parent: nat, rel: nat, insert: bool)
      requires Indexed() && CanPlace(parent, rel, insert)
      ensures parent < |aPos| && (SplitsParent(parent) ==> rel == 0) && (rel != 0 ==> rel < |aPos|)
      ensures aPos[parent].IsEmptyElement() <==> SplitsParent(parent)
    {
      hide Order, Plug, Text, Pre, Post, RepAt, Focus, Tagged, TaggedCtx, Represents, WellFormed, EmptyAt, FullAt;
      if parent != 0 {
        AtElement(parent);
        if rel != 0 { ParentIsFull(parent, rel); }
      }
    }

    /** How x_LocateNew and x_RemoveElem go up to the start of the next node. */
    method SkipWhite(at: nat) returns (n: nat)
      requires at <= |doc|
      ensures n == at + SkipTo(doc[at..])
    {
      hide SkipTo;
      n := at;
      var token := ScanToken(doc, at);
      SkipToken(doc, at, token);
      if !token.found || (token.l < |doc| && doc[token.l] == '<') {
        n := token.l;
      }
    }

    /** The part of x_LocateNew that finds the offset. */
    method LocateOffset(iPosParent: nat, iPosRel: nat, bInsert: bool) returns (nStartL: int)
      requires Indexed() && CanPlace(iPosParent, iPosRel, bInsert)
      ensures iPosParent < |aPos|
      ensures SplitsParent(iPosParent) ==> nStartL == aPos[iPosParent].startR
      ensures !SplitsParent(iPosParent) ==>
        var z := Place(forest, iPosParent, iPosRel, bInsert);
        nStartL == |Pre(z.ctx)| + NewGap(z, LookFrom(z, iPosParent, iPosRel, bInsert))
    {
      hide Indexed, CanPlace, SplitsParent, Order, Pre, RepAt, Focus, Place, SkipTo, NewGap, LookFrom, ElemPos.IsEmptyElement;
      PlaceParent(iPosParent, iPosRel, bInsert);
      if !SplitsParent(iPosParent) { PlaceSkips(iPosParent, iPosRel, bInsert); }
      if iPosRel != 0 {
        nStartL := if bInsert then aPos[iPosRel].startL else aPos[iPosRel].endR + 1;
      } else if aPos[iPosParent].IsEmptyElement() {
        nStartL := aPos[iPosParent].startR;
      } else {
        nStartL := if bInsert then aPos[iPosParent].startR + 1 else aPos[iPosParent].endL;
      }
      if !aPos[iPosParent].IsEmptyElement() {
        nStartL := SkipWhite(nStartL);
      }
    }

    lemma ChainHead(a: seq<ElemPos>, parent: nat, o: seq<nat>)
      requires Chain(a, parent, o)
      ensures parent < |a| && a[parent].child == (if o == [] then 0 else o[0]) && (o != [] ==> o[0] != 0) && Distinct(o)
    {
    }

    lemma ChainAt(a: seq<ElemPos>, parent: nat, o: seq<nat>, k: nat)
      requires Chain(a, parent, o) && k < |o|
      ensures 0 < o[k] < |a| && a[o[k]].next == (if k + 1 < |o| then o[k + 1] else 0)
    {
    }

    /** The loop of x_LocateNew that finds the sibling before `iPosRel`. */
    method SiblingBefore(parent: nat, iPosRel: nat, ghost elders: seq<nat>, ghost others: seq<nat>) returns (iPosBefore: nat)
      requires Chain(aPos, parent, elders + others) && others != [] && others[0] == iPosRel
      ensures iPosBefore == Last(elders)
    {
      hide Chain, Distinct;
      ghost var o := elders + others;
      ChainHead(aPos, parent, o);
      assert o[|elders|] == iPosRel;
      var iPosPrev := aPos[parent].child;
      iPosBefore := 0;
      if iPosPrev != iPosRel {
        ghost var k: nat := 0;
        ChainAt(aPos, parent, o, 0);
        while aPos[iPosPrev].next != iPosRel
          invariant k < |elders| && iPosPrev == o[k] < |aPos| && aPos[iPosPrev].next == o[k + 1]
          decreases |elders| - k
        {
          iPosPrev := aPos[iPosPrev].next;
          k := k + 1;
          ChainAt(aPos, parent, o, k);
        }
        SameIndex(o, k + 1, |elders|);
        iPosBefore := iPosPrev;
      } else {
        SameIndex(o, 0, |elders|);
      }
    }

    /** The loop of x_LocateNew that finds the last of the children. */
    method LastSibling(parent: nat, ghost o: seq<nat>) returns (iPosLast: nat)
      requires Chain(aPos, parent, o) && o != []
      ensures iPosLast == Last(o)
    {
      hide Chain, Distinct;
      ChainHead(aPos, parent, o);
      iPosLast := aPos[parent].child;
      var iPosNext := iPosLast;
      ghost var k: nat := 0;
      while iPosNext != 0
        invariant k <= |o| && (if k < |o| then iPosNext == o[k] != 0 else iPosNext == 0)
        invariant iPosLast == (if k == 0 then o[0] else o[k - 1])
        decreases |o| - k
      {
        ChainAt(aPos, parent, o, k);
        if k + 1 < |o| { ChainAt(aPos, parent, o, k + 1); }
        iPosLast := iPosNext;
        iPosNext := aPos[iPosNext].next;
        k := k + 1;
      }
    }

    /** The part of x_LocateNew that finds the sibling to link in after. */
    method LocateBefore(iPosParent: nat, iPosRel: nat, bInsert: bool) returns (iPosBefore: nat)
      requires Indexed() && CanPlace(iPosParent, iPosRel, bInsert) && iPosParent < |aPos|
      ensures SplitsParent(iPosParent) ==> iPosBefore == 0
      ensures !SplitsParent(iPosParent) ==> iPosBefore == Last(Elders(Place(forest, iPosParent, iPosRel, bInsert).ctx))
    {
      hide Order, Plug, Text, Pre, Post, Focus, Tagged, TaggedCtx, Represents, WellFormed, Place, EmptyAt, FullAt, Chain, Elders, Linked, LinkedCtx, Placed, PlacedCtx, DistinctAt;
      ghost var z := Place(forest, iPosParent, iPosRel, bInsert);
      if !SplitsParent(iPosParent) {
        AtPlace(iPosParent, iPosRel, bInsert);
        PlaceAmong(forest, iPosParent, iPosRel, bInsert);
        SiblingChain(aPos, z.ctx, z.focus);
      }
      iPosBefore := 0;
      if iPosRel != 0 {
        ParentIsFull(iPosParent, iPosRel);
        if bInsert {
          iPosBefore := SiblingBefore(iPosParent, iPosRel, Elders(z.ctx), Slots(z.focus));
        } else {
          iPosBefore := iPosRel;
        }
      } else if aPos[iPosParent].child != 0 {
        if iPosParent != 0 { FirstOfKids(iPosParent); } else { RootChild(); }
        if !bInsert {
          ChainHead(aPos, iPosParent, Elders(z.ctx) + Slots(z.focus));
          assert Elders(z.ctx) + Slots(z.focus) == Elders(z.ctx);
          iPosBefore := LastSibling(iPosParent, Elders(z.ctx));
        }
      } else if !SplitsParent(iPosParent) && !bInsert {
        ChainHead(aPos, iPosParent, Elders(z.ctx) + Slots(z.focus));
        assert Elders(z.ctx) + Slots(z.focus) == Elders(z.ctx);
      }
    }

    lemma RootChild()
      requires Indexed() && forest.End?
      ensures 0 < |aPos| && aPos[0].child == 0
    {
    }

    /** x_LocateNew. */
    method LocateNew(iPosParent: nat, iPosRel: nat, bInsert: bool) returns (nOffset: int, iPosBefore: nat)
      requires Indexed() && CanPlace(iPosParent, iPosRel, bInsert)
      ensures iPosParent < |aPos|
      ensures SplitsParent(iPosParent) ==> nOffset == aPos[iPosParent].startR && iPosBefore == 0
      ensures !SplitsParent(iPosParent) ==>
        var z := Place(forest, iPosParent, iPosRel, bInsert);
        && nOffset == |Pre(z.ctx)| + NewGap(z, LookFrom(z, iPosParent, iPosRel, bInsert))
        && iPosBefore == Last(Elders(z.ctx))
    {
      hide *;
      nOffset := LocateOffset(iPosParent, iPosRel, bInsert);
      iPosBefore := LocateBefore(iPosParent, iPosRel, bInsert);
    }

    /** The part of x_AddElem that fills in the new position and links it in. */
    method LinkNew(iPos: nat, iPosParent: nat, iPosBefore: nat, nOffset: int, szName: string, szValue: string)
      requires iPos < |aPos| && iPosParent < |aPos| && iPosBefore < |aPos| && iPos != iPosParent && iPos != iPosBefore
      modifies this`aPos
      ensures aPos == LinkedIn(old(aPos), iPos, NewPos(nOffset, szName, szValue, iPosParent, NextIn(old(aPos), iPosParent, iPosBefore)), iPosParent, iPosBefore)
    {
      hide ToDoc;
      aPos := aPos[iPos := aPos[iPos].(startL := nOffset)];
      aPos := aPos[iPos := aPos[iPos].(parent := iPosParent, child := 0, next := 0)];
      if iPosBefore != 0 {
        aPos := aPos[iPos := aPos[iPos].(next := aPos[iPosBefore].next)];
        aPos := aPos[iPosBefore := aPos[iPosBefore].(next := iPos)];
      } else {
        aPos := aPos[iPos := aPos[iPos].(next := aPos[iPosParent].child)];
        aPos := aPos[iPosParent := aPos[iPosParent].(child := iPos)];
      }
      var p := aPos[iPos];
      if szValue == "" {
        p := p.(startR := p.startL + |szName| + 2);
        p := p.(endL := p.startR - 1);
        p := p.(endR := p.endL + 1);
      } else {
        var strValue := TextToDoc(szValue, false);
        p := p.(startR := p.startL + |szName| + 1);
        p := p.(endL := p.startR + |strValue| + 1);
        p := p.(endR := p.endL + |szName| + 2);
      }
      aPos := aPos[iPos := p];
    }

    /** The part of x_AddElem that makes the text of the new element. */
    method MakeElem(szName: string, szValue: string) returns (strInsert: string)
      ensures strInsert == NewText(szName, szValue) + CRLF
    {
      hide ToDoc;
      if szValue == "" {
        strInsert := "<" + szName + "/>" + CRLF;
      } else {
        var strValue := TextToDoc(szValue, false);
        strInsert := "<" + szName + ">" + strValue + "</" + szName + ">" + CRLF;
      }
    }

    lemma GrownIndex(a: seq<ElemPos>, f: Forest)
      requires Represents(a, f) && |a| <= |aPos| && aPos[..|a|] == a && 0 < |a|
      ensures Represents(aPos, f) && aPos[0] == a[0]
    {
      RepGrow(a, aPos, f);
      assert aPos[0] == aPos[..|a|][0];
    }

    /** x_AddElem under an element with a body, or at the root. */
    method AddAmong(iPosParent: nat, iPosBefore: nat, nOffset: nat, szName: string, szValue: string, ghost z: Zipper, ghost k: nat)
      returns (iPos: nat)
      requires Indexed() && forest == Plug(z.ctx, z.focus) && k <= |z.focus.gap|
      requires iPosParent == ParentOf(z.ctx, 0) && iPosBefore == Last(Elders(z.ctx)) && nOffset == |Pre(z.ctx)| + k
      requires PlainName(szName) && (Strict(z.ctx, false) ==> GapSplits(z.focus.gap, k))
      requires iPosParent == 0 ==> z.ctx.Top? && z.focus.End?
      modifies this`doc, this`aPos, this`iPosFree, this`forest
      ensures Indexed() && iPos == old(iPosFree) && forest == Plug(z.ctx, Inserted(z.focus, k, iPos, szName, szValue))
      ensures KeptParents(old(aPos), aPos, iPos, iPosParent) && iPosFree == iPos + 1
    {
      hide Order, Plug, Text, Pre, Represents, Tagged, Apply, Work, Good, WellFormed, Splice, SetHole, Stands, NewPos, NewElem, NewText, Last, Elders, LinkedIn, RepAt, ToDoc, PlainName, GapSplits;
      ghost var c, f, a, free := z.ctx, z.focus, aPos, iPosFree;
      FreshSlot(c, f, iPosFree);
      InsertedOrder(c, f, k, iPosFree, szName, szValue);
      AddedKeeps(c, f, k, iPosFree, szName, szValue, false);
      AddedText(c, f, doc, k, iPosFree, szName, szValue);
      InsertedText(f, k, iPosFree, szName, szValue);
      InsertedRoots(c, f, k, iPosFree, szName, szValue);
      iPos := GetFreePos();
      GrownIndex(a, forest);
      ghost var g := aPos;
      RepPlug(g, c, f);
      NewLinked(g, c, f, iPos);
      ghost var x := Inserted(f, k, iPos, szName, szValue);
      ghost var p := NewPos(nOffset, szName, szValue, iPosParent, NextIn(g, iPosParent, iPosBefore));
      NewPosParent(nOffset, szName, szValue, iPosParent, NextIn(g, iPosParent, iPosBefore));
      LinkNew(iPos, iPosParent, iPosBefore, nOffset, szName, szValue);
      assert aPos == SetHole(g[iPos := p], c, 0, iPos);
      InsertedReady(g, c, f, k, iPos, szName, szValue, p);
      var strInsert := MakeElem(szName, szValue);
      DocChange(nOffset, 0, strInsert);
      Adjust(iPos, |strInsert|, false, c, x);
      ElemInserted(g, p, aPos, c, f, x);
      ParentsKept(a, g, aPos, iPos, p, iPosParent, iPosBefore);
      forest := Plug(c, x);
      RepPlug(aPos, c, x);
    }

    lemma ParentsKept(a: seq<ElemPos>, g: seq<ElemPos>, b: seq<ElemPos>, i: nat, p: ElemPos, parent: nat, prev: nat)
      requires |a| <= |g| && g[..|a|] == a && i < |g| && parent < |g| && prev < |g| && parent != i && prev != i && p.parent == parent
      requires SameLinks(b, LinkedIn(g, i, p, parent, prev))
      ensures KeptParents(a, b, i, parent) && |b| == |g|
    {
      assert forall s :: 0 <= s < |a| ==> a[s] == g[..|a|][s];
    }

    lemma InsertedRoots(c: Ctx, f: Forest, k: nat, slot: nat, name: string, value: string)
      requires k <= |f.gap| && (ParentOf(c, 0) == 0 ==> c.Top? && f.End?) && |Slots(Plug(c, f))| <= 1
      ensures |Slots(Plug(c, Inserted(f, k, slot, name, value)))| <= 1
    {
      hide Slots, NewElem, ToDoc, Plug;
      if ParentOf(c, 0) != 0 {
        PlugRootsInside(c, f, Inserted(f, k, slot, name, value));
      } else {
        InsertedSlots(Zipper(c, f), k, slot, name, value);
        SlotsOnce(f);
        assert Plug(c, Inserted(f, k, slot, name, value)) == Inserted(f, k, slot, name, value) by { PlugTop(Inserted(f, k, slot, name, value)); }
      }
    }

    lemma PlugTop(f: Forest)
      ensures Plug(Top, f) == f
    {
    }

    lemma NewPosParent(at: int, name: string, value: string, parent: nat, next: nat)
      ensures NewPos(at, name, value, parent, next).parent == parent
    {
    }

    lemma InsertedReady(g: seq<ElemPos>, c: Ctx, f: Forest, k: nat, slot: nat, name: string, value: string, p: ElemPos)
      requires RepAt(g, c, f) && Unused(slot, c, f) && slot < |g| && k <= |f.gap|
      requires p == NewPos(|Pre(c)| + k, name, value, ParentOf(c, 0), First(f))
      ensures var x := Inserted(f, k, slot, name, value);
        && Stands(p, c, x) && x.slot == slot && x.rest == WithGap(f, x.rest.gap)
        && var a1 := SetHole(g[slot := p], c, 0, slot);
           && |a1| == |g| && 0 < |g| && Good(a1, StartWalk(x, c, false)) && a1[0].startR == g[0].startR
           && forall n :: Apply(a1, Work(x, c, false), n)[0].startR == g[0].startR
    {
      hide Order, Plug, Text, Pre, Represents, Tagged, Apply, Work, Good, WellFormed, Stands, NewPos, NewElem, RepAt, ToDoc;
      var x := Inserted(f, k, slot, name, value);
      RegapFirst(f, x.rest.gap);
      NewStands(c, x, name, value, p);
      InsertedGood(g, p, c, f, x);
      var a1 := SetHole(g[slot := p], c, 0, slot);
      SetHoleOffsets(g[slot := p], c, 0, slot);
      LinkedRoot(g, c, f);
      assert a1[0].startR == g[slot := p][0].startR;
      forall n
        ensures Apply(a1, Work(x, c, false), n)[0].startR == g[0].startR
      {
        WorkRoot(a1, x, c, false, n);
      }
    }

    lemma RegapFirst(f: Forest, g: string)
      ensures First(WithGap(f, g)) == First(f) && WithGap(f, g).gap == g
    {
    }

    lemma LinkedRoot(g: seq<ElemPos>, c: Ctx, f: Forest)
      requires RepAt(g, c, f)
      ensures 0 < |g|
    {
      hide Plug, Order, Linked, LinkedCtx, Placed, PlacedCtx, DistinctAt;
      RepPlug(g, c, f);
    }

    /** x_AddElem under an empty element, which is split. */
    method AddToEmpty(iPosParent: nat, nOffset: nat, szName: string, szValue: string) returns (iPos: nat)
      requires Indexed() && iPosParent in Order(forest) && Focus(forest, iPosParent).focus.EmptyElem?
      requires iPosParent < |aPos| && nOffset == aPos[iPosParent].startR + 2
      requires PlainName(szName) && Splittable(Focus(forest, iPosParent).focus.start)
      modifies this`doc, this`aPos, this`iPosFree, this`forest
      ensures Indexed() && iPos == old(iPosFree) && KeepsForm(old(forest), forest)
      ensures var z := Focus(old(forest), iPosParent);
        |z.focus.start| >= 2 && forest == Plug(z.ctx, SplitElem(z.focus, iPos, szName, szValue))
      ensures KeptParents(old(aPos), aPos, iPos, iPosParent) && iPosFree == iPos + 1
    {
      hide Order, Plug, Text, Pre, RepAt, Focus, Represents, Tagged, TaggedCtx, Apply, Work, Good, WellFormed, Splice, NewPos, NewElem, NewText, ToDoc, PlainName, Splittable, TagName, EmptyAt, FullAt, NameAt, Linked, LinkedIn, TagText, EmptyTag, SplitElem, SplitCtx, KeepsForm, Slots, SplitPos, Unused, SameLinks, KeptParents;
      AtElement(iPosParent);
      ElementForm(iPosParent);
      NameInDoc(iPosParent);
      ghost var z := Focus(forest, iPosParent);
      ghost var c, x, a, free := z.ctx, z.focus, aPos, iPosFree;
      SplitFacts(c, x, free, szName, szValue);
      FreshSlot(c, x, free);
      iPos := GetFreePos();
      GrownIndex(a, forest);
      assert aPos[iPosParent] == aPos[..|a|][iPosParent];
      RepPlug(aPos, c, x);
      FillSplit(iPosParent, iPos, nOffset, szName, szValue, a, c, x);
      forest := Plug(c, SplitElem(x, iPos, szName, szValue));
      RepPlug(aPos, c, SplitElem(x, iPos, szName, szValue));
    }

    /** The part of it behind the choice of the slot. */
    method FillSplit(iPosParent: nat, iPos: nat, nOffset: nat, szName: string, szValue: string, ghost a: seq<ElemPos>,
        ghost c: Ctx, ghost x: Forest)
      requires x.EmptyElem? && x.slot == iPosParent && |x.start| >= 2 && TagText(x.start) && EmptyTag(x.start)
      requires RepAt(aPos, c, x) && doc == Text(Plug(c, x)) && Unused(iPos, c, x)
      requires 0 < iPos < |aPos| && 0 < iPosParent < |aPos| && iPos != iPosParent && |a| <= |aPos| && aPos[..|a|] == a
      requires 0 <= aPos[iPosParent].startL < |doc| && NameAt(doc, aPos[iPosParent].startL) == TagName(x.start)
      requires nOffset == aPos[iPosParent].startR + 2 == |Pre(c)| + |x.gap| + |x.start| + 1 && aPos[iPosParent].child == 0
      modifies this`doc, this`aPos
      ensures RepAt(aPos, c, SplitElem(x, iPos, szName, szValue)) && doc == Text(Plug(c, SplitElem(x, iPos, szName, szValue)))
      ensures |aPos| == |old(aPos)| && aPos[0].startR == old(aPos)[0].startR && KeptParents(a, aPos, iPos, iPosParent)
    {
      hide *;
      ghost var g := aPos;
      SplitText(c, x, doc, iPos, szName, szValue);
      var strInsert := SplitParent(iPosParent, iPos, nOffset, szName, szValue);
      ghost var p, q := aPos[iPosParent], aPos[iPos];
      SplitPosIs(g, c, x, szName, szValue, iPos, p, q);
      SplitInsert(szName, szValue, TagName(x.start));
      DocChange(nOffset - 3, 1, strInsert);
      AdjustSplit(iPos, |strInsert| - 1, g, c, x, szName, szValue, p, q);
      NewPosParent(nOffset, szName, szValue, iPosParent, 0);
      SplitParents(a, g, aPos, iPos, iPosParent, p, q);
    }

    lemma SplitParents(a: seq<ElemPos>, g: seq<ElemPos>, b: seq<ElemPos>, i: nat, parent: nat, p: ElemPos, q: ElemPos)
      requires |a| <= |g| && g[..|a|] == a && i < |g| && parent < |g| && i != parent
      requires q.parent == parent && p.parent == g[parent].parent && SameLinks(b, g[i := q][parent := p])
      ensures KeptParents(a, b, i, parent) && |b| == |g|
    {
      assert forall s :: 0 <= s < |a| ==> a[s] == g[..|a|][s];
    }

    /** The part of x_AddElem that fills in the positions of the new child and of its empty
        parent, and makes the text that replaces the '/' of the parent. */
    method SplitParent(iPosParent: nat, iPos: nat, nOffset: nat, szName: string, szValue: string) returns (strInsert: string)
      requires iPos < |aPos| && 0 < iPosParent < |aPos| && 0 < iPos && iPos != iPosParent && 0 <= aPos[iPosParent].startL < |doc|
      modifies this`aPos
      ensures var p, name := old(aPos)[iPosParent], NameAt(doc, old(aPos)[iPosParent].startL);
        && strInsert == ">" + CRLF + (NewText(szName, szValue) + CRLF) + "</" + name
        && aPos == old(aPos)[iPos := NewPos(nOffset, szName, szValue, iPosParent, p.child)]
             [iPosParent := p.(child := iPos, startR := p.startR - 1, endL := p.endL - (|name| + 1))]
    {
      hide NewPos, NewText, NameAt;
      LinkNew(iPos, iPosParent, 0, nOffset, szName, szValue);
      strInsert := MakeElem(szName, szValue);
      var strParentTagName := GetTagName(iPosParent);
      strInsert := ">" + CRLF + strInsert + "</" + strParentTagName;
      aPos := aPos[iPosParent := aPos[iPosParent].(startR := aPos[iPosParent].startR - 1)];
      aPos := aPos[iPosParent := aPos[iPosParent].(endL := aPos[iPosParent].endL - (|strParentTagName| + 1))];
    }

    lemma SplitInsert(name: string, value: string, parentName: string)
      ensures ">" + CRLF + (NewText(name, value) + CRLF) + "</" + parentName == ">" + CRLF + NewText(name, value) + CRLF + "</" + parentName
      ensures |">" + CRLF + (NewText(name, value) + CRLF) + "</" + parentName| == |NewText(name, value)| + |parentName| + 7
    {
      hide NewText;
    }

    lemma SplitFacts(c: Ctx, x: Forest, slot: nat, name: string, value: string)
      requires x.EmptyElem? && Splittable(x.start) && PlainName(name) && WellFormed(Plug(c, x), false) && Tagged(Plug(c, x))
      ensures |x.start| >= 2
      ensures var g := Plug(c, SplitElem(x, slot, name, value));
        && KeepsForm(Plug(c, x), g) && WellFormed(g, false) && Tagged(g) && |Slots(g)| <= |Slots(Plug(c, x))|
        && forall s :: s in Order(g) <==> s == slot || s in Order(Plug(c, x))
    {
      assert |x.start| >= 2;
      hide Plug, WellFormed, Tagged, NewElem, ToDoc, PlainName, Splittable, Order;
      SplitOrder(c, x, slot, name, value);
      SameRoots(c, x, SplitElem(x, slot, name, value));
      PlugGap(c, x, SplitElem(x, slot, name, value));
      forall strict | WellFormed(Plug(c, x), strict)
        ensures WellFormed(Plug(c, SplitElem(x, slot, name, value)), strict) && Tagged(Plug(c, SplitElem(x, slot, name, value)))
      {
        SplitKeeps(c, x, slot, name, value, strict);
      }
    }

    /** The positions of the split element and of its new child are what ElemSplit needs. */
    ghost predicate SplitPos(g: seq<ElemPos>, c: Ctx, x: Forest, name: string, value: string, slot: nat, p: ElemPos, q: ElemPos) {
      && x.EmptyElem? && |x.start| >= 2 && RepAt(g, c, x) && Unused(slot, c, x) && slot < |g| && x.slot < |g| && x.slot != slot
      && p == g[x.slot].(child := slot, startR := g[x.slot].startR - 1, endL := g[x.slot].endL - (|TagName(x.start)| + 1))
      && q == NewPos(g[x.slot].startR + 2, name, value, x.slot, 0)
    }

    /** The adjustments for a split element and its new child. */
    method AdjustSplit(iPos: nat, n: int, ghost g: seq<ElemPos>, ghost c: Ctx, ghost x: Forest, ghost name: string, ghost value: string,
        ghost p: ElemPos, ghost q: ElemPos)
      requires SplitPos(g, c, x, name, value, iPos, p, q) && iPos < |g| && x.slot < |g| && 0 < |g| && aPos == g[iPos := q][x.slot := p]
      requires |x.start| >= 2 && x.EmptyElem? && TagText(x.start) && EmptyTag(x.start)
      requires n == |NewText(name, value)| + |TagName(x.start)| + 6
      modifies this`aPos
      ensures RepAt(aPos, c, SplitElem(x, iPos, name, value)) && SameLinks(aPos, old(aPos)) && 0 < |aPos| && aPos[0].startR == g[0].startR
    {
      hide SplitPos, RepAt, SplitElem, Apply, Work, Good, NewElem, NewText, SplitCtx, TagText, EmptyTag, TagName, OpenTag, CloseTag;
      ghost var kid, c1 := SplitParts(g, c, x, name, value, iPos, p, q);
      SplitRoot(g, c, x, name, value, iPos, p, q, n);
      Adjust(iPos, n, false, c1, kid);
      SplitDone(g, c, x, name, value, iPos, p, q, aPos);
    }

    lemma SplitPosIs(g: seq<ElemPos>, c: Ctx, x: Forest, name: string, value: string, slot: nat, p: ElemPos, q: ElemPos)
      requires x.EmptyElem? && |x.start| >= 2 && RepAt(g, c, x) && Unused(slot, c, x) && slot < |g| && x.slot < |g| && x.slot != slot
      requires p == g[x.slot].(child := slot, startR := g[x.slot].startR - 1, endL := g[x.slot].endL - (|TagName(x.start)| + 1))
      requires q == NewPos(g[x.slot].startR + 2, name, value, x.slot, 0)
      ensures SplitPos(g, c, x, name, value, slot, p, q)
    {
    }

    lemma SplitParts(g: seq<ElemPos>, c: Ctx, x: Forest, name: string, value: string, slot: nat, p: ElemPos, q: ElemPos)
      returns (kid: Forest, c1: Ctx)
      requires SplitPos(g, c, x, name, value, slot, p, q)
      ensures kid == NewElem(slot, CRLF, name, value, End(CRLF))
      ensures c1 == SplitCtx(c, x, OpenTag(x.start), CloseTag(TagName(x.start)))
      ensures SplitReady(g, c, x, OpenTag(x.start), kid, CloseTag(TagName(x.start)), p, q)
      ensures !kid.End? && kid.slot == slot && Good(g[slot := q][x.slot := p], StartWalk(kid, c1, false))
    {
      hide Order, Plug, Text, Pre, Represents, Tagged, Apply, Work, Good, WellFormed, Stands, NewPos, NewElem, ToDoc, TagName, Linked, LinkedCtx, PlacedCtx, DistinctAt;
      kid := NewElem(slot, CRLF, name, value, End(CRLF));
      c1 := SplitCtx(c, x, OpenTag(x.start), CloseTag(TagName(x.start)));
      PreWidth(c1);
      NewStands(c1, kid, name, value, q);
      LinkedRest(g, x, ParentOf(c, 0));
      SplitGood(g, c, x, OpenTag(x.start), kid, CloseTag(TagName(x.start)), p, q);
    }

    lemma SplitRoot(g: seq<ElemPos>, c: Ctx, x: Forest, name: string, value: string, slot: nat, p: ElemPos, q: ElemPos, n: int)
      requires SplitPos(g, c, x, name, value, slot, p, q)
      ensures var kid, c1 := NewElem(slot, CRLF, name, value, End(CRLF)), SplitCtx(c, x, OpenTag(x.start), CloseTag(TagName(x.start)));
        0 < |g| && Apply(g[slot := q][x.slot := p], Work(kid, c1, false), n)[0].startR == g[0].startR
    {
      hide Order, Plug, Text, Pre, Represents, Apply, Work, NewPos, NewElem, ToDoc, TagName, Linked, LinkedCtx, PlacedCtx, Placed;
      var kid := NewElem(slot, CRLF, name, value, End(CRLF));
      LinkedRest(g, x, ParentOf(c, 0));
      DistinctSplit(c, x, OpenTag(x.start), kid, CloseTag(TagName(x.start)));
      LinkedRoot(g, c, x);
      var a1 := g[slot := q][x.slot := p];
      assert a1[0] == g[0];
      WorkRoot(a1, kid, SplitCtx(c, x, OpenTag(x.start), CloseTag(TagName(x.start))), false, n);
    }

    lemma SplitDone(g: seq<ElemPos>, c: Ctx, x: Forest, name: string, value: string, slot: nat, p: ElemPos, q: ElemPos, b: seq<ElemPos>)
      requires SplitPos(g, c, x, name, value, slot, p, q) && TagText(x.start) && EmptyTag(x.start)
      requires var kid, c1 := NewElem(slot, CRLF, name, value, End(CRLF)), SplitCtx(c, x, OpenTag(x.start), CloseTag(TagName(x.start)));
        var a1 := g[slot := q][x.slot := p];
        b == Apply(a1, Work(kid, c1, false), |NewText(name, value)| + |TagName(x.start)| + 6) && SameLinks(b, a1)
      ensures RepAt(b, c, SplitElem(x, slot, name, value))
    {
      hide Order, Plug, Text, Pre, Represents, Tagged, Apply, Work, Good, WellFormed, Stands, NewPos, NewElem, NewText, ToDoc, TagName, Linked, LinkedCtx, PlacedCtx, DistinctAt;
      var kid, c1 := SplitParts(g, c, x, name, value, slot, p, q);
      KidText(slot, name, value);
      SplitText(c, x, Text(Plug(c, x)), slot, name, value);
      ElemSplit(g, c, x, OpenTag(x.start), kid, CloseTag(TagName(x.start)), p, q, b);
    }

    /** IsWellFormed. */
    function IsWellFormed(): bool
      reads this`aPos
    {
      |aPos| > 0 && aPos[0].child != 0
    }

    /** What x_AddElem asks of its callers beside a plain name. */
    ghost predicate Addable(bInsert: bool, bAddChild: bool)
      reads this
    {
      var parent := if bAddChild then iPos else iPosParent;
      && (SplitsParent(parent) ==> Splittable(Focus(forest, parent).focus.start))
      && (bInsert && !bAddChild && iPosParent == 0 && !IsWellFormed() ==> doc != "")
    }

    /** x_AddElem from the place on. */
    method AddAt(iPosParent: nat, iPosRel: nat, bInsert: bool, szName: string, szValue: string) returns (iPos: nat)
      requires Indexed() && CanPlace(iPosParent, iPosRel, bInsert) && PlainName(szName)
      requires SplitsParent(iPosParent) ==> Splittable(Focus(forest, iPosParent).focus.start)
      modifies this`doc, this`aPos, this`iPosFree, this`forest
      ensures Indexed() && iPos == old(iPosFree) && iPosFree == iPos + 1
      ensures forest == Added(old(forest), iPos, iPosParent, iPosRel, bInsert, szName, szValue)
      ensures !(iPosParent == 0 && bInsert) ==> KeepsForm(old(forest), forest)
      ensures KeptParents(old(aPos), aPos, iPos, iPosParent)
      ensures forall s :: s in Order(forest) <==> s == iPos || s in Order(old(forest))
    {
      hide *;
      PlaceParent(iPosParent, iPosRel, bInsert);
      ghost var slot := iPosFree;
      ghost var split := SplitsParent(iPosParent);
      ghost var z, k := PlaceReady(iPosParent, iPosRel, bInsert, slot, szName, szValue);
      var nOffset, iPosBefore := LocateNew(iPosParent, iPosRel, bInsert);
      var bEmptyParent := aPos[iPosParent].IsEmptyElement();
      if bEmptyParent {
        nOffset := nOffset + 2;
        iPos := AddToEmpty(iPosParent, nOffset, szName, szValue);
      } else {
        iPos := AddAmong(iPosParent, iPosBefore, nOffset, szName, szValue, z, k);
      }
    }

    /** What is known of the place before anything is changed. */
    lemma PlaceReady(parent: nat, rel: nat, insert: bool, slot: nat, name: string, value: string) returns (z: Zipper, k: nat)
      requires Indexed() && CanPlace(parent, rel, insert) && PlainName(name)
      requires SplitsParent(parent) ==> Splittable(Focus(forest, parent).focus.start)
      ensures SplitsParent(parent) ==>
        && parent in Order(forest) && parent < |aPos| && aPos[parent].startR >= 0 && Focus(forest, parent).focus.EmptyElem?
        && z == Focus(forest, parent) && |z.focus.start| >= 2
        && Added(forest, slot, parent, rel, insert, name, value) == Plug(z.ctx, SplitElem(z.focus, slot, name, value))
        && forall s :: s in Order(Plug(z.ctx, SplitElem(z.focus, slot, name, value))) <==> s == slot || s in Order(forest)
      ensures !SplitsParent(parent) ==>
        && z == Place(forest, parent, rel, insert) && k == NewGap(z, LookFrom(z, parent, rel, insert))
        && k <= |z.focus.gap| && forest == Plug(z.ctx, z.focus) && parent == ParentOf(z.ctx, 0)
        && (parent == 0 ==> z.ctx.Top? && z.focus.End?)
        && (Strict(z.ctx, false) ==> GapSplits(z.focus.gap, k))
        && Added(forest, slot, parent, rel, insert, name, value) == Plug(z.ctx, Inserted(z.focus, k, slot, name, value))
        && (!(parent == 0 && insert) ==> KeepsForm(forest, Plug(z.ctx, Inserted(z.focus, k, slot, name, value))))
        && forall s :: s in Order(Plug(z.ctx, Inserted(z.focus, k, slot, name, value))) <==> s == slot || s in Order(forest)
    {
      hide Order, Plug, Text, Pre, Post, RepAt, Focus, Tagged, TaggedCtx, Represents, WellFormed, Place, SkipTo, EmptyAt, FullAt, Splittable, PlainName, Inserted, SplitElem, NewGap, LookFrom, GapSplits, Strict, TagText;
      k := 0;
      if SplitsParent(parent) {
        AtElement(parent);
        ElementForm(parent);
        z := Focus(forest, parent);
        TagSize(z.focus.start);
        SplitOrder(z.ctx, z.focus, slot, name, value);
      } else {
        PlaceSkips(parent, rel, insert);
        AtPlace(parent, rel, insert);
        z := Place(forest, parent, rel, insert);
        k := NewGap(z, LookFrom(z, parent, rel, insert));
        PlaceOffset(parent, rel, insert);
        if parent == 0 { RootOffset(insert); }
        InsertedOrder(z.ctx, z.focus, k, slot, name, value);
        PlaceForm(z, parent, rel, insert, slot, name, value);
      }
    }

    lemma PlaceForm(z: Zipper, parent: nat, rel: nat, insert: bool, slot: nat, name: string, value: string)
      requires WellFormed(Plug(z.ctx, z.focus), false) && Tagged(Plug(z.ctx, z.focus)) && PlainName(name)
      requires Tagged(z.focus) && TaggedCtx(z.ctx) && ParentOf(z.ctx, 0) == parent && (parent == 0 ==> rel == 0 && z.ctx.Top?)
      requires z.ctx.Top? ==> z.focus.End?
      requires LookFrom(z, parent, rel, insert) <= |z.focus.gap|
      requires NewGap(z, LookFrom(z, parent, rel, insert)) <= |z.focus.gap|
      ensures var k := NewGap(z, LookFrom(z, parent, rel, insert));
        && (Strict(z.ctx, false) ==> GapSplits(z.focus.gap, k))
        && (!(parent == 0 && insert) ==> KeepsForm(Plug(z.ctx, z.focus), Plug(z.ctx, Inserted(z.focus, k, slot, name, value))))
    {
      hide Plug, Text, Post, Tagged, TaggedCtx, WellFormed, PlainName, Inserted, NewGap, LookFrom, GapSplits;
      var k := NewGap(z, LookFrom(z, parent, rel, insert));
      PlugGap(z.ctx, z.focus, Inserted(z.focus, k, slot, name, value));
      forall strict | WellFormed(Plug(z.ctx, z.focus), strict) && !(parent == 0 && insert)
        ensures Strict(z.ctx, strict) ==> GapSplits(z.focus.gap, k)
        ensures WellFormed(Plug(z.ctx, Inserted(z.focus, k, slot, name, value)), strict)
      {
        PlugWellFormed(z.ctx, z.focus, strict);
        AddedKeeps(z.ctx, z.focus, k, slot, name, value, strict);
        if Strict(z.ctx, strict) {
          RegapForm(z.focus, z.focus.gap, true);
          PlaceSplits(z, parent, rel, insert);
        }
      }
    }

    /** x_AddElem where the document has no root yet: locate after any version and DTD. */
    method StartRoot()
      requires Valid() && iPosParent == 0 && !IsWellFormed()
      modifies this`aPos
      ensures Valid() && forest.End? && iPos == 0 && 0 < |aPos| && aPos[0].endL == |doc| && aPos[0].child == 0
    {
      hide Text, Tagged, WellFormed;
      aPos := aPos[0 := aPos[0].(endL := |doc|)];
    }

    /** x_AddElem: AddElem, InsertElem, AddChildElem and InsertChildElem. */
    method AddElem(szName: string, szValue: string, bInsert: bool, bAddChild: bool) returns (ok: bool)
      requires Valid() && PlainName(szName) && Addable(bInsert, bAddChild)
      modifies this
      ensures Valid()
      ensures !(bInsert && !bAddChild && old(iPosParent) == 0) ==> KeepsForm(old(forest), forest)
      ensures ok <==> if bAddChild then old(iPos) != 0 else old(iPosParent) != 0 || old(forest).End?
      ensures var parent, rel := if bAddChild then old(iPos) else old(iPosParent), if bAddChild then old(iPosChild) else old(iPos);
        ok ==>
          && forest == Added(old(forest), old(iPosFree), parent, rel, bInsert, szName, szValue)
          && iPosFree == old(iPosFree) + 1 && iPosParent == old(iPosParent)
          && iPos == (if bAddChild then old(iPos) else old(iPosFree))
          && iPosChild == (if bAddChild then old(iPosFree) else 0)
      ensures !ok ==> doc == old(doc) && aPos == old(aPos) && forest == old(forest)
    {
      hide Order, Focus, Indexed, Added, PosIn, PosUnder, CanPlace, SplitsParent, Splittable, KeepsForm, PlainName, KeptParents;
      ok := false;
      if bAddChild {
        if iPos == 0 {
          KeepsSame(forest);
          return;
        }
      } else if iPosParent == 0 {
        RootShape();
        if IsWellFormed() {
          KeepsSame(forest);
          return;
        }
        StartRoot();
      }
      var parent, rel := if bAddChild then iPos else iPosParent, if bAddChild then iPosChild else iPos;
      Placeable(bInsert, bAddChild);
      AddHere(parent, rel, bInsert, bAddChild, szName, szValue);
      ok := true;
    }

    /** x_AddElem at the place and the new current position. */
    method AddHere(iPosParent0: nat, iPosRel: nat, bInsert: bool, bAddChild: bool, szName: string, szValue: string)
      requires Valid() && CanPlace(iPosParent0, iPosRel, bInsert) && PlainName(szName) && iPosFree !in Order(forest)
      requires SplitsParent(iPosParent0) ==> Splittable(Focus(forest, iPosParent0).focus.start)
      requires iPosParent0 == (if bAddChild then iPos else iPosParent) && (bAddChild ==> iPos != 0)
      modifies this
      ensures Valid() && (!(iPosParent0 == 0 && bInsert) ==> KeepsForm(old(forest), forest))
      ensures forest == Added(old(forest), old(iPosFree), iPosParent0, iPosRel, bInsert, szName, szValue)
      ensures iPosFree == old(iPosFree) + 1 && iPosParent == old(iPosParent)
      ensures iPos == (if bAddChild then old(iPos) else old(iPosFree))
      ensures iPosChild == (if bAddChild then old(iPosFree) else 0)
    {
      hide Order, Focus, Added, CanPlace, SplitsParent, Splittable, KeepsForm, PlainName, KeptParents, Represents, Text, Tagged, WellFormed;
      var i := AddAt(iPosParent0, iPosRel, bInsert, szName, szValue);
      NewPositions(old(aPos), old(forest), i, iPosParent0);
      if bAddChild {
        SetPos(iPosParent, iPosParent0, i);
      } else {
        SetPos(iPosParent0, i, 0);
      }
    }

    lemma KeepsSame(f: Forest)
      ensures KeepsForm(f, f)
    {
    }

    lemma RootShape()
      requires Valid() && iPosParent == 0
      ensures IsWellFormed() <==> !forest.End?
    {
      hide Text, Tagged, WellFormed, Placed;
    }

    lemma Placeable(bInsert: bool, bAddChild: bool)
      requires Valid() && Addable(bInsert, bAddChild) && (bAddChild ==> iPos != 0)
      requires !bAddChild && iPosParent == 0 ==> forest.End? && iPos == 0 && 0 < |aPos| && aPos[0].endL == |doc| && aPos[0].child == 0
      ensures iPosFree !in Order(forest)
      ensures var parent, rel := if bAddChild then iPos else iPosParent, if bAddChild then iPosChild else iPos;
        && CanPlace(parent, rel, bInsert) && (SplitsParent(parent) ==> Splittable(Focus(forest, parent).focus.start))
        && (bAddChild ==> parent != 0)
    {
      hide Order, Text, Tagged, WellFormed, Represents, Splittable, Focus;
    }

    /** The current position and the new element, after it was added. */
    lemma NewPositions(a: seq<ElemPos>, f: Forest, i: nat, parent: nat)
      requires iPosParent == 0 || iPosParent in Order(f)
      requires iPos == 0 || (iPos in Order(f) && iPos < |a| && a[iPos].parent == iPosParent)
      requires i != 0 && i !in Order(f) && KeptParents(a, aPos, i, parent)
      requires forall s :: s in Order(forest) <==> s == i || s in Order(f)
      ensures PosIn(iPosParent) && PosUnder(iPos, iPosParent) && PosUnder(i, parent) && PosUnder(0, i)
    {
      hide Order;
    }

    // ---- Parsing

    /** x_ReleasePos. */
    method ReleasePos() returns (r: int)
      requires 0 < iPosFree
      modifies this`iPosFree
      ensures iPosFree == old(iPosFree) - 1 && r == 0
    {
      iPosFree := iPosFree - 1;
      r := 0;
    }

    /** x_ParseError. */
    method ParseError(fault: Fault) returns (r: int)
      requires 0 < iPosFree
      modifies this`iPosFree, this`error
      ensures iPosFree == old(iPosFree) - 1 && error == Some(fault) && r == -1
    {
      error := Some(fault);
      var n := ReleasePos();
      r := -1;
    }

    /** The part of x_ParseElem that determines what the '<' at `nStartL` begins. */
    method ClassifyTag(nStartL: nat) returns (step: Step, strName: string, nNext: nat)
      requires nStartL < |doc| && doc[nStartL] == '<'
      ensures step == TagStep(doc[nStartL..])
      ensures step.Again? ==> nNext == nStartL + step.next && nNext <= |doc|
      ensures step.Open? ==> strName == TagName(doc[nStartL..]) && nNext <= |doc|
      ensures step.Open? ==> nStartL + StartEnd(doc[nStartL..]) == nNext + FirstOf(doc[nNext..], {'>'})
    {
      hide FindToken, ParseNode, TagStep, TagName, StartEnd, FirstOf;
      TagAt(doc, nStartL);
      strName, nNext := "", nStartL + 1;
      var token := ScanToken(doc, nNext);
      if !token.found {
        return Fail(0, AbruptEnd), strName, nNext;
      }
      if token.isString {
        return Fail(0, TagStartsWithQuote), strName, nNext;
      }
      var cFirstChar := doc[token.l];
      if cFirstChar == '?' || cFirstChar == '!' {
        var ok, kind, next := ScanNode(doc, nStartL);
        if !ok {
          return Fail(0, InvalidNode), strName, nNext;
        }
        return Again(next - nStartL), strName, next;
      } else if cFirstChar != '/' {
        StartAt(doc, nStartL);
        return Open(0), GetToken(doc, token), token.next;
      }
      step := Close(0);
    }

    /** The loop of x_ParseElem over ignored tags.  `found` is 1 at a start tag, whose name
        is `strName` and which goes on at `nNext`; otherwise it is what x_ParseElem
        returns. */
    method FindStart(iPos: nat, iPosParent: nat) returns (found: int, strName: string, nNext: nat)
      requires iPos < |aPos| && iPosParent < |aPos| && iPos != iPosParent && 0 < iPosFree
      requires 0 <= aPos[iPosParent].endL <= |doc| && !GetsStuck(doc[aPos[iPosParent].endL..])
      modifies this`aPos, this`iPosFree, this`error
      ensures Searched(old(aPos), aPos, iPos, iPosParent)
      ensures var pos := old(aPos)[iPosParent].endL;
        var h := Scan(doc[pos..]);
        && (h.Fails? ==> found == -1 && iPosFree == old(iPosFree) - 1 && error == Some(h.fault))
        && (h.Closes? ==> found == 0 && iPosFree == old(iPosFree) - 1 && error == old(error) && aPos[iPosParent].endL == pos + h.at)
        && (h.Opens? ==>
              && found == 1 && iPosFree == old(iPosFree) && error == old(error)
              && aPos[iPosParent].endL == pos + h.at == aPos[iPos].startL
              && pos + h.at < |doc| && strName == TagName(doc[pos + h.at..]) && nNext <= |doc|
              && pos + h.at + StartEnd(doc[pos + h.at..]) == nNext + FirstOf(doc[nNext..], {'>'}))
    {
      hide Scan, TagName, StartEnd, FirstOf, TagStep, Searched, ScanResult.Shift, GetsStuck;
      StuckIsGap(doc[aPos[iPosParent].endL..]);
      SearchStart(aPos, iPos, iPosParent);
      ghost var pos := aPos[iPosParent].endL;
      ghost var goal := Scan(doc[pos..]);
      ShiftNone(goal);
      strName := "";
      nNext := aPos[iPosParent].endL;
      while true
        invariant pos <= nNext <= |doc| && goal == Scan(doc[nNext..]).Shift(nNext - pos) && goal != Stuck
        invariant iPosFree == old(iPosFree) && error == old(error) && Searched(old(aPos), aPos, iPos, iPosParent)
        decreases |doc| - nNext
      {
        SearchRound(doc, pos, nNext, goal);
        SearchOn(old(aPos), aPos, iPos, iPosParent);
        var b, nStartL := FindChar(doc, nNext, '<');
        aPos := aPos[iPos := aPos[iPos].(startL := nStartL)];
        if !b {
          found := ParseError(ElementTagNotFound);
          return;
        }
        aPos := aPos[iPosParent := aPos[iPosParent].(endL := nStartL)];
        var step: Step;
        step, strName, nNext := ClassifyTag(nStartL);
        match step {
          case Fail(_, fault) =>
            found := ParseError(fault);
            return;
          case Open(_) =>
            found := 1;
            return;
          case Close(_) =>
            found := ReleasePos();
            return;
          case Again(_) =>
        }
      }
    }

    lemma ShiftNone(h: ScanResult)
      ensures h.Shift(0) == h
    {
    }

    lemma SearchStart(a: seq<ElemPos>, i: nat, parent: nat)
      requires i < |a| && parent < |a|
      ensures Searched(a, a, i, parent)
    {
    }

    lemma SearchOn(a: seq<ElemPos>, b: seq<ElemPos>, i: nat, parent: nat)
      requires Searched(a, b, i, parent) && i != parent
      ensures i < |a| == |b| && parent < |a|
      ensures forall n :: Searched(a, b[i := b[i].(startL := n)], i, parent)
      ensures forall n, m :: Searched(a, b[i := b[i].(startL := n)][parent := b[parent].(endL := m)], i, parent)
    {
    }

    /** The part of x_ParseElem that looks through the tokens of the end tag. */
    method ParseEndTag(iPos: nat, strName: string) returns (r: int)
      requires iPos < |aPos| && 0 <= aPos[iPos].endL < |doc| && 0 < iPosFree
      modifies this`aPos, this`iPosFree, this`error
      ensures var e := EndTagScan(doc[old(aPos)[iPos].endL + 1..], 0, strName);
        if e.TagEnd? then
          && r == 1 && iPosFree == old(iPosFree) && error == old(error)
          && aPos == old(aPos)[iPos := old(aPos)[iPos].(endR := old(aPos)[iPos].endL + 1 + e.at)]
        else r == -1 && aPos == old(aPos) && iPosFree == old(iPosFree) - 1 && error == Some(e.fault)
    {
      hide EndTagScan, FindToken, Match;
      var nNext := aPos[iPos].endL + 1;
      ghost var from := nNext;
      ghost var goal := EndTagScan(doc[from..], 0, strName);
      var nTokenCount := 0;
      var token: Token;
      while true
        invariant from <= nNext <= |doc| && 0 <= nTokenCount
        invariant aPos == old(aPos) && iPosFree == old(iPosFree) && error == old(error)
        invariant goal == ShiftEnd(EndTagScan(doc[nNext..], nTokenCount, strName), nNext - from)
        decreases |doc| - nNext
      {
        EndTagAt(doc, nNext, nTokenCount, strName);
        token := ScanToken(doc, nNext);
        if !token.found {
          break;
        }
        nTokenCount := nTokenCount + 1;
        if !token.isString {
          if nTokenCount == 1 && doc[token.l] != '/' {
            r := ParseError(ExpectingEndTag(strName));
            return;
          } else if nTokenCount == 2 && !Match(doc[token.l..token.next], strName) {
            r := ParseError(EndTagMismatch(strName));
            return;
          } else if doc[token.l] == '>' {
            break;
          }
        }
        nNext := token.next;
      }
      if token.l == |doc| || nTokenCount < 2 {
        r := ParseError(EndTagNotCompleted(strName));
        return;
      }
      aPos := aPos[iPos := aPos[iPos].(endR := token.l)];
      r := 1;
    }

    /** What one call of x_ParseElem for a child of `parent` does: `a` was the position
        array and `free` the next unused position, `pos` where the search began. */
    ghost predicate Parsed(r: int, a: seq<ElemPos>, parent: nat, free: nat, pos: nat, e: Option<Fault>)
      requires pos <= |doc|
      reads this`doc, this`aPos, this`iPosFree, this`error
    {
      var n := ReadNext(doc[pos..], free);
      && |a| <= |aPos| && iPosFree <= |aPos| && free <= iPosFree && parent < |a|
      && KeptBelow(a, aPos, free, parent)
      && (n.NextBad? ==> r == -1 && error == Some(n.fault))
      && (n.NextClose? ==> r == 0 && iPosFree == free && error == e && aPos[parent].endL == pos + n.at)
      && (n.NextElem? ==>
            && r == free && iPosFree == n.free && error == e && aPos[parent].endL == pos + n.at
            && Linked(aPos, n.x, parent) && Placed(aPos, n.x, pos + n.at))
    }

    /** The loop of x_ParseElem over the children: -1 for an error, or 1. */
    method ParseKids(iPos: nat) returns (r: int)
      requires 0 < iPos < iPosFree == iPos + 1 <= |aPos| && 8 <= |aPos|
      requires aPos[iPos].child == 0 && 0 <= aPos[iPos].startR < |doc|
      requires !EndlessKids(doc[aPos[iPos].startR + 1..])
      modifies this`aPos, this`iPosFree, this`error
      ensures |old(aPos)| <= |aPos| && iPos < iPosFree <= |aPos| && 8 <= |aPos|
      ensures forall s :: 0 <= s < iPos ==> aPos[s] == old(aPos)[s]
      ensures var q := old(aPos)[iPos];
        var k := ReadKids(doc[q.startR + 1..], iPos + 1);
        && (k.Bad? ==> r == -1 && error == Some(k.fault))
        && (k.Read? ==>
              && r == 1 && iPosFree == k.free && error == old(error)
              && Linked(aPos, k.f, iPos) && Placed(aPos, k.f, q.startR + 1)
              && aPos[iPos] == q.(child := First(k.f), endL := q.startR + 1 + k.used))
      decreases |doc| - aPos[iPos].startR - 1, 2
    {
      hide Scan, ReadNext, ReadKids, TagName, Linked, Placed, Text, Order, Slots, Built, Attach, EndTagScan, Then, KeptBelow, Endless, EndlessKids;
      KidsHang(doc[aPos[iPos].startR + 1..], iPos + 1);
      ghost var q := aPos[iPos];
      var iInnerPrev: nat := 0;
      aPos := aPos[iPos := aPos[iPos].(endL := aPos[iPos].startR + 1)];
      ghost var base: nat := aPos[iPos].endL;
      ghost var at: nat := base;
      ghost var done: Forest := End("");
      ghost var goal := ReadKids(doc[base..], iPos + 1);
      BuiltStart(aPos, iPos, base, iPos + 1);
      ContinueStart(goal);
      while true
        invariant |old(aPos)| <= |aPos| && iPos + 1 <= iPosFree <= |aPos| && 8 <= |aPos| && error == old(error)
        invariant forall s :: 0 <= s < iPos ==> aPos[s] == old(aPos)[s]
        invariant base <= at <= |doc| && aPos[iPos] == q.(child := First(done), endL := at)
        invariant goal == Continue(done, at - base, ReadKids(doc[at..], iPosFree)) && goal != Hang
        invariant Built(aPos, done, iPos, base, iPos + 1, iPosFree) && iInnerPrev == Last(Slots(done)) && |Text(done)| == at - base
        invariant if done.End? then iInnerPrev == 0 else iPos < iInnerPrev < iPosFree
        decreases |doc| - at
      {
        ReadKidsNext(doc[at..], iPosFree);
        NextHangs(doc[at..], iPosFree);
        ghost var n, a, free := ReadNext(doc[at..], iPosFree), aPos, iPosFree;
        var iInner := ParseElem(iPos);
        KeptFrom(a, aPos, free, iPos);
        if iInner <= 0 {
          if iInner == -1 {
            return -1;
          }
          BuiltKept(a, aPos, done, iPos, base, iPos + 1, free);
          BuiltEnd(aPos, done, doc[at..][..n.at], iPos, base, iPos + 1, free);
          return 1;
        }
        LinkChild(a, free, at, iPos, iInnerPrev, iInner, done, base);
        ContinueElem(done, at - base, doc[at..], free);
        NextText(doc[at..], free);
        assert doc[at..][n.at + n.used..] == doc[at + n.at + n.used..];
        done := Then(done, Attach(n.x, doc[at..][..n.at], End("")));
        NotEnd(done);
        iInnerPrev := iInner;
        at := at + n.at + n.used;
      }
    }

    /** The part of that loop that links the child in and goes on behind it. */
    method LinkChild(ghost a: seq<ElemPos>, ghost free: nat, ghost at: nat, iPos: nat, iInnerPrev: nat, iInner: nat, ghost done: Forest, ghost base: nat)
      requires at <= |doc| && 0 < iPos < free <= |a| && Built(a, done, iPos, base, iPos + 1, free)
      requires ReadNext(doc[at..], free).NextElem?
      requires var n := ReadNext(doc[at..], free);
        && |a| <= |aPos| && KeptBelow(a, aPos, free, iPos) && iInner == free && n.free <= |aPos| && aPos[iPos].endL == at + n.at
        && Linked(aPos, n.x, iPos) && Placed(aPos, n.x, at + n.at)
      requires iInnerPrev == Last(Slots(done)) && |Text(done)| == at - base && a[iPos].child == First(done)
      requires if done.End? then iInnerPrev == 0 else iPos < iInnerPrev < free
      modifies this`aPos
      ensures |aPos| == |old(aPos)| && forall s :: 0 <= s < iPos ==> aPos[s] == old(aPos)[s]
      ensures var n := ReadNext(doc[at..], free);
        var d := Then(done, Attach(n.x, doc[at..][..n.at], End("")));
        && aPos[iPos] == a[iPos].(child := First(d), endL := at + n.at + n.used)
        && Built(aPos, d, iPos, base, iPos + 1, n.free) && Last(Slots(d)) == iInner && |Text(d)| == at + n.at + n.used - base
    {
      hide ReadNext, Linked, Placed, Text, Order, Slots, Built, Attach, Then, KeptBelow;
      ghost var n := ReadNext(doc[at..], free);
      KeptFrom(a, aPos, free, iPos);
      BuiltKept(a, aPos, done, iPos, base, iPos + 1, free);
      NextText(doc[at..], free);
      ghost var b := aPos;
      if iInnerPrev != 0 {
        aPos := aPos[iInnerPrev := aPos[iInnerPrev].(next := iInner)];
      } else {
        aPos := aPos[iPos := aPos[iPos].(child := iInner)];
      }
      BuiltMore(b, aPos, done, n.x, doc[at..][..n.at], iPos, base, iPos + 1, free, n.free);
      ElemEnds(b, n.x, at + n.at);
      ghost var c := aPos;
      aPos := aPos[iPos := aPos[iPos].(endL := aPos[iInner].endR + 1)];
      BuiltKept(c, aPos, Then(done, Attach(n.x, doc[at..][..n.at], End(""))), iPos, base, iPos + 1, n.free);
    }

    lemma NotEnd(f: Forest)
      ensures f.End? ==> Last(Slots(f)) == 0
    {
    }

    lemma KeptFrom(a: seq<ElemPos>, b: seq<ElemPos>, n: nat, parent: nat)
      requires KeptBelow(a, b, n, parent)
      ensures |a| <= |b| && parent < |a| && b[parent] == a[parent].(endL := b[parent].endL)
      ensures forall s :: 0 <= s < n && s < |a| && s != parent ==> b[s] == a[s]
    {
    }

    /** x_ParseElem: -1 for an error, 0 before an end tag, or the position of the element. */
    method ParseElem(iPosParent: nat) returns (r: int)
      requires iPosParent < iPosFree <= |aPos| && 8 <= |aPos| && 0 <= aPos[iPosParent].endL <= |doc|
      requires !Endless(doc[aPos[iPosParent].endL..])
      modifies this`aPos, this`iPosFree, this`error
      ensures Parsed(r, old(aPos), iPosParent, old(iPosFree), old(aPos)[iPosParent].endL, old(error))
      ensures 8 <= |aPos|
      decreases |doc| - aPos[iPosParent].endL, 1
    {
      hide Scan, ReadNext, ReadElem, TagName, StartEnd, FirstOf, Linked, Placed, KeptBelow, Parsed, Endless, GetsStuck;
      ghost var pos, a, free, e := aPos[iPosParent].endL, aPos, iPosFree, error;
      NoHang(pos, free);
      var iPos, found, strName, nNext := FindChild(iPosParent);
      if found != 1 {
        ParsedStop(found, a, iPosParent, free, pos, e);
        return found;
      }
      ghost var c := aPos;
      r := ParseBody(iPos, strName, nNext);
      StillKept(a, c, aPos, iPos, iPosParent);
      ParsedOpen(r, a, iPosParent, free, pos, e);
    }

    lemma NoHang(pos: nat, free: nat)
      requires pos <= |doc| && !Endless(doc[pos..])
      ensures !GetsStuck(doc[pos..])
      ensures var h := Scan(doc[pos..]);
        && !h.Stuck? && (h.Opens? ==> pos + h.at < |doc| && !ReadElem(doc[pos + h.at..], free).Hang?)
    {
      hide *;
      NextHangs(doc[pos..], free);
      StuckIsGap(doc[pos..]);
      ReadNextCases(doc[pos..], free);
      ScanStops(doc[pos..]);
      var h := Scan(doc[pos..]);
      if h.Opens? { assert doc[pos..][h.at..] == doc[pos + h.at..]; }
    }

    /** The part of x_ParseElem up to the start tag. */
    method FindChild(iPosParent: nat) returns (iPos: nat, found: int, strName: string, nNext: nat)
      requires iPosParent < iPosFree <= |aPos| && 8 <= |aPos|
      requires 0 <= aPos[iPosParent].endL <= |doc| && !GetsStuck(doc[aPos[iPosParent].endL..])
      modifies this`aPos, this`iPosFree, this`error
      ensures iPos == old(iPosFree) < |aPos| && iPosFree <= |aPos| && 8 <= |aPos| && |old(aPos)| <= |aPos|
      ensures KeptBelow(old(aPos), aPos, iPos, iPosParent)
      ensures var pos := old(aPos)[iPosParent].endL;
        var h := Scan(doc[pos..]);
        && (h.Fails? ==> found == -1 && iPosFree == iPos && error == Some(h.fault))
        && (h.Closes? ==> found == 0 && iPosFree == iPos && error == old(error) && aPos[iPosParent].endL == pos + h.at)
        && (h.Opens? ==>
              && found == 1 && iPosFree == iPos + 1 && error == old(error)
              && aPos[iPos].parent == iPosParent && aPos[iPos].child == 0 == aPos[iPos].next
              && aPos[iPosParent].endL == pos + h.at == aPos[iPos].startL
              && pos + h.at < |doc| && strName == TagName(doc[pos + h.at..]) && nNext <= |doc|
              && pos + h.at + StartEnd(doc[pos + h.at..]) == nNext + FirstOf(doc[nNext..], {'>'}))
    {
      hide Scan, TagName, StartEnd, FirstOf, Searched, KeptBelow, GetsStuck;
      StuckIsGap(doc[aPos[iPosParent].endL..]);
      ghost var a := aPos;
      iPos := OpenSlot(iPosParent);
      ghost var b := aPos;
      found, strName, nNext := FindStart(iPos, iPosParent);
      SearchKept(a, b, aPos, iPos, iPosParent);
    }

    /** A search that finds no start tag. */
    lemma ParsedStop(r: int, a: seq<ElemPos>, parent: nat, free: nat, pos: nat, e: Option<Fault>)
      requires pos <= |doc| && iPosFree == free <= |aPos| && parent < |a| && KeptBelow(a, aPos, free, parent)
      requires var h := Scan(doc[pos..]);
        && !h.Opens? && !h.Stuck? && (h.Fails? ==> r == -1 && error == Some(h.fault))
        && (h.Closes? ==> r == 0 && error == e && aPos[parent].endL == pos + h.at)
      ensures Parsed(r, a, parent, free, pos, e)
    {
      hide Scan, ReadNext, ReadElem;
      ReadNextCases(doc[pos..], free);
    }

    /** A search that finds one. */
    lemma ParsedOpen(r: int, a: seq<ElemPos>, parent: nat, free: nat, pos: nat, e: Option<Fault>)
      requires pos <= |doc| && free <= iPosFree <= |aPos| && parent < |a| && KeptBelow(a, aPos, free, parent)
      requires var h := Scan(doc[pos..]);
        && h.Opens? && pos + h.at < |doc| && aPos[parent].endL == pos + h.at
        && var x := ReadElem(doc[pos + h.at..], free);
        && (x.Bad? ==> r == -1 && error == Some(x.fault))
        && (x.Read? ==> r == free && iPosFree == x.free && error == e && Linked(aPos, x.f, parent) && Placed(aPos, x.f, pos + h.at))
      ensures Parsed(r, a, parent, free, pos, e)
    {
      hide Scan, ReadNext, ReadElem, Linked, Placed;
      ReadNextCases(doc[pos..], free);
      var h := Scan(doc[pos..]);
      assert doc[pos..][h.at..] == doc[pos + h.at..];
    }

    /** The first lines of x_ParseElem: a position for the child. */
    method OpenSlot(iPosParent: nat) returns (iPos: nat)
      requires iPosParent < iPosFree <= |aPos| && 8 <= |aPos|
      modifies this`aPos, this`iPosFree
      ensures iPos == old(iPosFree) && iPosFree == iPos + 1 <= |aPos| && 8 <= |old(aPos)| <= |aPos|
      ensures forall s :: 0 <= s < |old(aPos)| && s != iPos ==> aPos[s] == old(aPos)[s]
      ensures aPos[iPos].parent == iPosParent && aPos[iPos].child == 0 == aPos[iPos].next
    {
      ghost var a := aPos;
      iPos := GetFreePos();
      assert forall s :: 0 <= s < |a| ==> aPos[s] == aPos[..|a|][s];
      aPos := aPos[iPos := ElemPos(aPos[iPosParent].endL, aPos[iPos].startR, aPos[iPos].endL, aPos[iPos].endR, iPosParent, 0, 0)];
    }

    lemma StillKept(a: seq<ElemPos>, b: seq<ElemPos>, c: seq<ElemPos>, n: nat, parent: nat)
      requires KeptBelow(a, b, n, parent) && |b| <= |c| && parent < n && forall s :: 0 <= s < n ==> s < |b| && c[s] == b[s]
      ensures KeptBelow(a, c, n, parent)
    {
    }

    /** The part of x_ParseElem from the name of the start tag on. */
    method ParseBody(iPos: nat, strName: string, nNext: nat) returns (r: int)
      requires 0 < iPos < iPosFree == iPos + 1 <= |aPos| && 8 <= |aPos| && nNext <= |doc|
      requires aPos[iPos].child == 0 && aPos[iPos].next == 0 && 0 <= aPos[iPos].startL < |doc|
      requires var t := doc[aPos[iPos].startL..];
        && strName == TagName(t) && !ReadElem(t, iPos).Hang?
        && aPos[iPos].startL + StartEnd(t) == nNext + FirstOf(doc[nNext..], {'>'})
      modifies this`aPos, this`iPosFree, this`error
      ensures |old(aPos)| <= |aPos| && iPos <= iPosFree <= |aPos| && 8 <= |aPos|
      ensures forall s :: 0 <= s < iPos ==> aPos[s] == old(aPos)[s]
      ensures var q := old(aPos)[iPos];
        var x := ReadElem(doc[q.startL..], iPos);
        && (x.Bad? ==> r == -1 && error == Some(x.fault))
        && (x.Read? ==> r == iPos && iPosFree == x.free && error == old(error) && Linked(aPos, x.f, q.parent) && Placed(aPos, x.f, q.startL))
      decreases |doc| - aPos[iPos].startL, 0
    {
      hide ReadElem, ReadKids, TagName, StartEnd, FirstOf, Linked, Placed, Text, EndTagScan, EndlessKids;
      ghost var at := aPos[iPos].startL;
      ghost var t := doc[at..];
      ReadElemAt(doc, at, iPos);
      var ok, nStartR := FindChar(doc, nNext, '>');
      if !ok {
        r := ParseError(EndOfTagNotFound);
        return;
      }
      ghost var start := doc[at..nStartR + 1];
      aPos := aPos[iPos := aPos[iPos].(startR := nStartR)];
      if doc[nStartR - 1] == '/' {
        aPos := aPos[iPos := aPos[iPos].(endL := nStartR - 1, endR := nStartR)];
        EmptyBuilt(aPos, iPos, aPos[iPos].parent, at, start);
        return iPos;
      }
      KidsHang(doc[nStartR + 1..], iPos + 1);
      r := ParseKids(iPos);
      if r == -1 {
        return;
      }
      r := ParseClose(iPos, strName, at, nStartR);
    }

    /** The part of it behind the children: the end tag. */
    method ParseClose(iPos: nat, strName: string, ghost at: nat, ghost n: nat) returns (r: int)
      requires at < |doc| && n == at + StartEnd(doc[at..]) && at < n < |doc| && doc[n - 1] != '/' && strName == TagName(doc[at..])
      requires 0 < iPos < |aPos| && 0 < iPosFree
      requires var k, p := ReadKids(doc[n + 1..], iPos + 1), aPos[iPos];
        && k.Read? && iPosFree == k.free && Linked(aPos, k.f, iPos) && Placed(aPos, k.f, n + 1)
        && p.startL == at && p.startR == n && p.endL == n + 1 + k.used && p.child == First(k.f) && p.next == 0
      modifies this`aPos, this`iPosFree, this`error
      ensures |aPos| == |old(aPos)| && forall s :: 0 <= s < |aPos| && s != iPos ==> aPos[s] == old(aPos)[s]
      ensures iPosFree == if r == -1 then old(iPosFree) - 1 else old(iPosFree)
      ensures var x := ReadElem(doc[at..], iPos);
        && !x.Hang?
        && (x.Bad? ==> r == -1 && error == Some(x.fault))
        && (x.Read? ==>
              && r == iPos && iPosFree == x.free && error == old(error)
              && Linked(aPos, x.f, old(aPos)[iPos].parent) && Placed(aPos, x.f, at))
    {
      hide ReadElem, ReadKids, TagName, StartEnd, FirstOf, Linked, Placed, Text, EndTagScan;
      ghost var k, c := ReadKids(doc[n + 1..], iPos + 1), aPos;
      ReadKidsText(doc[n + 1..], iPos + 1);
      ReadFullAt(doc, at, n, iPos, n + 1 + k.used);
      r := ParseEndTag(iPos, strName);
      if r == -1 {
        return;
      }
      KidsKept(c, aPos, k, doc[n + 1..], iPos, n + 1);
      FullBuilt(aPos, iPos, aPos[iPos].parent, at, doc[at..n + 1], k.f, ReadElem(doc[at..], iPos).f.close);
      r := iPos;
    }

    lemma KidsKept(c: seq<ElemPos>, b: seq<ElemPos>, k: Result, s: string, i: nat, base: int)
      requires k == ReadKids(s, i + 1) && k.Read? && Linked(c, k.f, i) && Placed(c, k.f, base)
      requires |c| <= |b| && forall n :: 0 <= n < |c| && n != i ==> b[n] == c[n]
      ensures Linked(b, k.f, i) && Placed(b, k.f, base)
    {
      hide ReadKids, Linked, Placed;
      ReadKidsOrder(s, i + 1);
      assert forall n :: n in Order(k.f) ==> n > i;
      LinkedFrame(c, b, k.f, i);
      PlacedFrame(c, b, k.f, base);
    }

    lemma SearchKept(a: seq<ElemPos>, b: seq<ElemPos>, c: seq<ElemPos>, i: nat, parent: nat)
      requires |a| <= |b| && i < |b| && parent < i && parent < |a| && Searched(b, c, i, parent)
      requires forall s :: 0 <= s < |a| && s != i ==> b[s] == a[s]
      ensures KeptBelow(a, c, i, parent) && |c| == |b| && c[i] == b[i].(startL := c[i].startL)
    {
    }

    /** SetDoc, on the texts on which it comes to an end: see MarkupParse.DocHangs. */
    method SetDoc(szDoc: string) returns (bWellFormed: bool)
      requires !Endless(szDoc)
      modifies this
      ensures Valid() && doc == szDoc && iPosParent == 0 && iPos == 0
      ensures bWellFormed <==> ReadDoc(szDoc).Read?
      ensures bWellFormed ==> forest == ReadDoc(szDoc).f && iPosFree == ReadDoc(szDoc).free
      ensures !bWellFormed ==> forest == End(szDoc) && iPosFree == 1
    {
      hide ReadDoc, ReadElem, Scan, Indexed, Endless;
      iPosFree := 1;
      SetPos(0, 0, 0);
      doc := szDoc;
      var nStartSize := |doc| / 64 + 8;
      if |aPos| < nStartSize {
        aPos := aPos + seq(nStartSize - |aPos|, k => CLEARED);
      }
      bWellFormed := false;
      if doc != "" {
        bWellFormed := ParseRoot();
      }
      if !bWellFormed {
        ClearRoot();
        if doc == "" { ReadNothing(); }
      }
      SetPos(0, 0, 0);
    }

    /** The part of SetDoc for a text without a root. */
    method ClearRoot()
      requires 8 <= |aPos|
      modifies this`aPos, this`iPosFree, this`forest
      ensures Indexed() && forest == End(doc) && iPosFree == 1
    {
      hide Linked, Placed, Order, Text, Tagged, WellFormed, Represents, Slots;
      aPos := aPos[0 := CLEARED];
      iPosFree := 1;
      forest := End(doc);
      NoRoot(aPos, doc);
    }

    lemma NoRoot(a: seq<ElemPos>, text: string)
      requires 0 < |a| && a[0] == CLEARED
      ensures var f := End(text);
        && Text(f) == text && Tagged(f) && Represents(a, f) && WellFormed(f, false) && Order(f) == [] && |Slots(f)| == 0
    {
    }

    /** The part of SetDoc that parses. */
    method ParseRoot() returns (ok: bool)
      requires doc != "" && iPosFree == 1 && 8 <= |aPos| && !Endless(doc)
      modifies this`aPos, this`iPosFree, this`error, this`forest
      ensures 8 <= |aPos| && (ok <==> ReadDoc(doc).Read?)
      ensures ok ==> Indexed() && forest == ReadDoc(doc).f && iPosFree == ReadDoc(doc).free
    {
      hide ReadDoc, Linked, Placed, Order, Text, Tagged, WellFormed, ReadNext, Represents, Endless;
      NextHangs(doc, 1);
      aPos := aPos[0 := CLEARED];
      assert doc[0..] == doc;
      ReadDocNext(doc);
      var iPos := ParseElem(0);
      ok := false;
      if iPos > 0 {
        RootRead(doc, aPos);
        aPos := aPos[0 := aPos[0].(child := iPos)];
        forest := ReadDoc(doc).f;
        ok := true;
      }
    }

    lemma ReadNothing()
      ensures !ReadDoc("").Read?
    {
    }

    /** CMarkupSTL. */
    constructor ()
      ensures Valid() && doc == "" && forest == End("")
    {
      doc, aPos, error := "", [], None;
      iPosParent, iPos, iPosChild, iPosFree, nodeType := 0, 0, 0, 1, 0;
      forest := End("");
      new;
      SpacelessDoc("");
      var b := SetDoc("");
      ReadNothing();
    }

    /** The index is what re-parsing the document would build, up to slot numbers. */
    lemma IndexIsReparse()
      requires Indexed() && !forest.End? && ValidGap(forest.gap)
      ensures ReadDoc(doc).Read? && Erase(ReadDoc(doc).f) == Erase(forest)
    {
      SlotsOnce(forest); SlotsOnce(forest.rest);
      ReadsDoc(forest);
    }

    // ---- What the index promises

    /** The four offsets of an element point at its delimiters. */
    lemma Delimiters(i: nat)
      requires Indexed() && i in Order(forest)
      ensures i < |aPos|
      ensures var p := aPos[i];
        && 0 <= p.startL < p.startR <= p.endR < |doc|
        && doc[p.startL] == '<' && doc[p.startR] == '>' && doc[p.endR] == '>'
        && (if p.IsEmptyElement() then p.endR == p.startR && doc[p.endL] == '/'
            else p.startR < p.endL < p.endR && doc[p.endL] == '<')
    {
      hide Order, Plug, Text, Pre, Post, RepAt, Focus, Tagged, TaggedCtx, Represents, WellFormed, Tail;
      AtElement(i);
      var z := Focus(forest, i);
      TaggedElem(z.focus);
      ElemText(z.ctx, z.focus);
      var x, at := z.focus, aPos[i].startL;
      var p := Pre(z.ctx) + x.gap;
      if x.FullElem? {
        FullText(p, x, Post(z.ctx));
      } else {
        assert doc == p + x.start + (Tail(x) + Post(z.ctx));
      }
    }

    lemma FullText(p: string, x: Forest, q: string)
      requires x.FullElem?
      ensures p + x.start + (Tail(x) + q) == (p + x.start + Text(x.kids)) + x.close + (Text(x.rest) + q)
    {
      hide Text;
      assert Text(x.kids) + (x.close + Text(x.rest)) + q == Text(x.kids) + x.close + (Text(x.rest) + q);
      assert p + x.start + (Text(x.kids) + x.close + (Text(x.rest) + q)) == (p + x.start + Text(x.kids)) + x.close + (Text(x.rest) + q);
    }

    /** An element lies between the tags of its parent and before its next sibling. */
    lemma Nesting(j: nat)
      requires Indexed() && j in Order(forest)
      ensures j < |aPos|
      ensures var i := aPos[j].parent;
        i != 0 ==> i < |aPos| && aPos[i].startR < aPos[j].startL && aPos[j].endR < aPos[i].endL
      ensures var k := aPos[j].next;
        k != 0 ==> k in Order(forest) && k < |aPos| && aPos[k].parent == aPos[j].parent && aPos[j].endR < aPos[k].startL
    {
      hide Order, Plug, Text, Pre, Focus, Tagged, TaggedCtx, Represents, WellFormed, LinkedCtx, PlacedCtx, DistinctAt, Linked, Placed;
      AtElement(j);
      var z := Focus(forest, j);
      WithinParent(aPos, z.ctx, |Text(z.focus)|, 0);
      ElemParts(z.focus);
      LinkedParts(aPos, z.focus, ParentOf(z.ctx, 0));
      if aPos[j].next != 0 {
        var r := z.focus.rest;
        FirstNot(r);
        LinkedParts(aPos, r, ParentOf(z.ctx, 0));
        PlacedRest(aPos, z.focus, |Pre(z.ctx)|);
        PlacedElem(aPos, r, |Pre(z.ctx)| + |Text(z.focus)| - |Text(r)|);
        NextInOrder(z.ctx, z.focus);
      }
    }

    lemma FirstNot(f: Forest)
      ensures First(f) != 0 ==> !f.End?
    {
    }

    lemma NextInOrder(c: Ctx, x: Forest)
      requires !x.End? && !x.rest.End?
      ensures x.rest.slot in Order(Plug(c, x))
    {
      hide Order, Plug;
      PlugOrder(c, x);
      ElemOrder(x); ElemOrder(x.rest);
      assert x.rest.slot in [x.rest.slot];
    }

    lemma {:induction false} WithinParent(a: seq<ElemPos>, c: Ctx, width: nat, base: int)
      requires PlacedCtx(a, c, width, base)
      ensures var p := ParentOf(c, 0);
        p != 0 ==> p < |a| && a[p].startR < base + |Pre(c)| && base + |Pre(c)| + width <= a[p].endL
    {
      hide Text, Placed, Pre;
      PreWidth(c);
      match c
      case Top =>
      case AfterEmpty(outer, _, gap, start) => WithinParent(a, outer, |gap| + |start| + width, base);
      case AfterFull(outer, _, gap, start, kids, close) => WithinParent(a, outer, |gap| + |start| + |Text(kids)| + |close| + width, base);
      case Inside(_, _, _, _, _, _) =>
    }
  }
}
