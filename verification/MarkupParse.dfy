/** What x_ParseElem makes of a text: the parser of CMarkupSTL as a function from text to
    tree, that what it reads is well formed, and that it reads every well formed document
    as the tree whose text it is. */
module MarkupParse {
  import opened MarkupText
  import opened MarkupGrammar
  import opened MarkupTree
  import opened MarkupAdjust
  import opened MarkupEdits
  import opened MarkupTags
  import opened MarkupAttribs
  import opened MarkupValid
  import opened MarkupPlaces

  /** What was read from the start of a text, and the next unused slot; `Hang`: the loop
      over ignored tags never ends. */
  datatype Result = Read(f: Forest, used: nat, free: nat) | Bad(fault: Fault) | Hang

  /** The offset of the '>' that ends the start tag at the start of `t`. */
  function StartEnd(t: string): (n: nat)
    requires t != ""
    ensures n <= |t| && 0 < n && (n < |t| ==> t[n] == '>')
  {
    var k := FindToken(t[1..]);
    1 + k.next + FirstOf(t[1 + k.next..], {'>'})
  }

  /** x_ParseElem from the '<' of a start tag on. */
  function ReadElem(t: string, free: nat): (r: Result)
    ensures r.Read? ==> 0 < r.used <= |t| && !r.f.End? && r.f.slot == free && r.f.gap == "" && r.f.rest == End("") && free < r.free
    decreases |t|, 0
  {
    if t == "" || StartEnd(t) == |t| then Bad(EndOfTagNotFound)
    else
      var n := StartEnd(t) + 1;
      if EmptyTag(t[..n]) then Read(EmptyElem(free, "", t[..n], End("")), n, free + 1)
      else
        var kids := ReadKids(t[n..], free + 1);
        if !kids.Read? then kids
        else
          var e := EndTagScan(t[n + kids.used + 1..], 0, TagName(t));
          if e.TagFault? then Bad(e.fault)
          else
            var m := n + kids.used;
            Read(FullElem(free, "", t[..n], kids.f, t[m..m + e.at + 2], End("")), m + e.at + 2, kids.free)
  }

  /** The loop of x_ParseElem over the children, up to the next end tag. */
  function ReadKids(s: string, free: nat): (r: Result)
    ensures r.Read? ==> r.used < |s| && free <= r.free
    decreases |s|, 1
  {
    var h := Scan(s);
    if h.Stuck? then Hang
    else if h.Fails? then Bad(h.fault)
    else if h.Closes? then Read(End(s[..h.at]), h.at, free)
    else
      var x := ReadElem(s[h.at..], free);
      if !x.Read? then x
      else
        var rest := ReadKids(s[h.at + x.used..], x.free);
        if !rest.Read? then rest
        else Read(Attach(x.f, s[..h.at], rest.f), h.at + x.used + rest.used, rest.free)
  }

  /** SetDoc: the root element; what follows it is not looked at. */
  function ReadDoc(doc: string): Result {
    var h := Scan(doc);
    if h.Stuck? then Hang
    else if h.Fails? then Bad(h.fault)
    else if h.Closes? then Bad(ElementTagNotFound)
    else
      var x := ReadElem(doc[h.at..], 1);
      if !x.Read? then x
      else Read(Attach(x.f, doc[..h.at], End(doc[h.at + x.used..])), |doc|, x.free)
  }

  /** The element `x` after the text `gap` and before the siblings `rest`. */
  function Attach(x: Forest, gap: string, rest: Forest): (f: Forest)
    requires !x.End?
    ensures !f.End? && f.slot == x.slot && f.gap == gap && f.rest == rest && f.start == x.start && Kids(f) == Kids(x)
  {
    match x
    case EmptyElem(slot, _, start, _) => EmptyElem(slot, gap, start, rest)
    case FullElem(slot, _, start, kids, close, _) => FullElem(slot, gap, start, kids, close, rest)
  }

  lemma ReadElemCases(t: string, free: nat)
    ensures var r := ReadElem(t, free);
      if t == "" || StartEnd(t) == |t| then r == Bad(EndOfTagNotFound)
      else
        var n := StartEnd(t) + 1;
        if EmptyTag(t[..n]) then r == Read(EmptyElem(free, "", t[..n], End("")), n, free + 1)
        else
          var kids := ReadKids(t[n..], free + 1);
          if !kids.Read? then r == kids
          else
            var m := n + kids.used;
            m < |t| &&
            var e := EndTagScan(t[m + 1..], 0, TagName(t));
            if e.TagFault? then r == Bad(e.fault)
            else m + e.at + 2 <= |t| && r == Read(FullElem(free, "", t[..n], kids.f, t[m..m + e.at + 2], End("")), m + e.at + 2, kids.free)
  {
    hide ReadKids, EndTagScan, TagName, StartEnd;
  }

  lemma ReadKidsCases(s: string, free: nat)
    ensures var r, h := ReadKids(s, free), Scan(s);
      if h.Stuck? then r == Hang
      else if h.Fails? then r == Bad(h.fault)
      else if h.Closes? then r == Read(End(s[..h.at]), h.at, free)
      else
        var x := ReadElem(s[h.at..], free);
        if !x.Read? then r == x
        else
          var rest := ReadKids(s[h.at + x.used..], x.free);
          if !rest.Read? then r == rest
          else r == Read(Attach(x.f, s[..h.at], rest.f), h.at + x.used + rest.used, rest.free)
  {
    hide ReadElem, Scan;
  }

  // ---- What was read is the text

  lemma AttachText(x: Forest, gap: string, rest: Forest)
    requires !x.End? && x.gap == "" && x.rest == End("")
    ensures Text(Attach(x, gap, rest)) == gap + Text(x) + Text(rest)
  {
    assert Text(End("")) == "";
    if x.EmptyElem? {
      assert Text(x) == "" + x.start + "";
      assert Text(x) == x.start;
    } else {
      assert Text(x) == "" + x.start + Text(x.kids) + (x.close + "");
      assert Text(x) == x.start + Text(x.kids) + x.close;
      assert gap + x.start + Text(x.kids) + (x.close + Text(rest)) == gap + (x.start + Text(x.kids) + x.close) + Text(rest);
    }
  }

  lemma {:induction false} ReadElemText(t: string, free: nat)
    requires ReadElem(t, free).Read?
    ensures var r := ReadElem(t, free); Text(r.f) == t[..r.used]
    decreases |t|, 0
  {
    hide *;
    ReadElemCases(t, free);
    var n := StartEnd(t) + 1;
    if EmptyTag(t[..n]) {
      AloneText(free, t[..n], End(""), "");
    } else {
      ReadKidsText(t[n..], free + 1);
      var kids := ReadKids(t[n..], free + 1);
      var m := kids.used;
      var e := EndTagScan(t[n + m + 1..], 0, TagName(t)).at;
      AloneText(free, t[..n], kids.f, t[n + m..n + m + (e + 2)]);
      Pieces(t, n, m, e + 2);
    }
  }

  lemma AloneText(slot: nat, start: string, kids: Forest, close: string)
    ensures Text(EmptyElem(slot, "", start, End(""))) == start
    ensures Text(FullElem(slot, "", start, kids, close, End(""))) == start + Text(kids) + close
  {
    assert "" + start + "" == start;
    assert "" + start + Text(kids) + (close + "") == start + Text(kids) + close;
  }

  lemma Pieces(t: string, n: nat, m: nat, e: nat)
    requires n + m + e <= |t|
    ensures t[..n] + t[n..][..m] + t[n + m..n + m + e] == t[..n + m + e]
  {
    assert t[n..][..m] == t[n..n + m];
    assert t[..n + m + e] == t[..n] + t[n..n + m] + t[n + m..n + m + e];
  }

  lemma {:induction false} ReadKidsText(s: string, free: nat)
    requires ReadKids(s, free).Read?
    ensures var r := ReadKids(s, free); Text(r.f) == s[..r.used]
    decreases |s|, 1
  {
    hide ReadElem, ReadKids, Scan, Attach;
    ReadKidsCases(s, free);
    var h := Scan(s);
    if h.Opens? {
      var at := h.at;
      var x := ReadElem(s[at..], free);
      ReadElemText(s[at..], free);
      ReadKidsText(s[at + x.used..], x.free);
      var k := ReadKids(s[at + x.used..], x.free);
      AttachText(x.f, s[..at], k.f);
      SlicesJoin(s, at, x.used, k.used);
    }
  }

  lemma SlicesJoin(s: string, at: nat, m: nat, n: nat)
    requires at + m + n <= |s|
    ensures s[..at] + s[at..][..m] + s[at + m..][..n] == s[..at + m + n]
  {
    assert s[at..][..m] == s[at..at + m];
    assert s[at + m..][..n] == s[at + m..at + m + n];
  }

  lemma ReadDocText(doc: string)
    requires ReadDoc(doc).Read?
    ensures Text(ReadDoc(doc).f) == doc && !ReadDoc(doc).f.End? && ReadDoc(doc).f.rest.End?
  {
    hide ReadElem, Scan, Attach;
    var at := Scan(doc).at;
    ReadElemText(doc[at..], 1);
    var x := ReadElem(doc[at..], 1);
    AttachText(x.f, doc[..at], End(doc[at + x.used..]));
    assert doc[at..][..x.used] == doc[at..at + x.used];
  }

  // ---- Slots are numbered in document order

  function Range(from: nat, to: nat): (o: seq<nat>)
    requires from <= to
    ensures |o| == to - from && forall i :: 0 <= i < |o| ==> o[i] == from + i
  {
    seq(to - from, i requires 0 <= i => from + i)
  }

  lemma RangeJoin(a: nat, b: nat, c: nat)
    requires a <= b <= c
    ensures Range(a, b) + Range(b, c) == Range(a, c)
  {
  }

  lemma RangeFirst(a: nat, b: nat)
    requires a < b
    ensures [a] + Range(a + 1, b) == Range(a, b)
  {
  }

  lemma AttachOrder(x: Forest, gap: string, rest: Forest)
    requires !x.End? && x.rest == End("")
    ensures Order(Attach(x, gap, rest)) == Order(x) + Order(rest)
  {
    assert Order(End("")) == [];
  }

  lemma {:induction false} ReadElemOrder(t: string, free: nat)
    requires ReadElem(t, free).Read?
    ensures var r := ReadElem(t, free); Order(r.f) == Range(free, r.free)
    decreases |t|, 0
  {
    hide ReadElem, ReadKids, EndTagScan, StartEnd, TagName, EmptyTag;
    ReadElemCases(t, free);
    var n := StartEnd(t) + 1;
    var r := ReadElem(t, free);
    assert Order(End("")) == [];
    if EmptyTag(t[..n]) {
      assert Order(r.f) == [free];
    } else {
      ReadKidsOrder(t[n..], free + 1);
      RangeFirst(free, r.free);
      assert Order(r.f) == [free] + Order(r.f.kids) + [];
    }
  }

  lemma {:induction false} ReadKidsOrder(s: string, free: nat)
    requires ReadKids(s, free).Read?
    ensures var r := ReadKids(s, free); Order(r.f) == Range(free, r.free)
    decreases |s|, 1
  {
    hide ReadElem, ReadKids, Scan, Attach;
    ReadKidsCases(s, free);
    var h := Scan(s);
    if h.Opens? {
      var x := ReadElem(s[h.at..], free);
      ReadElemOrder(s[h.at..], free);
      ReadKidsOrder(s[h.at + x.used..], x.free);
      var k := ReadKids(s[h.at + x.used..], x.free);
      AttachOrder(x.f, s[..h.at], k.f);
      RangeJoin(free, x.free, k.free);
    }
  }

  lemma ReadDocOrder(doc: string)
    requires ReadDoc(doc).Read?
    ensures Order(ReadDoc(doc).f) == Range(1, ReadDoc(doc).free)
  {
    hide ReadElem, Scan, Attach;
    var at := Scan(doc).at;
    var x := ReadElem(doc[at..], 1);
    ReadElemOrder(doc[at..], 1);
    AttachOrder(x.f, doc[..at], End(doc[at + x.used..]));
    assert Order(End(doc[at + x.used..])) == [];
  }

  // ---- Less text: a piece reads the same when the text ends behind it

  lemma StringClosed(u: string)
    requires FindToken(u).isString && FindToken(u).next < |u|
    ensures FindToken(u).next == FindToken(u).r + 2
  {
    hide FirstOf, FirstNotOf;
  }

  lemma TokenShrinks(u: string, n: nat)
    requires var t := FindToken(u);
      t.found && t.next <= n <= |u| && (t.next < n || (!t.isString && u[t.l] in SPECIALS))
    ensures FindToken(u[..n]) == FindToken(u)
  {
    hide FindToken;
    var t := FindToken(u);
    assert u[..n][..t.next] == u[..t.next];
    if t.isString {
      StringClosed(u);
    } else if u[t.l] !in SPECIALS {
      NameEnds(u);
    }
    TokenKept(u, u[..n]);
  }

  lemma {:induction false} DocTypeShrinks(u: string, brackets: int, n: nat)
    requires DocTypeEnd(u, brackets).Some? && DocTypeEnd(u, brackets).value <= n <= |u|
    ensures DocTypeEnd(u[..n], brackets) == DocTypeEnd(u, brackets)
    decreases |u|
  {
    hide FindToken, DocTypeEnd;
    DocTypeCases(u, brackets);
    DocTypeCases(u[..n], brackets);
    var t := FindToken(u);
    TokenShrinks(u, n);
    if !t.isString { assert u[..n][t.l] == u[t.l]; }
    if t.isString || brackets != 0 || u[t.l] != '>' {
      var b := if t.isString then brackets
               else if u[t.l] == '[' then brackets + 1
               else if u[t.l] == ']' then brackets - 1 else brackets;
      assert u[..n][t.next..] == u[t.next..][..n - t.next];
      DocTypeShrinks(u[t.next..], b, n - t.next);
    }
  }

  lemma FindStrShrinks(s: string, pat: string, n: nat)
    requires FindStr(s, pat) >= 0 && FindStr(s, pat) + |pat| <= n <= |s|
    ensures FindStr(s[..n], pat) == FindStr(s, pat)
  {
    hide FindStr, OccursAt;
    var k := FindStr(s, pat);
    assert s == s[..n] + s[n..];
    assert OccursAt(s, pat, k);
    OccursExtends(s[..n], s[n..], pat, k);
    forall i: nat | i < k
      ensures !OccursAt(s[..n], pat, i)
    {
      OccursExtends(s[..n], s[n..], pat, i);
    }
    FindStrIs(s[..n], pat, k);
  }

  lemma NodeShrinks(m: string, n: nat)
    requires m != "" && m[0] == '<' && ParseNode(m).Some? && ParseNode(m).value.kind != ElementNode
    requires ParseNode(m).value.next <= n <= |m|
    ensures ParseNode(m[..n]) == ParseNode(m)
  {
    hide FindToken, FirstOf, FirstNotOf, FindStr, DocTypeEnd;
    NodeStarts(m);
    NodeWidth(m);
    if m[1] == '?' {
      FindStrShrinks(m, "?>", n);
    } else if m[2] == '[' {
      FindStrShrinks(m, "]]>", n);
    } else if m[2] == '-' {
      FindStrShrinks(m, "-->", n);
    } else {
      DocTypeShrinks(m, 0, n);
    }
  }

  lemma NodeWidth(m: string)
    requires m != "" && m[0] == '<' && ParseNode(m).Some? && ParseNode(m).value.kind != ElementNode
    ensures ParseNode(m).value.next >= 3
  {
    hide FindToken, FirstOf, FirstNotOf, FindStr, DocTypeEnd;
    NodeStarts(m);
    if m[1] == '?' {
      var k := FindStr(m, "?>");
      assert m[k..k + 2] == "?>";
      assert m[k] == m[k..k + 2][0];
    } else if m[2] != '[' && m[2] != '-' {
      FindTokenSpecial(m);
      DocTypeCases(m, 0);
      assert m[1..][0] == m[1];
      FindTokenSpecial(m[1..]);
      DocTypeCases(m[1..], 0);
    }
  }

  lemma {:induction false} EndTagShrinks(s: string, count: nat, name: string, n: nat)
    requires EndTagScan(s, count, name).TagEnd? && EndTagScan(s, count, name).at < n <= |s|
    ensures EndTagScan(s[..n], count, name) == EndTagScan(s, count, name)
    decreases |s|
  {
    hide FindToken, Match, EndTagScan;
    EndTagCases(s, count, name);
    EndTagCases(s[..n], count, name);
    var t := FindToken(s);
    TokenShrinks(s, n);
    if !t.isString {
      assert s[..n][t.l] == s[t.l];
      assert s[..n][t.l..t.next] == s[t.l..t.next];
    }
    if t.isString || s[t.l] != '>' {
      assert s[..n][t.next..] == s[t.next..][..n - t.next];
      EndTagShrinks(s[t.next..], count + 1, name, n - t.next);
    }
  }

  lemma EndTagCases(s: string, count: nat, name: string)
    ensures var t, e := FindToken(s), EndTagScan(s, count, name);
      var r := EndTagScan(s[t.next..], count + 1, name);
      if !t.found then e == TagFault(EndTagNotCompleted(name))
      else if !t.isString && count == 0 && s[t.l] != '/' then e == TagFault(ExpectingEndTag(name))
      else if !t.isString && count == 1 && !Match(s[t.l..t.next], name) then e == TagFault(EndTagMismatch(name))
      else if !t.isString && s[t.l] == '>' then e == TagEnd(t.l) && t.next == t.l + 1
      else e == (if r.TagEnd? then TagEnd(t.next + r.at) else r)
  {
    hide FindToken, Match;
    SpecialWidth(s);
  }

  // ---- What was read is well formed

  /** The search for a tag has passed over a gap. */
  lemma {:induction false} ScanGap(s: string)
    requires Scan(s).Opens? || Scan(s).Closes?
    ensures ValidGap(s[..Scan(s).at])
    decreases |s|
  {
    hide FindToken, FirstOf, ParseNode, ValidGap, Scan, TagStep;
    ScanOnce(s);
    var j, at := FirstOf(s, {'<'}), Scan(s).at;
    var g := s[..at];
    if HeadStep(s).Again? {
      var n := HeadStep(s).next;
      ScanGap(s[n..]);
      ScanStops(s[n..]);
      NodeBetween(s);
      var m := s[j..];
      assert g[j..] == m[..at - j];
      NodeShrinks(m, at - j);
      FirstOfIs(g, {'<'}, j);
      assert g[n..] == s[n..][..at - n];
      GapUnfold(g);
    } else {
      HeadAt(s);
      FirstOfIs(g, {'<'}, at);
      GapUnfold(g);
    }
  }

  lemma ScanOnce(s: string)
    ensures var h := HeadStep(s);
      Scan(s) ==
        (if h.Fail? then Fails(h.at, h.fault)
         else if h.Open? then Opens(h.at)
         else if h.Close? then Closes(h.at)
         else if h.next == 0 then Stuck
         else Scan(s[h.next..]).Shift(h.next))
  {
    hide HeadStep;
  }

  lemma HeadAt(s: string)
    requires HeadStep(s).Open? || HeadStep(s).Close?
    ensures HeadStep(s).at == FirstOf(s, {'<'})
  {
    hide TagStep;
  }

  lemma NodeBetween(s: string)
    requires HeadStep(s).Again? && HeadStep(s).next > 0 && !Scan(s).Stuck?
    ensures var j := FirstOf(s, {'<'});
      && j < |s| && s[j] == '<' && s[j..][0] == '<'
      && ParseNode(s[j..]).Some? && ParseNode(s[j..]).value.kind != ElementNode
      && HeadStep(s).next == j + ParseNode(s[j..]).value.next
  {
    hide FirstOf, Scan, ParseNode, TagStep, HeadStep;
    var j := FirstOf(s, {'<'});
    HeadIs(s);
    var m := s[j..];
    TagAgain(m);
    if ParseNode(m).value.kind == ElementNode {
      ElementStays(m);
      StuckAt(s, j);
    }
  }

  lemma HeadIs(s: string)
    requires HeadStep(s).Again?
    ensures var j := FirstOf(s, {'<'});
      j < |s| && s[j] == '<' && s[j..][0] == '<' && HeadStep(s) == TagStep(s[j..]).Shift(j)
  {
    hide TagStep;
  }

  lemma TagAgain(m: string)
    requires m != "" && m[0] == '<' && TagStep(m).Again?
    ensures ParseNode(m).Some? && TagStep(m) == Again(ParseNode(m).value.next)
  {
    hide FindToken, ParseNode;
  }

  lemma ElementStays(m: string)
    requires m != "" && m[0] == '<' && ParseNode(m).Some? && ParseNode(m).value.kind == ElementNode
    ensures ParseNode(m).value.next == 0
  {
    hide FindStr, DocTypeEnd;
  }

  lemma StuckAt(s: string, j: nat)
    requires j < |s| && HeadStep(s) == Again(j) && FirstOf(s, {'<'}) == j
    ensures Scan(s) == Stuck
  {
    hide FindToken, FirstOf, Scan, TagStep;
    HeadStepAfterPlain(s, j, s[j..]);
    ScanOnce(s);
    ScanOnce(s[j..]);
  }

  /** The start tag read is a start tag by itself. */
  lemma StartRead(t: string)
    requires t != "" && t[0] == '<' && TagStep(t) == Open(0) && StartEnd(t) < |t|
    ensures var start := t[..StartEnd(t) + 1]; ValidStart(start) && TagName(start) == TagName(t)
  {
    hide FindToken, FirstOf, ParseNode;
    var n := StartEnd(t) + 1;
    var u, v := t[1..], t[..n][1..];
    assert v == u[..n - 1];
    var k := FindToken(u);
    TokenShrinks(u, n - 1);
    assert v[k.l] == u[k.l] && v[k.l..k.next] == u[k.l..k.next];
    var w := t[1 + k.next..];
    assert t[..n][1 + k.next..] == w[..n - 1 - k.next];
    FirstOfIs(w[..n - 1 - k.next], {'>'}, FirstOf(w, {'>'}));
  }

  lemma CloseRead(c: string, name: string)
    requires c != "" && c[0] == '<' && TagStep(c) == Close(0) && EndTagScan(c[1..], 0, name).TagEnd?
    ensures var e := EndTagScan(c[1..], 0, name).at; e + 2 <= |c| && ValidClose(c[..e + 2], name)
  {
    hide FindToken, EndTagScan, ParseNode;
    var e := EndTagScan(c[1..], 0, name).at;
    var u := c[1..];
    assert c[..e + 2][1..] == u[..e + 1];
    EndTagShrinks(u, 0, name, e + 1);
    var k := FindToken(u);
    EndTagFirst(u, name);
    TokenShrinks(u, e + 1);
    assert u[..e + 1][k.l] == u[k.l];
  }

  /** The first token of an end tag comes before its end. */
  lemma EndTagFirst(u: string, name: string)
    requires EndTagScan(u, 0, name).TagEnd? && FindToken(u).found && !FindToken(u).isString && u[FindToken(u).l] == '/'
    ensures FindToken(u).next <= EndTagScan(u, 0, name).at
  {
    hide FindToken, EndTagScan;
    EndTagCases(u, 0, name);
  }

  lemma AttachForm(x: Forest, gap: string, rest: Forest, strict: bool)
    requires !x.End? && x.gap == "" && x.rest == End("") && WellFormed(x, true) && WellFormed(rest, strict) && ValidGap(gap)
    ensures WellFormed(Attach(x, gap, rest), strict)
  {
    hide ValidGap, ValidStart, ValidClose, TagName, EmptyTag;
  }

  lemma {:induction false} ReadElemForm(t: string, free: nat)
    requires t != "" && t[0] == '<' && TagStep(t) == Open(0) && ReadElem(t, free).Read?
    ensures WellFormed(ReadElem(t, free).f, true)
    decreases |t|, 0
  {
    hide *;
    ReadElemCases(t, free);
    StartRead(t);
    var n := StartEnd(t) + 1;
    if EmptyTag(t[..n]) {
      AloneForm(free, t[..n], End(""), "");
    } else {
      ReadKidsForm(t[n..], free + 1);
      var kids := ReadKids(t[n..], free + 1);
      var m := n + kids.used;
      var c := t[m..];
      assert t[n..][kids.used..] == c;
      assert c[1..] == t[m + 1..];
      CloseRead(c, TagName(t));
      var e := EndTagScan(t[m + 1..], 0, TagName(t)).at;
      SliceOfRest(t, m, 0, e + 2);
      AloneForm(free, t[..n], kids.f, t[m..m + e + 2]);
    }
  }

  lemma AloneForm(slot: nat, start: string, kids: Forest, close: string)
    requires ValidStart(start)
    ensures EmptyTag(start) ==> WellFormed(EmptyElem(slot, "", start, End("")), true)
    ensures !EmptyTag(start) && WellFormed(kids, true) && ValidClose(close, TagName(start)) ==>
      WellFormed(FullElem(slot, "", start, kids, close, End("")), true)
  {
    hide ValidStart, ValidClose, TagName, EmptyTag;
    EmptyGap();
  }

  lemma EmptyGap()
    ensures ValidGap("")
  {
  }

  lemma {:induction false} ReadKidsForm(s: string, free: nat)
    requires ReadKids(s, free).Read?
    ensures var r := ReadKids(s, free);
      && WellFormed(r.f, true)
      && s[r.used..] != "" && s[r.used..][0] == '<' && TagStep(s[r.used..]) == Close(0)
    decreases |s|, 1
  {
    hide ReadElem, ReadKids, Scan, Attach, TagStep, ValidStart, ValidClose, ValidGap, WellFormed;
    ReadKidsCases(s, free);
    ScanStops(s);
    ScanGap(s);
    var h := Scan(s);
    if h.Opens? {
      var x := ReadElem(s[h.at..], free);
      ReadElemForm(s[h.at..], free);
      var u := s[h.at + x.used..];
      ReadKidsForm(u, x.free);
      var k := ReadKids(u, x.free);
      AttachForm(x.f, s[..h.at], k.f, true);
      assert u[k.used..] == s[h.at + x.used + k.used..];
    } else {
      assert WellFormed(End(s[..h.at]), true) by { GapForm(s[..h.at]); }
    }
  }

  lemma GapForm(g: string)
    requires ValidGap(g)
    ensures WellFormed(End(g), true)
  {
  }

  /** A document that was read is well formed; its text behind the root may be anything. */
  lemma ReadDocForm(doc: string)
    requires ReadDoc(doc).Read?
    ensures var f := ReadDoc(doc).f;
      && RootForm(f) && (WellFormed(f, true) <==> ValidGap(f.rest.gap))
  {
    hide ReadElem, Scan, Attach, TagStep, ValidStart, ValidClose, ValidGap, WellFormed;
    ScanStops(doc);
    ScanGap(doc);
    var h := Scan(doc);
    var x := ReadElem(doc[h.at..], 1);
    ReadElemForm(doc[h.at..], 1);
    var tail := doc[h.at + x.used..];
    EndForms(tail);
    AttachForm(x.f, doc[..h.at], End(tail), false);
    if ValidGap(tail) {
      AttachForm(x.f, doc[..h.at], End(tail), true);
    }
    RootRest(Attach(x.f, doc[..h.at], End(tail)));
  }

  lemma EndForms(g: string)
    ensures WellFormed(End(g), false) && (WellFormed(End(g), true) <==> ValidGap(g))
  {
  }

  lemma RootRest(f: Forest)
    requires !f.End? && f.rest.End?
    ensures WellFormed(f, true) ==> ValidGap(f.rest.gap)
  {
    hide ValidGap, WellFormed;
    if WellFormed(f, true) { FormParts(f); }
    EndForms(f.rest.gap);
  }

  lemma {:induction false} FormTagged(f: Forest, strict: bool)
    requires WellFormed(f, strict)
    ensures Tagged(f)
  {
    hide ValidGap, ValidStart, ValidClose, EmptyTag, TagText;
    match f
    case End(_) =>
    case EmptyElem(_, _, start, rest) =>
      StartTagged(start);
      FormTagged(rest, strict);
    case FullElem(_, _, start, kids, close, rest) =>
      StartTagged(start);
      CloseTagged(close, TagName(start));
      FormTagged(kids, true);
      FormTagged(rest, strict);
  }

  lemma StartTagged(t: string)
    requires ValidStart(t)
    ensures TagText(t)
  {
    hide FindToken, FirstOf;
    StartFacts(t);
  }

  lemma CloseTagged(c: string, name: string)
    requires ValidClose(c, name)
    ensures TagText(c)
  {
    hide TagStep;
    assert c[1..][|c| - 2] == c[|c| - 1];
  }

  // ---- Every well formed document is read as the tree it is the text of

  lemma ScanAtOpen(s: string)
    requires s != "" && s[0] == '<' && TagStep(s) == Open(0)
    ensures HeadStep(s) == Open(0) && Scan(s) == Opens(0)
  {
    hide TagStep, FirstOf;
    FirstOfIs(s, {'<'}, 0);
    assert s[0..] == s;
    HeadStepAfterPlain(s, 0, s);
  }

  /** A start tag in front of other text. */
  lemma StartReads(t: string, y: string)
    requires ValidStart(t)
    ensures TagStep(t + y) == Open(0) && StartEnd(t + y) == |t| - 1 && (t + y)[..|t|] == t && (t + y)[|t|..] == y
    ensures TagName(t + y) == TagName(t)
  {
    hide FindToken, FirstOf, ParseNode;
    StartExtends(t, y);
    var k := FindToken(t[1..]);
    assert (t + y)[1..] == t[1..] + y;
    assert (t[1..] + y)[k.l..k.next] == t[1..][k.l..k.next];
  }

  /** A gap and a start tag: the search finds the tag. */
  lemma GapOpens(gap: string, t: string, y: string)
    requires ValidGap(gap) && ValidStart(t)
    ensures var s := gap + (t + y);
      Scan(s) == Opens(|gap|) && s[..|gap|] == gap && s[|gap|..] == t + y
  {
    hide TagStep, FindToken, FirstOf, Scan, HeadStep, ValidGap, StartEnd, TagName;
    StartReads(t, y);
    assert (t + y)[0] == t[0];
    ScanAtOpen(t + y);
    ScanPassesGap(gap, t + y);
  }

  lemma {:induction false} ReadsKids(f: Forest, close: string, name: string, y: string, free: nat)
    requires WellFormed(f, true) && ValidClose(close, name)
    ensures var r := ReadKids(Text(f) + (close + y), free);
      r.Read? && r.used == |Text(f)| && Erase(r.f) == Erase(f)
    decreases f
  {
    hide ReadElem, ReadKids, Scan, Text, ValidGap, ValidStart, ValidClose, TagName, EmptyTag, Erase, Attach, OwnText, PastStart;
    var z := close + y;
    var s := Text(f) + z;
    ReadKidsCases(s, free);
    if f.End? {
      ReadsEnd(f.gap, close, name, y);
      TextOf(f);
      EraseEnd(f.gap);
      assert s[..|f.gap|] == f.gap;
    } else {
      var w := Text(f.rest) + z;
      TextSplit(f, z);
      GapOpens(f.gap, f.start, PastStart(f) + w);
      ReadsElem(f, w, free);
      var x := ReadElem(OwnText(f) + w, free);
      Dropped(f.gap, OwnText(f), w);
      ReadsKids(f.rest, close, name, y, x.free);
      EraseAttach(x.f, f, ReadKids(w, x.free).f);
    }
  }

  lemma Dropped(p: string, q: string, w: string)
    ensures (p + (q + w))[|p| + |q|..] == w
  {
    assert p + (q + w) == (p + q) + w;
  }

  /** The text of an element without its gap and siblings. */
  function OwnText(f: Forest): string
    requires !f.End?
  {
    f.start + PastStart(f)
  }

  function PastStart(f: Forest): string {
    if f.FullElem? then Text(f.kids) + f.close else ""
  }

  lemma TextOf(f: Forest)
    ensures f.End? ==> Text(f) == f.gap
    ensures !f.End? ==> Text(f) == f.gap + OwnText(f) + Text(f.rest)
  {
    if f.FullElem? {
      assert f.gap + f.start + Text(f.kids) + (f.close + Text(f.rest)) == f.gap + (f.start + (Text(f.kids) + f.close)) + Text(f.rest);
    } else if f.EmptyElem? {
      assert f.start + "" == f.start;
    }
  }

  lemma TextSplit(f: Forest, z: string)
    requires !f.End?
    ensures Text(f) + z == f.gap + (f.start + (PastStart(f) + (Text(f.rest) + z)))
    ensures f.start + (PastStart(f) + (Text(f.rest) + z)) == OwnText(f) + (Text(f.rest) + z)
    ensures |Text(f)| == |f.gap| + |OwnText(f)| + |Text(f.rest)|
  {
    hide Text, PastStart;
    TextOf(f);
    var b, w := PastStart(f), Text(f.rest);
    assert (f.gap + (f.start + b) + w) + z == f.gap + (f.start + (b + (w + z)));
  }

  lemma ReadsEnd(g: string, close: string, name: string, y: string)
    requires ValidGap(g) && ValidClose(close, name)
    ensures Scan(g + (close + y)) == Closes(|g|)
  {
    hide Scan, HeadStep, ValidGap, TagStep, EndTagScan;
    CloseStopsScan(close, y, name);
    assert (close + y)[0] == close[0];
    ScanPassesGap(g, close + y);
  }

  lemma {:induction false} ReadsElem(f: Forest, w: string, free: nat)
    requires !f.End? && WellFormed(f, true)
    ensures var r := ReadElem(OwnText(f) + w, free);
      && r.Read? && r.used == |OwnText(f)|
      && Erase(r.f) == Erase(Attach(f, "", End("")))
    decreases f, 0
  {
    hide ReadElem, ReadKids, Scan, Text, ValidGap, ValidStart, ValidClose, TagName, EmptyTag, StartEnd, EndTagScan, TagStep;
    FormParts(f);
    var y := PastStart(f) + w;
    assert OwnText(f) + w == f.start + y;
    var t := f.start + y;
    StartReads(f.start, y);
    ReadElemCases(t, free);
    if f.FullElem? {
      ReadsKids(f.kids, f.close, TagName(f.start), w, free + 1);
      CloseExtends(f.close, w, TagName(f.start));
      CloseSize(f.close, TagName(f.start));
      FullPieces(f.start, Text(f.kids), f.close, w);
      assert y == Text(f.kids) + f.close + w;
      EraseFull(f, ReadElem(t, free).f);
    } else {
      EraseEmpty(f, ReadElem(t, free).f);
    }
  }

  lemma FullPieces(start: string, k: string, close: string, w: string)
    requires close != ""
    ensures var t, m := start + (k + close + w), |start| + |k|;
      && t[|start|..] == k + (close + w) && t[m..] == close + w && t[m + 1..] == (close + w)[1..]
      && t[m..m + |close|] == close
  {
    var t, m := start + (k + close + w), |start| + |k|;
    assert t == (start + k) + (close + w);
    assert t[m + 1..] == t[m..][1..];
    assert t[m..m + |close|] == t[m..][..|close|];
  }

  lemma CloseSize(c: string, name: string)
    requires ValidClose(c, name)
    ensures |c| >= 2
  {
  }

  lemma FormParts(f: Forest)
    requires !f.End? && WellFormed(f, true)
    ensures ValidGap(f.gap) && ValidStart(f.start) && (EmptyTag(f.start) <==> f.EmptyElem?) && f.start != ""
    ensures f.FullElem? ==> WellFormed(f.kids, true) && ValidClose(f.close, TagName(f.start))
    ensures WellFormed(f.rest, true)
  {
    hide ValidGap, ValidClose, TagName, FindToken;
  }

  lemma EraseEnd(g: string)
    ensures Erase(End(g)) == End(g)
  {
  }

  lemma EraseFull(f: Forest, x: Forest)
    requires f.FullElem? && x.FullElem? && x.gap == "" && x.start == f.start && x.close == f.close && x.rest == End("")
    requires Erase(x.kids) == Erase(f.kids)
    ensures Erase(x) == Erase(Attach(f, "", End("")))
  {
  }

  lemma EraseEmpty(f: Forest, x: Forest)
    requires f.EmptyElem? && x.EmptyElem? && x.gap == "" && x.start == f.start && x.rest == End("")
    ensures Erase(x) == Erase(Attach(f, "", End("")))
  {
  }

  lemma EraseAttach(x: Forest, f: Forest, rest: Forest)
    requires !f.End? && !x.End? && Erase(x) == Erase(Attach(f, "", End(""))) && Erase(rest) == Erase(f.rest)
    ensures Erase(Attach(x, f.gap, rest)) == Erase(f)
  {
  }

  /** The root by itself. */
  lemma Root(f: Forest)
    requires RootForm(f)
    ensures var g := Attach(f, f.gap, End(""));
      && WellFormed(g, true) && g.gap == f.gap && g.start == f.start
      && OwnText(g) == OwnText(f) && PastStart(g) == PastStart(f) && Attach(g, "", End("")) == Attach(f, "", End(""))
  {
    hide ValidGap, ValidStart, ValidClose, TagName, EmptyTag, Text;
    EmptyGap();
  }

  /** Parsing the text of a document with a well formed root gives that document, up to the
      numbers of the slots, whatever is behind the root. */
  lemma ReadsDoc(f: Forest)
    requires RootForm(f)
    ensures ReadDoc(Text(f)).Read? && Erase(ReadDoc(Text(f)).f) == Erase(f)
  {
    hide ReadElem, ReadKids, Scan, Text, ValidGap, ValidStart, ValidClose, TagName, EmptyTag, StartEnd, TagStep, WellFormed;
    Root(f);
    var g := Attach(f, f.gap, End(""));
    FormParts(g);
    TextOf(f.rest);
    TextSplit(f, "");
    var w := Text(f.rest) + "";
    assert Text(f) + "" == Text(f) && w == f.rest.gap;
    GapOpens(f.gap, f.start, PastStart(f) + w);
    ReadsElem(g, w, 1);
    var x := ReadElem(OwnText(f) + w, 1);
    assert Text(f)[|f.gap| + x.used..] == w by { assert Text(f) == (f.gap + OwnText(f)) + w; }
    EraseAttach(x.f, f, End(w));
  }

  // ---- Where the parser loops for ever

  /** A '<', white space and a '?' or '!': x_FindToken sees a node to ignore, but to
      x_ParseNode it is an element, and the search goes on where it was. */
  predicate SpacedNode(s: string) {
    |s| >= 3 && s[0] == '<' && s[1] in SPACES
    && var k := FirstNotOf(s[1..], SPACES); 1 + k < |s| && s[1 + k] in {'?', '!'}
  }

  /** A round of the search ends where it began exactly at such a place. */
  lemma RoundStays(s: string)
    ensures HeadStep(s) == Again(0) <==> SpacedNode(s)
  {
    hide FirstOf;
    if SpacedNode(s) {
      FirstOfIs(s, {'<'}, 0);
      assert s[0..] == s;
      SpacedToken(s);
      assert s[1] != '?' && s[1] != '!' && s[1] != '/';
    } else if HeadStep(s) == Again(0) {
      HeadIs(s);
      assert s[0..] == s;
      TagAgain(s);
      NotSpaced(s);
    }
  }

  lemma SpacedToken(s: string)
    requires SpacedNode(s)
    ensures var t := FindToken(s[1..]); t.found && !t.isString && s[1..][t.l] in {'?', '!'}
    ensures ParseNode(s) == Some(Node(ElementNode, 0))
  {
    hide FirstOf, FirstNotOf, FindStr, DocTypeEnd;
    assert forall k :: 0 <= k < |s| - 1 ==> s[1..][k] == s[1 + k];
  }

  lemma NotSpaced(s: string)
    requires s != "" && s[0] == '<' && TagStep(s).Again? && !SpacedNode(s)
    ensures TagStep(s) != Again(0)
  {
    hide FirstOf, FirstNotOf, FindStr, DocTypeEnd, ParseNode;
    TagAgain(s);
    var k := FirstNotOf(s[1..], SPACES);
    assert forall i :: 0 <= i < |s| - 1 ==> s[1..][i] == s[1 + i];
    if ParseNode(s).value.kind == ElementNode {
      ElementTag(s);
    } else {
      NodeStarts(s);
    }
  }

  lemma ElementTag(s: string)
    requires s != "" && s[0] == '<' && ParseNode(s).Some? && ParseNode(s).value.kind == ElementNode
    ensures |s| >= 3 && s[1] !in {'?', '!', '/'}
  {
    hide FindStr, DocTypeEnd, FindToken, FirstOf;
  }

  /** Where the search for a start tag is after `n` rounds, while it goes on. */
  function After(s: string, n: nat): Option<nat> {
    if n == 0 then Some(0)
    else match HeadStep(s)
      case Again(next) =>
        (match After(s[next..], n - 1)
         case None => None
         case Some(k) => Some(next + k))
      case Open(_) => None
      case Close(_) => None
      case Fail(_, _) => None
  }

  lemma AfterCases(s: string, n: nat)
    requires n > 0
    ensures var h := HeadStep(s);
      After(s, n).Some? <==> h.Again? && After(s[h.next..], n - 1).Some?
  {
    hide HeadStep;
  }

  lemma {:induction false} StuckRounds(s: string, n: nat)
    requires Scan(s) == Stuck
    ensures After(s, n).Some?
    decreases n
  {
    hide HeadStep, Scan, After;
    ScanOnce(s);
    if n == 0 {
      AfterNone(s);
    } else {
      AfterCases(s, n);
      var k := HeadStep(s).next;
      if k == 0 { assert s[0..] == s; }
      StuckRounds(s[k..], n - 1);
    }
  }

  lemma AfterNone(s: string)
    ensures After(s, 0) == Some(0)
  {
  }

  lemma {:induction false} ScanEnds(s: string)
    requires Scan(s) != Stuck
    ensures After(s, |s| + 1) == None
    decreases |s|
  {
    hide HeadStep, Scan, After;
    ScanOnce(s);
    AfterCases(s, |s| + 1);
    if HeadStep(s).Again? {
      var t := s[HeadStep(s).next..];
      ScanEnds(t);
      AfterFewer(t, |t| + 1, |s|);
    }
  }

  lemma {:induction false} AfterFewer(s: string, m: nat, n: nat)
    requires m <= n && After(s, m) == None
    ensures After(s, n) == None
    decreases m
  {
    hide HeadStep, After;
    if m == 0 {
      AfterNone(s);
    } else {
      AfterCases(s, m);
      AfterCases(s, n);
      if HeadStep(s).Again? { AfterFewer(s[HeadStep(s).next..], m - 1, n - 1); }
    }
  }

  // ---- The texts that are never done with

  /** The search comes to such a place: before it there is only what the search passes over. */
  predicate StuckAfter(s: string, n: nat) {
    n <= |s| && ValidGap(s[..n]) && SpacedNode(s[n..])
  }

  ghost predicate GetsStuck(s: string) { exists n :: StuckAfter(s, n) }

  lemma SpacedStart(x: string)
    requires SpacedNode(x)
    ensures x != "" && x[0] == '<' && HeadStep(x) == Again(0) && TagStep(x) == Again(0) && Scan(x) == Stuck
  {
    hide HeadStep, TagStep, FirstOf;
    RoundStays(x);
    ScanOnce(x);
    FirstOfIs(x, {'<'}, 0);
    assert x[0..] == x;
    HeadStepAfterPlain(x, 0, x);
    NoShift(x);
  }

  lemma NoShift(x: string)
    requires x != "" && x[0] == '<' && HeadStep(x) == Again(0) && HeadStep(x) == TagStep(x).Shift(0)
    ensures TagStep(x) == Again(0)
  {
    hide HeadStep, TagStep;
  }

  lemma {:induction false} GapThenStuck(g: string, x: string)
    requires ValidGap(g) && SpacedNode(x)
    ensures Scan(g + x) == Stuck
    decreases |g|
  {
    hide HeadStep, FirstOf, ParseNode, ValidGap, Scan, TagStep, SpacedNode;
    SpacedStart(x);
    var j, s := FirstOf(g, {'<'}), g + x;
    if j == |g| {
      FirstOfAppend(g, x, {'<'});
      FirstOfIs(x, {'<'}, 0);
      GapUnfold(g);
      assert s[j..] == x;
      HeadStepAfterPlain(s, j, x);
      StuckAt(s, j);
    } else {
      var m := g[j..];
      GapStartsWithNode(g);
      FirstOfExtends(g, x, {'<'});
      TagStepPassesNode(m, x);
      assert s[j..] == m + x;
      HeadStepAfterPlain(s, j, m + x);
      var n := ParseNode(m).value.next;
      assert s[j + n..] == m[n..] + x;
      ScanAgain(s, j + n);
      GapThenStuck(m[n..], x);
    }
  }

  lemma {:induction false} StuckPlace(s: string) returns (n: nat)
    requires Scan(s) == Stuck
    ensures StuckAfter(s, n)
    decreases |s|
  {
    hide FindToken, FirstOf, ParseNode, ValidGap, Scan, TagStep, HeadStep, SpacedNode;
    ScanOnce(s);
    HeadIs(s);
    var j, k := FirstOf(s, {'<'}), HeadStep(s).next;
    var m := s[j..];
    TagAgain(m);
    if ParseNode(m).value.kind == ElementNode {
      ElementStays(m);
      n := j;
      PlainBefore(s, j);
      HeadStepAfterPlain(s, j, m);
      RoundStays(m);
    } else {
      NodeStarts(m);
      var i := StuckPlace(s[k..]);
      n := k + i;
      var g := s[..n];
      assert g[j..] == m[..n - j];
      NodeShrinks(m, n - j);
      FirstOfCut(s, j, n);
      assert g[k..] == s[k..][..i];
      GapUnfold(g);
      assert s[n..] == s[k..][i..];
    }
  }

  lemma PlainBefore(s: string, j: nat)
    requires j == FirstOf(s, {'<'}) && j <= |s|
    ensures ValidGap(s[..j])
  {
    hide ValidGap;
    FirstOfIs(s[..j], {'<'}, j);
    GapUnfold(s[..j]);
  }

  lemma FirstOfCut(s: string, j: nat, n: nat)
    requires j == FirstOf(s, {'<'}) && j < n <= |s|
    ensures FirstOf(s[..n], {'<'}) == j
  {
    FirstOfIs(s[..n], {'<'}, j);
  }

  /** The search goes on for ever exactly when such a place comes behind a gap. */
  lemma StuckIsGap(s: string)
    ensures Scan(s) == Stuck <==> GetsStuck(s)
  {
    hide Scan, StuckAfter;
    if Scan(s) == Stuck {
      var n := StuckPlace(s);
    }
    if GetsStuck(s) {
      var n :| StuckAfter(s, n);
      StuckFrom(s, n);
    }
  }

  /** The rounds of the search never come to an end exactly when it comes to such a place behind
      text that it passes over. */
  lemma SearchIsEndless(s: string)
    ensures (forall n :: After(s, n).Some?) <==> GetsStuck(s)
  {
    hide After, Scan, GetsStuck;
    StuckIsGap(s);
    if Scan(s) == Stuck {
      forall n
        ensures After(s, n).Some?
      {
        StuckRounds(s, n);
      }
    } else {
      ScanEnds(s);
    }
  }

  lemma StuckFrom(s: string, n: nat)
    requires StuckAfter(s, n)
    ensures Scan(s) == Stuck
  {
    hide Scan, ValidGap, SpacedNode;
    GapThenStuck(s[..n], s[n..]);
    assert s[..n] + s[n..] == s;
  }

  /** How a text goes on to a place inside elements that are not closed before it: siblings and a
      gap, then the start tag of the element that it is in, and so on. */
  datatype Way = Here(elders: Forest) | Under(elders: Forest, start: string, inner: Way)

  function WayText(w: Way): string {
    match w
    case Here(elders) => Text(elders)
    case Under(elders, start, inner) => Text(elders) + (start + WayText(inner))
  }

  /** Every piece on the way is one that the parser reads as such. */
  predicate ValidWay(w: Way) {
    WellFormed(w.elders, true)
    && (w.Under? ==> ValidStart(w.start) && !EmptyTag(w.start) && ValidWay(w.inner))
  }

  /** The way leads to a place at which the search stays. */
  predicate LeadsTo(w: Way, s: string) {
    ValidWay(w) && |WayText(w)| <= |s| && s[..|WayText(w)|] == WayText(w) && SpacedNode(s[|WayText(w)|..])
  }

  /** Such a place comes in the text of the children of an element. */
  ghost predicate EndlessKids(s: string) { exists w :: LeadsTo(w, s) }

  /** Such a place comes before the root element, or in it before its end. */
  ghost predicate Endless(s: string) { exists w: Way :: w.elders.End? && LeadsTo(w, s) }

  function WithElder(x: Forest, gap: string, w: Way): Way
    requires !x.End?
  {
    if w.Here? then Here(Attach(x, gap, w.elders)) else Under(Attach(x, gap, w.elders), w.start, w.inner)
  }

  lemma ElderWay(s: string, at: nat, used: nat, x: Forest, w: Way)
    requires at + used <= |s| && LeadsTo(w, s[at + used..]) && ValidGap(s[..at])
    requires !x.End? && x.gap == "" && x.rest == End("") && WellFormed(x, true) && Text(x) == s[at..][..used]
    ensures LeadsTo(WithElder(x, s[..at], w), s)
  {
    hide ValidGap, SpacedNode, WellFormed, Text, ValidStart, EmptyTag, Attach;
    AttachForm(x, s[..at], w.elders, true);
    AttachText(x, s[..at], w.elders);
    var k := |WayText(w)|;
    var u := s[at + used..];
    assert s[at..][..used] == s[at..at + used];
    var v := WithElder(x, s[..at], w);
    WayElders(w);
    WayElders(v);
    assert WayText(v) == s[..at] + s[at..at + used] + u[..k];
    assert s[..at + used + k] == s[..at] + s[at..at + used] + u[..k];
    assert s[at + used + k..] == u[k..];
  }

  /** The text behind the first siblings. */
  function WayRest(w: Way): string { if w.Under? then w.start + WayText(w.inner) else "" }

  lemma WayElders(w: Way)
    ensures WayText(w) == Text(w.elders) + WayRest(w)
  {
    hide Text;
    if w.Here? { assert Text(w.elders) + "" == Text(w.elders); }
  }

  lemma UnderWay(s: string, at: nat, n: nat, w: Way)
    requires at + n <= |s| && ValidGap(s[..at]) && ValidStart(s[at..][..n]) && !EmptyTag(s[at..][..n]) && LeadsTo(w, s[at..][n..])
    ensures LeadsTo(Under(End(s[..at]), s[at..][..n], w), s)
  {
    hide ValidGap, SpacedNode, ValidStart, EmptyTag, WayText;
    GapForm(s[..at]);
    var k, u := |WayText(w)|, s[at..][n..];
    var v := Under(End(s[..at]), s[at..][..n], w);
    UnderText(s[..at], s[at..][..n], w);
    assert s[at..][..n] == s[at..at + n] && u == s[at + n..];
    assert s[..at + n + k] == s[..at] + (s[at..at + n] + u[..k]);
    assert s[at + n + k..] == u[k..];
  }

  lemma UnderText(gap: string, start: string, w: Way)
    ensures WayText(Under(End(gap), start, w)) == gap + (start + WayText(w))
    ensures WayText(Here(End(gap))) == gap
  {
  }

  lemma {:induction false} KidsWay(s: string, free: nat) returns (w: Way)
    requires ReadKids(s, free) == Hang
    ensures LeadsTo(w, s)
    decreases |s|, 1
  {
    hide ReadElem, ReadKids, Scan, Attach, LeadsTo, TagStep, ValidGap, StuckAfter, WithElder, WellFormed, Text;
    ReadKidsCases(s, free);
    var h := Scan(s);
    if h.Stuck? {
      var n := StuckPlace(s);
      HereWay(s, n);
      w := Here(End(s[..n]));
    } else {
      ScanStops(s);
      ScanGap(s);
      var x := ReadElem(s[h.at..], free);
      if x.Hang? {
        w := ElemWay(s, h.at, free);
      } else {
        var u := s[h.at + x.used..];
        var v := KidsWay(u, x.free);
        ReadElemForm(s[h.at..], free);
        ReadElemText(s[h.at..], free);
        w := WithElder(x.f, s[..h.at], v);
        ElderWay(s, h.at, x.used, x.f, v);
      }
    }
  }

  lemma HereWay(s: string, n: nat)
    requires StuckAfter(s, n)
    ensures n <= |s| && LeadsTo(Here(End(s[..n])), s)
  {
    hide ValidGap, SpacedNode;
    GapForm(s[..n]);
    UnderText(s[..n], "", Here(End("")));
  }

  lemma {:induction false} ElemWay(s: string, at: nat, free: nat) returns (w: Way)
    requires at < |s| && s[at..][0] == '<' && TagStep(s[at..]) == Open(0) && ReadElem(s[at..], free) == Hang && ValidGap(s[..at])
    ensures LeadsTo(w, s) && w.elders.End?
    decreases |s| - at, 0
  {
    hide ReadElem, ReadKids, EndTagScan, StartEnd, TagName, EmptyTag, TagStep, ValidStart, ValidGap, LeadsTo;
    var t := s[at..];
    ReadElemCases(t, free);
    StartRead(t);
    var n := StartEnd(t) + 1;
    var v := KidsWay(t[n..], free + 1);
    w := Under(End(s[..at]), t[..n], v);
    UnderWay(s, at, n, v);
  }

  function WayDepth(w: Way): nat { if w.Under? then 1 + WayDepth(w.inner) else 0 }

  lemma {:induction false} WayHangs(w: Way, y: string, free: nat)
    requires ValidWay(w) && SpacedNode(y)
    ensures ReadKids(WayText(w) + y, free) == Hang
    decreases WayDepth(w), 1, w.elders
  {
    hide ReadElem, ReadKids, Scan, Text, ValidGap, ValidStart, WellFormed, TagName, EmptyTag, SpacedNode, OwnText, PastStart, WayText;
    var s := WayText(w) + y;
    ReadKidsCases(s, free);
    WayElders(w);
    if w.elders.End? {
      TextOf(w.elders);
      EndForms(w.elders.gap);
      if w.Here? {
        assert w.elders.gap + "" == w.elders.gap;
        GapThenStuck(w.elders.gap, y);
      } else {
        assert s == w.elders.gap + (w.start + (WayText(w.inner) + y));
        GapOpens(w.elders.gap, w.start, WayText(w.inner) + y);
        StartHangs(w, y, free);
      }
    } else {
      var f := w.elders;
      var v := if w.Here? then Here(f.rest) else Under(f.rest, w.start, w.inner);
      FormParts(f);
      WayElders(v);
      var z := WayRest(w) + y;
      TextSplit(f, z);
      assert s == Text(f) + z;
      GapOpens(f.gap, f.start, PastStart(f) + (Text(f.rest) + z));
      assert WayText(v) + y == Text(f.rest) + z;
      ReadsElem(f, Text(f.rest) + z, free);
      var x := ReadElem(OwnText(f) + (Text(f.rest) + z), free);
      Dropped(f.gap, OwnText(f), Text(f.rest) + z);
      WayHangs(v, y, x.free);
    }
  }

  /** The element the way goes into is never read to its end. */
  lemma {:induction false} StartHangs(w: Way, y: string, free: nat)
    requires w.Under? && ValidWay(w) && SpacedNode(y)
    ensures ReadElem(w.start + (WayText(w.inner) + y), free) == Hang
    decreases WayDepth(w), 0, w.elders
  {
    hide ReadElem, ReadKids, ValidStart, TagName, EmptyTag, StartEnd, TagStep, SpacedNode, WayText, WellFormed;
    var t, z := w.start + (WayText(w.inner) + y), WayText(w.inner) + y;
    StartReads(w.start, z);
    ReadElemCases(t, free);
    WayHangs(w.inner, y, free + 1);
    assert w.start != "" by { StartNotEmpty(w.start); }
  }

  lemma StartNotEmpty(t: string)
    requires ValidStart(t)
    ensures t != ""
  {
  }

  /** The children of an element are read for ever exactly when such a way leads on from there. */
  lemma KidsHang(s: string, free: nat)
    ensures ReadKids(s, free) == Hang <==> EndlessKids(s)
  {
    hide ReadKids, LeadsTo;
    if ReadKids(s, free) == Hang { var w := KidsWay(s, free); }
    if EndlessKids(s) {
      var w :| LeadsTo(w, s);
      WayIn(w, s);
      WayHangs(w, s[|WayText(w)|..], free);
    }
  }

  lemma WayIn(w: Way, s: string)
    requires LeadsTo(w, s)
    ensures ValidWay(w) && |WayText(w)| <= |s| && SpacedNode(s[|WayText(w)|..]) && s == WayText(w) + s[|WayText(w)|..]
  {
    hide ValidWay, SpacedNode, WayText;
  }

  /** The search for an element and the element found: one of the two is never done with. */
  ghost predicate NeverRead(s: string, free: nat) {
    var h := Scan(s);
    h.Stuck? || (h.Opens? && ReadElem(s[h.at..], free) == Hang)
  }

  lemma ElementHangs(s: string, free: nat)
    ensures NeverRead(s, free) <==> Endless(s)
  {
    hide ReadElem, Scan, LeadsTo, TagStep, ValidGap, StuckAfter;
    var h := Scan(s);
    if h.Stuck? {
      var n := StuckPlace(s);
      HereWay(s, n);
      assert Here(End(s[..n])).elders.End?;
    } else if NeverRead(s, free) {
      ScanStops(s);
      ScanGap(s);
      var w := ElemWay(s, h.at, free);
    }
    if Endless(s) {
      var w: Way :| w.elders.End? && LeadsTo(w, s);
      RootHangs(w, s, free);
    }
  }

  /** SetDoc never returns exactly on the texts that are well formed up to a '<', white space and a
      '?' or '!' before the root element or in it: what comes behind that place, behind the root,
      in a comment or behind an error does not matter. */
  lemma DocHangs(doc: string)
    ensures ReadDoc(doc) == Hang <==> Endless(doc)
  {
    hide ReadElem, Scan, Attach, Endless;
    ElementHangs(doc, 1);
  }

  lemma RootHangs(w: Way, s: string, free: nat)
    requires w.elders.End? && LeadsTo(w, s)
    ensures NeverRead(s, free)
  {
    hide ReadElem, Scan, LeadsTo, Text, ValidGap, ValidStart, WellFormed, EmptyTag, SpacedNode, WayText, TagName;
    WayIn(w, s);
    WayElders(w);
    TextOf(w.elders);
    EndForms(w.elders.gap);
    var y := s[|WayText(w)|..];
    if w.Here? {
      assert s == w.elders.gap + y by { assert w.elders.gap + "" == w.elders.gap; }
      GapThenStuck(w.elders.gap, y);
    } else {
      assert s == w.elders.gap + (w.start + (WayText(w.inner) + y));
      GapOpens(w.elders.gap, w.start, WayText(w.inner) + y);
      StartHangs(w, y, free);
    }
  }

  /** Not every text is parsed: this one is never done with. */
  lemma EndlessText()
    ensures SpacedNode("< !x") && Endless("< !x") && ReadDoc("< !x") == Hang
  {
    hide HeadStep, ReadElem, Endless;
    var s := "< !x";
    var u := s[1..];
    assert u == " !x";
    FirstNotOfIs(u, SPACES, 1);
    RoundStays(s);
    ScanOnce(s);
    DocHangs(s);
  }

  predicate Spaceless(s: string) {
    forall i :: 0 <= i <= |s| ==> !SpacedNode(s[i..])
  }

  /** A text without such a place anywhere is parsed in a finite number of steps. */
  lemma SpacelessDoc(doc: string)
    requires Spaceless(doc)
    ensures !Endless(doc) && ReadDoc(doc) != Hang
  {
    hide SpacedNode, ReadDoc, LeadsTo;
    DocHangs(doc);
    forall w: Way
      ensures !LeadsTo(w, doc)
    {
      if LeadsTo(w, doc) { WayIn(w, doc); }
    }
  }
}
