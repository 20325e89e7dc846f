/** Where a comment, an instruction, a CDATA section and a document type end, told in characters,
    and that a document is read alike with such a node before it. */
module MarkupNodes {
  import opened MarkupText
  import opened MarkupGrammar
  import opened MarkupTree
  import opened MarkupEdits
  import opened MarkupValid
  import opened MarkupParse

  // ---- The search runs over a gap, whatever is behind it

  lemma PlainThen(g: string, x: string)
    requires forall k :: 0 <= k < |g| ==> g[k] != '<'
    ensures Scan(g + x) == Scan(x).Shift(|g|)
  {
    hide TagStep, FirstOf, Scan, HeadStep;
    var s, j := g + x, FirstOf(x, {'<'});
    FirstOfIs(g, {'<'}, |g|);
    FirstOfAppend(g, x, {'<'});
    if g == "" {
      assert s == x;
      ZeroShift(Scan(x));
    } else {
      SameHead(s, x, |g|);
      var r := HeadStep(x);
      ScanOnce(s);
      ScanOnce(x);
      if r.Again? {
        assert s[|g| + r.next..] == x[r.next..];
        assert x[0..] == x;
        Shifts(Scan(x[r.next..]), r.next, |g|);
      }
    }
  }

  lemma ZeroShift(h: ScanResult)
    ensures h.Shift(0) == h
  {
  }

  lemma Shifts(h: ScanResult, m: nat, n: nat)
    ensures h.Shift(m).Shift(n) == h.Shift(n + m)
  {
  }

  lemma SameHead(s: string, x: string, n: nat)
    requires n <= |s| && s[n..] == x && FirstOf(s, {'<'}) == n + FirstOf(x, {'<'})
    ensures HeadStep(s) == HeadStep(x).Shift(n)
  {
    hide TagStep, FirstOf;
    var j := FirstOf(x, {'<'});
    assert s[n + j..] == x[j..];
  }

  lemma {:induction false} PassesGap(g: string, x: string)
    requires ValidGap(g)
    ensures Scan(g + x) == Scan(x).Shift(|g|)
    decreases |g|
  {
    hide HeadStep, FirstOf, ParseNode, ValidGap, Scan, TagStep;
    var j := FirstOf(g, {'<'});
    if j == |g| {
      assert forall k :: 0 <= k < |g| ==> g[k] !in {'<'};
      PlainThen(g, x);
    } else {
      var s, m := g + x, g[j..];
      GapStartsWithNode(g);
      FirstOfExtends(g, x, {'<'});
      TagStepPassesNode(m, x);
      assert s[j..] == m + x;
      HeadStepAfterPlain(s, j, m + x);
      var n := ParseNode(m).value.next;
      assert s[j + n..] == m[n..] + x;
      ScanAgain(s, j + n);
      PassesGap(m[n..], x);
    }
  }

  // ---- Nodes that end at a mark

  /** The mark stands at the end, and nowhere before. */
  predicate EndsAtFirst(g: string, mark: string) {
    |mark| <= |g| && g[|g| - |mark|..] == mark && forall k :: 0 <= k < |g| - |mark| ==> !(mark <= g[k..])
  }

  predicate Nowhere(s: string, mark: string) {
    forall k :: 0 <= k <= |s| ==> !(mark <= s[k..])
  }

  /** The search for the root goes on right behind the first "-->" of a comment, the first "?>" of
      an instruction, the first "]]>" of a CDATA section; and what is behind a node that ends does
      not matter for where it ends. */
  lemma NodeEnds(g: string, x: string)
    requires |g| >= 3
    requires (g[..3] == "<!-" && EndsAtFirst(g, "-->")) || (g[..2] == "<?" && EndsAtFirst(g, "?>"))
             || (g[..3] == "<![" && EndsAtFirst(g, "]]>"))
    ensures ValidGap(g) && Scan(g + x) == Scan(x).Shift(|g|)
  {
    hide ParseNode, FindStr, ValidGap, Scan;
    Heads(g);
    var mark := if g[1] == '?' then "?>" else if g[2] == '[' then "]]>" else "-->";
    Marked(g, mark);
    NodeIs(g);
    OneNode(g);
    PassesGap(g, x);
  }

  lemma Heads(g: string)
    requires |g| >= 3
    ensures g[..3] == "<!-" <==> g[0] == '<' && g[1] == '!' && g[2] == '-'
    ensures g[..3] == "<![" <==> g[0] == '<' && g[1] == '!' && g[2] == '['
    ensures g[..2] == "<?" <==> g[0] == '<' && g[1] == '?'
  {
    assert g[..3] == [g[0], g[1], g[2]] && g[..2] == [g[0], g[1]];
  }

  lemma Marked(g: string, mark: string)
    requires EndsAtFirst(g, mark)
    ensures FindStr(g, mark) == |g| - |mark|
  {
    hide FindStr;
    var n := |g| - |mark|;
    forall k: nat | k <= n
      ensures OccursAt(g, mark, k) <==> mark <= g[k..]
    {
      Begins(g, mark, k);
    }
    FindStrIs(g, mark, n);
  }

  lemma Begins(s: string, mark: string, k: nat)
    requires k <= |s|
    ensures OccursAt(s, mark, k) <==> mark <= s[k..]
  {
    if k + |mark| <= |s| { assert s[k..][..|mark|] == s[k..k + |mark|]; }
  }

  /** What the parser makes of such a node. */
  lemma NodeIs(s: string)
    requires |s| >= 3 && s[0] == '<' && (s[1] == '?' || (s[1] == '!' && (s[2] == '[' || s[2] == '-')))
    ensures var mark := if s[1] == '?' then "?>" else if s[2] == '[' then "]]>" else "-->";
      var k := FindStr(s, mark);
      if k < 0 then ParseNode(s) == None
      else ParseNode(s).Some? && ParseNode(s).value.kind != ElementNode && ParseNode(s).value.next == k + |mark|
  {
    hide FindStr, DocTypeEnd, FindToken;
  }

  lemma OneNode(g: string)
    requires g != "" && g[0] == '<' && ParseNode(g).Some?
    requires ParseNode(g).value.kind != ElementNode && ParseNode(g).value.next == |g|
    ensures ValidGap(g)
  {
    hide ParseNode, ValidGap;
    FirstOfIs(g, {'<'}, 0);
    assert g[0..] == g && g[0 + |g|..] == "";
    PlainGap("");
    GapUnfold(g);
  }

  /** Without the mark there is no node, and no root is looked for behind it. */
  lemma NodeUnended(s: string)
    requires |s| >= 3
    requires (s[..3] == "<!-" && Nowhere(s, "-->")) || (s[..2] == "<?" && Nowhere(s, "?>")) || (s[..3] == "<![" && Nowhere(s, "]]>"))
    ensures ReadDoc(s) == Bad(InvalidNode)
  {
    hide ParseNode, FindStr, Scan;
    Heads(s);
    var mark := if s[1] == '?' then "?>" else if s[2] == '[' then "]]>" else "-->";
    if FindStr(s, mark) >= 0 { Begins(s, mark, FindStr(s, mark)); }
    NodeIs(s);
    NoNode(s);
  }

  lemma NoNode(s: string)
    requires |s| >= 2 && s[0] == '<' && (s[1] == '?' || s[1] == '!') && ParseNode(s) == None
    ensures Scan(s) == Fails(0, InvalidNode)
  {
    hide ParseNode, FirstOf, Scan, TagStep;
    BadNode(s);
    FirstOfIs(s, {'<'}, 0);
    assert s[0..] == s;
    ScanOnce(s);
  }

  lemma BadNode(s: string)
    requires |s| >= 2 && s[0] == '<' && (s[1] == '?' || s[1] == '!') && ParseNode(s) == None
    ensures TagStep(s) == Fail(0, InvalidNode)
  {
    hide ParseNode, FindToken;
    assert s[1..][0] == s[1];
    FindTokenSpecial(s[1..]);
  }

  // ---- The document behind it

  /** A document behind text that the parser passes over is read as that document, with the text
      before its root. */
  lemma GapThenDoc(g: string, t: string)
    requires ValidGap(g)
    ensures var r, d := ReadDoc(t), ReadDoc(g + t);
      && (r.Hang? ==> d == Hang) && (r.Bad? ==> d == r)
      && (r.Read? ==> d == Read(WithGap(r.f, g + r.f.gap), |g| + r.used, r.free))
  {
    hide *;
    PassesGap(g, t);
    DocCases(t); DocCases(g + t);
    var h := Scan(t);
    ScanMoved(h, |g|);
    if h.Opens? {
      Onward(g, t, h.at, 0);
      var x := ReadElem(t[h.at..], 1);
      if x.Read? {
        Onward(g, t, h.at, x.used);
        AttachGap(x.f, t[..h.at], g, End(t[h.at + x.used..]));
      }
    }
  }

  lemma DocCases(doc: string)
    ensures var h, d := Scan(doc), ReadDoc(doc);
      && (h.Stuck? ==> d == Hang) && (h.Fails? ==> d == Bad(h.fault)) && (h.Closes? ==> d == Bad(ElementTagNotFound))
      && (h.Opens? ==>
            var x := ReadElem(doc[h.at..], 1);
            d == if x.Read? then Read(Attach(x.f, doc[..h.at], End(doc[h.at + x.used..])), |doc|, x.free) else x)
  {
    hide Scan, ReadElem, Attach;
  }

  lemma ScanMoved(h: ScanResult, n: nat)
    ensures h.Stuck? ==> h.Shift(n).Stuck?
    ensures h.Fails? ==> h.Shift(n).Fails? && h.Shift(n).fault == h.fault
    ensures h.Closes? ==> h.Shift(n).Closes?
    ensures h.Opens? ==> h.Shift(n) == Opens(h.at + n)
  {
  }

  lemma Onward(g: string, t: string, at: nat, n: nat)
    requires at + n <= |t|
    ensures (g + t)[|g| + at + n..] == t[at + n..] && (g + t)[..|g| + at] == g + t[..at]
  {
  }

  lemma AttachGap(x: Forest, gap: string, g: string, rest: Forest)
    requires !x.End?
    ensures Attach(x, g + gap, rest) == WithGap(Attach(x, gap, rest), g + Attach(x, gap, rest).gap)
  {
  }

  /** SetDoc of a document with a comment, an instruction or a CDATA section before it: the root
      is the one of the document, whatever the node holds. */
  lemma NodeThenDoc(g: string, t: string)
    requires |g| >= 3
    requires (g[..3] == "<!-" && EndsAtFirst(g, "-->")) || (g[..2] == "<?" && EndsAtFirst(g, "?>"))
             || (g[..3] == "<![" && EndsAtFirst(g, "]]>"))
    ensures var r, d := ReadDoc(t), ReadDoc(g + t);
      && (r.Hang? ==> d == Hang) && (r.Bad? ==> d == r)
      && (r.Read? ==> d.Read? && d.f == WithGap(r.f, g + r.f.gap) && d.free == r.free)
  {
    hide Scan, ReadDoc, ValidGap, EndsAtFirst;
    NodeEnds(g, t);
    GapThenDoc(g, t);
  }

  // ---- Document types

  function Moved(e: Option<nat>, n: nat): Option<nat> {
    if e.Some? then Some(n + e.value) else None
  }

  /** Where a document type ends, character by character: quotes hide what is between them, and
      brackets are counted, but both only at the start of a word (`wordStart`), which the white space
      and the marks of the language end. */
  function TypeEnd(s: string, depth: int, wordStart: bool): (e: Option<nat>)
    ensures e.Some? ==> 0 < e.value <= |s|
    decreases |s|
  {
    if s == "" then None
    else if s[0] == '>' && depth == 0 then Some(1)
    else if s[0] in {' ', '\t', '\n', '\r', '<', '>', '=', '\\', '/', '?', '!'} then Moved(TypeEnd(s[1..], depth, true), 1)
    else if wordStart && s[0] in {'\"', '\''} then
      var q := FirstOf(s[1..], {s[0]});
      if q == |s| - 1 then None else Moved(TypeEnd(s[q + 2..], depth, true), q + 2)
    else
      Moved(TypeEnd(s[1..], if wordStart && s[0] == '[' then depth + 1 else if wordStart && s[0] == ']' then depth - 1 else depth, false), 1)
  }

  lemma {:induction false} BlanksSkipped(s: string, depth: int, k: nat)
    requires k <= |s| && forall i :: 0 <= i < k ==> s[i] in SPACES
    ensures TypeEnd(s, depth, true) == Moved(TypeEnd(s[k..], depth, true), k)
    decreases k
  {
    if k > 0 {
      BlanksSkipped(s[1..], depth, k - 1);
      assert s[1..][k - 1..] == s[k..];
    } else {
      assert s[0..] == s;
    }
  }

  /** Inside a word nothing counts but its end. */
  lemma {:induction false} WordSkipped(s: string, depth: int, k: nat)
    requires k <= |s| && (forall i :: 0 <= i < k ==> s[i] !in SPECIALS) && (k < |s| ==> s[k] in SPECIALS)
    ensures TypeEnd(s, depth, false) == Moved(TypeEnd(s[k..], depth, true), k)
    decreases k
  {
    if k > 0 {
      WordSkipped(s[1..], depth, k - 1);
      assert s[1..][k - 1..] == s[k..];
    } else {
      assert s[0..] == s;
    }
  }

  /** The loop over tokens stops there. */
  lemma {:induction false} DocTypeIsTypeEnd(s: string, depth: int)
    ensures DocTypeEnd(s, depth) == TypeEnd(s, depth, true)
    decreases |s|
  {
    hide DocTypeEnd, TypeEnd;
    DocTypeCases(s, depth);
    var k := FirstNotOf(s, SPACES);
    BlanksSkipped(s, depth, k);
    var u := s[k..];
    if k < |s| {
      AtToken(s, u, depth, k);
      var t := FindToken(s);
      if t.next < |s| || t.found { DocTypeIsTypeEnd(s[t.next..], TokenDepth(s, t, depth)); }
    } else {
      NothingLeft(s, depth);
    }
  }

  function TokenDepth(s: string, t: Token, depth: int): int
    requires !t.isString ==> t.l < |s|
  {
    if t.isString then depth else if s[t.l] == '[' then depth + 1 else if s[t.l] == ']' then depth - 1 else depth
  }

  lemma NothingLeft(s: string, depth: int)
    requires FirstNotOf(s, SPACES) == |s|
    ensures !FindToken(s).found && TypeEnd(s[|s|..], depth, true) == None
  {
    hide FirstNotOf, FirstOf;
    assert s[|s|..] == "";
  }

  /** One token at the start of `u`. */
  lemma AtToken(s: string, u: string, depth: int, k: nat)
    requires k == FirstNotOf(s, SPACES) < |s| && u == s[k..]
    ensures var t := FindToken(s);
      && t.found && k < t.next <= |s| && (!t.isString ==> t.l == k)
      && TypeEnd(u, depth, true) ==
           (if !t.isString && depth == 0 && s[k] == '>' then Some(t.next - k)
            else Moved(TypeEnd(s[t.next..], TokenDepth(s, t, depth), true), t.next - k))
  {
    hide FirstNotOf, FirstOf, TypeEnd;
    var t := FindToken(s);
    assert u[0] == s[k] && u[1..] == s[k + 1..];
    if s[k] in {'\"', '\''} {
      QuoteToken(s, u, depth, k);
    } else if s[k] in SPECIALS {
      SpecialHead(u, depth);
      FirstOfIs(s[k..], SPECIALS, 0);
    } else {
      WordToken(s, u, depth, k);
    }
  }

  lemma QuoteToken(s: string, u: string, depth: int, k: nat)
    requires k == FirstNotOf(s, SPACES) < |s| && u == s[k..] && s[k] in {'\"', '\''}
    ensures var t := FindToken(s);
      t.found && t.isString && k < t.next <= |s| && TypeEnd(u, depth, true) == Moved(TypeEnd(s[t.next..], depth, true), t.next - k)
  {
    hide FirstNotOf, FirstOf, TypeEnd;
    var t, q := FindToken(s), FirstOf(s[k + 1..], {s[k]});
    assert u[1..] == s[k + 1..];
    QuoteHead(u, depth, q);
    if q < |u| - 1 { assert u[q + 2..] == s[t.next..]; } else { EmptyEnd(s[t.next..], depth); }
  }

  lemma WordToken(s: string, u: string, depth: int, k: nat)
    requires k == FirstNotOf(s, SPACES) < |s| && u == s[k..] && s[k] !in {'\"', '\''} && s[k] !in SPECIALS
    ensures var t := FindToken(s);
      && t.found && !t.isString && t.l == k && k < t.next <= |s|
      && TypeEnd(u, depth, true) == Moved(TypeEnd(s[t.next..], TokenDepth(s, t, depth), true), t.next - k)
  {
    hide FirstNotOf, FirstOf, TypeEnd, FindToken;
    var t, n := FindToken(s), FirstOf(u, SPECIALS);
    PlainToken(s, k);
    assert u[0] == s[k];
    WordHead(u, depth);
    Dropped(s, k, n);
    AfterHead(u, n);
    WordSkipped(u[1..], TokenDepth(s, t, depth), n - 1);
  }

  lemma AfterHead(u: string, n: nat)
    requires u != "" && n == FirstOf(u, SPECIALS) && n > 0
    ensures u[1..][n - 1..] == u[n..]
    ensures (forall i :: 0 <= i < n - 1 ==> u[1..][i] !in SPECIALS) && (n - 1 < |u[1..]| ==> u[1..][n - 1] in SPECIALS)
  {
    hide FirstOf;
  }

  lemma Dropped(s: string, k: nat, n: nat)
    requires k + n <= |s|
    ensures s[k..][n..] == s[k + n..]
  {
  }

  /** A token that is no string. */
  lemma PlainToken(s: string, k: nat)
    requires k == FirstNotOf(s, SPACES) < |s| && s[k] !in {'\"', '\''}
    ensures var n := FirstOf(s[k..], SPECIALS);
      var e := if n == 0 then k + 1 else k + n;
      FindToken(s) == Token(true, false, k, e - 1, e)
  {
    hide FirstNotOf, FirstOf;
  }

  lemma EmptyEnd(s: string, depth: int)
    ensures s == "" ==> TypeEnd(s, depth, true) == None
  {
  }

  lemma QuoteHead(u: string, depth: int, q: nat)
    requires u != "" && u[0] in {'\"', '\''} && q == FirstOf(u[1..], {u[0]})
    ensures TypeEnd(u, depth, true) == if q == |u| - 1 then None else Moved(TypeEnd(u[q + 2..], depth, true), q + 2)
  {
    hide FirstOf;
  }

  lemma SpecialHead(u: string, depth: int)
    requires u != "" && u[0] in SPECIALS
    ensures TypeEnd(u, depth, true) == if u[0] == '>' && depth == 0 then Some(1) else Moved(TypeEnd(u[1..], depth, true), 1)
  {
  }

  lemma WordHead(u: string, depth: int)
    requires u != "" && u[0] !in SPECIALS && u[0] !in {'\"', '\''}
    ensures TypeEnd(u, depth, true) ==
      Moved(TypeEnd(u[1..], if u[0] == '[' then depth + 1 else if u[0] == ']' then depth - 1 else depth, false), 1)
  {
  }

  /** SetDoc of a document with a document type before it. */
  lemma DocTypeThenDoc(g: string, t: string)
    requires |g| >= 3 && g[..2] == "<!" && g[2] !in {'[', '-'} && TypeEnd(g, 0, true) == Some(|g|)
    ensures ValidGap(g)
    ensures var r, d := ReadDoc(t), ReadDoc(g + t);
      && (r.Hang? ==> d == Hang) && (r.Bad? ==> d == r)
      && (r.Read? ==> d.Read? && d.f == WithGap(r.f, g + r.f.gap) && d.free == r.free)
  {
    hide ReadDoc, ValidGap, TypeEnd, DocTypeEnd;
    assert g[0] == g[..2][0] == '<' && g[1] == g[..2][1] == '!';
    DocTypeIsTypeEnd(g, 0);
    TypeNode(g);
    OneNode(g);
    GapThenDoc(g, t);
  }

  lemma TypeNode(s: string)
    requires |s| >= 3 && s[0] == '<' && s[1] == '!' && s[2] !in {'[', '-'}
    ensures ParseNode(s) == if DocTypeEnd(s, 0).Some? then Some(Node(DocTypeNode, DocTypeEnd(s, 0).value)) else None
  {
    hide DocTypeEnd;
  }

  /** One that never ends hides the root. */
  lemma DocTypeUnended(s: string)
    requires |s| >= 3 && s[..2] == "<!" && s[2] !in {'[', '-'} && TypeEnd(s, 0, true) == None
    ensures ReadDoc(s) == Bad(InvalidNode)
  {
    hide ParseNode, Scan, TypeEnd, DocTypeEnd;
    assert s[0] == s[..2][0] == '<' && s[1] == s[..2][1] == '!';
    DocTypeIsTypeEnd(s, 0);
    TypeNode(s);
    NoNode(s);
  }

  /** Without quotes and brackets it ends at its first '>'. */
  lemma {:induction false} PlainTypeEnd(w: string, wordStart: bool)
    requires forall k :: 0 <= k < |w| ==> w[k] !in {'>', '\"', '\'', '[', ']'}
    ensures TypeEnd(w + ">", 0, wordStart) == Some(|w| + 1)
    decreases |w|
  {
    if w != "" {
      assert (w + ">")[1..] == w[1..] + ">";
      PlainTypeEnd(w[1..], true);
      PlainTypeEnd(w[1..], false);
    }
  }

  /** A bracket counts only at the start of a word: behind a blank the '>' in it is hidden, behind a
      letter it ends the document type. */
  lemma BracketInWord()
    ensures TypeEnd("<!a [>]>", 0, true) == Some(8) && TypeEnd("<!a[>]>", 0, true) == Some(5)
  {
    assert TypeEnd(">", 0, false) == Some(1);
    assert TypeEnd("]>", 1, true) == Some(2) by { assert "]>"[1..] == ">"; }
    assert TypeEnd(">]>", 1, false) == Some(3) by { assert ">]>"[1..] == "]>"; }
    assert TypeEnd("[>]>", 0, true) == Some(4) by { assert "[>]>"[1..] == ">]>"; }
    assert TypeEnd(" [>]>", 0, false) == Some(5) by { assert " [>]>"[1..] == "[>]>"; }
    assert TypeEnd("a [>]>", 0, true) == Some(6) by { assert "a [>]>"[1..] == " [>]>"; }
    assert TypeEnd("!a [>]>", 0, true) == Some(7) by { assert "!a [>]>"[1..] == "a [>]>"; }
    assert "<!a [>]>"[1..] == "!a [>]>";
    assert TypeEnd(">]>", 0, false) == Some(1);
    assert TypeEnd("[>]>", 0, false) == Some(2) by { assert "[>]>"[1..] == ">]>"; }
    assert TypeEnd("a[>]>", 0, true) == Some(3) by { assert "a[>]>"[1..] == "[>]>"; }
    assert TypeEnd("!a[>]>", 0, true) == Some(4) by { assert "!a[>]>"[1..] == "a[>]>"; }
    assert "<!a[>]>"[1..] == "!a[>]>";
  }

  // ---- Text

  /** Text without quotes goes on to the next '<'; it is white space if all of it is. */
  lemma TextNodeEnds(w: string, x: string)
    requires w != "" && (forall k :: 0 <= k < |w| ==> w[k] !in {'<', '\"', '\''}) && (x != "" ==> x[0] == '<')
    ensures ParseNode(w + x) ==
      Some(Node(if forall k :: 0 <= k < |w| ==> w[k] in {' ', '\t', '\n', '\r'} then WhitespaceNode else TextNode, |w|))
  {
    hide FirstOf, FirstNotOf, FindStr, DocTypeEnd;
    var s := w + x;
    var k := FirstNotOf(s, SPACES);
    assert forall i :: 0 <= i < |w| ==> s[i] == w[i];
    assert x != "" ==> s[|w|] == '<';
    if k < |w| { WordBefore(w, x, k); }
  }

  lemma WordBefore(w: string, x: string, k: nat)
    requires k == FirstNotOf(w + x, SPACES) < |w| && (forall i :: 0 <= i < |w| ==> w[i] !in {'<', '\"', '\''}) && (x != "" ==> x[0] == '<')
    ensures var t := FindToken(w + x); t.found && !t.isString && t.l == k && t.next <= |w| && t.next + FirstOf((w + x)[t.next..], {'<'}) == |w|
  {
    hide FirstOf, FirstNotOf, FindToken;
    var s := w + x;
    assert s[k] == w[k];
    PlainToken(s, k);
    assert x != "" ==> s[k..][|w| - k] == x[0];
    var n := FindToken(s).next;
    assert n <= |w|;
    BeforeMark(w, x, n);
  }

  lemma BeforeMark(w: string, x: string, n: nat)
    requires n <= |w| && (forall i :: 0 <= i < |w| ==> w[i] !in {'<', '\"', '\''}) && (x != "" ==> x[0] == '<')
    ensures FirstOf((w + x)[n..], {'<'}) == |w| - n
  {
    hide FirstOf;
    assert (w + x)[n..] == w[n..] + x;
    FirstOfIs(w[n..] + x, {'<'}, |w| - n);
  }
}
