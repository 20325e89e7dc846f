/** The pieces that the edits put into a document are ones that the parser reads as they
    are meant: gaps stay gaps, start tags stay start tags, new tags are tags. */
module MarkupValid {
  import opened MarkupText
  import opened MarkupGrammar
  import opened MarkupTree
  import opened MarkupEntities
  import opened MarkupTags
  import opened MarkupAttribs
  import opened MarkupSplice

  // ---- Gaps

  lemma PlainGap(g: string)
    requires forall k :: 0 <= k < |g| ==> g[k] != '<'
    ensures ValidGap(g)
  {
    FirstOfIs(g, {'<'}, |g|);
  }

  /** Characters in front of a gap that hold no '<' do not matter. */
  lemma PlainPrefix(p: string, g: string)
    requires forall k :: 0 <= k < |p| ==> p[k] != '<'
    ensures ValidGap(p + g) <==> ValidGap(g)
  {
    hide ParseNode, FirstOf;
    FirstOfIs(p, {'<'}, |p|);
    FirstOfAppend(p, g, {'<'});
    var j := FirstOf(g, {'<'});
    if j < |g| {
      assert (p + g)[|p| + j..] == g[j..];
      GapUnfold(p + g);
      GapUnfold(g);
      if ParseNode(g[j..]).Some? {
        var n := ParseNode(g[j..]).value.next;
        assert (p + g)[|p| + j + n..] == g[j + n..];
      }
    } else {
      GapUnfold(p + g);
      GapUnfold(g);
    }
  }

  lemma {:induction false} GapUnfold(g: string)
    ensures var j := FirstOf(g, {'<'});
      ValidGap(g) <==> (j == |g| ||
        (ParseNode(g[j..]).Some? && ParseNode(g[j..]).value.kind != ElementNode
         && ValidGap(g[j + ParseNode(g[j..]).value.next..])))
  {
    hide ParseNode, FirstOf;
    var j := FirstOf(g, {'<'});
    if j < |g| && ParseNode(g[j..]).Some? {
      var n := ParseNode(g[j..]).value.next;
    }
  }

  lemma {:induction false} GapJoin(g: string, h: string)
    requires ValidGap(g) && ValidGap(h)
    ensures ValidGap(g + h)
    decreases |g|
  {
    hide ParseNode, FirstOf, ValidGap;
    var j := FirstOf(g, {'<'});
    if j == |g| {
      assert forall k :: 0 <= k < |g| ==> g[k] != '<';
      PlainPrefix(g, h);
    } else {
      GapStartsWithNode(g);
      var m := g[j..];
      var n := ParseNode(m).value.next;
      FirstOfExtends(g, h, {'<'});
      assert (g + h)[j..] == m + h;
      ParseNodeExtends(m, h);
      assert (g + h)[j + n..] == m[n..] + h;
      GapJoin(m[n..], h);
      GapUnfold(g + h);
    }
  }

  /** The CDATA section that x_CreateNode makes. */
  function CData(data: string): string { "<![CDATA[" + (data + "]]>") }

  lemma EndMark(s: string, k: nat)
    ensures OccursAt(s, "]]>", k) <==> k + 3 <= |s| && s[k] == ']' && s[k + 1] == ']' && s[k + 2] == '>'
  {
    if k + 3 <= |s| {
      var u := s[k..k + 3];
      assert u[0] == s[k] && u[1] == s[k + 1] && u[2] == s[k + 2];
      assert u == [s[k], s[k + 1], s[k + 2]];
    }
  }

  lemma CDataChars(data: string)
    ensures var s, n := CData(data), |data|;
      && |s| == n + 12 && s[n + 9] == ']' && s[n + 10] == ']' && s[n + 11] == '>'
      && s[0] == '<' && s[1] == '!' && s[2] == '['
      && (forall k :: 0 <= k < 9 ==> s[k] != ']')
      && (forall k :: 0 <= k < n ==> s[k + 9] == data[k])
  {
    var h := "<![CDATA[";
    var s := h + (data + "]]>");
    assert forall k :: 0 <= k < 9 ==> s[k] == h[k];
    assert forall k :: 0 <= k < 3 ==> s[|data| + 9 + k] == "]]>"[k];
  }

  /** The first end mark of a CDATA section is its own. */
  lemma CDataEnds(data: string)
    requires FindStr(data, "]]>") == -1
    ensures FindStr(CData(data), "]]>") == 9 + |data|
  {
    hide FindStr, CData, OccursAt;
    var s, n := CData(data), |data|;
    CDataChars(data);
    EndMark(s, n + 9);
    forall k: nat | k < n + 9
      ensures !OccursAt(s, "]]>", k)
    {
      EndMark(s, k);
      if 9 <= k && k + 3 <= n + 9 {
        EndMark(data, k - 9);
        assert s[k - 9 + 9] == data[k - 9] && s[k - 8 + 9] == data[k - 8] && s[k - 7 + 9] == data[k - 7];
      }
    }
    FindStrIs(s, "]]>", n + 9);
  }

  lemma CDataGap(data: string)
    requires FindStr(data, "]]>") == -1
    ensures ValidGap(CData(data))
  {
    hide FindStr, FirstOf, CData;
    var s := CData(data);
    CDataChars(data);
    CDataEnds(data);
    FirstOfIs(s, {'<'}, 0);
    assert s[0..] == s;
    assert s[9 + |data| + 3..] == "";
    PlainGap("");
    CDataNodeIs(s);
    GapUnfold(s);
  }

  lemma CDataNodeIs(s: string)
    requires |s| >= 3 && s[0] == '<' && s[1] == '!' && s[2] == '[' && FindStr(s, "]]>") >= 0
    ensures ParseNode(s) == Some(Node(CDataNode, FindStr(s, "]]>") + 3))
  {
    hide FindStr, FirstOf, FindToken, DocTypeEnd;
  }

  /** What x_SetData puts between the tags. */
  function DataText(data: string, cdata: bool): string {
    if cdata && FindStr(data, "]]>") == -1 then CData(data) else ToDoc(data, false)
  }

  lemma DataGap(data: string, cdata: bool)
    ensures ValidGap(DataText(data, cdata))
  {
    hide FindStr, ValidGap, ToDoc, CData;
    if cdata && FindStr(data, "]]>") == -1 {
      CDataGap(data);
    } else {
      ToDocClean(data, false);
      PlainGap(ToDoc(data, false));
    }
  }

  /** What x_GetData makes of the text from a start tag on, of which `n` characters come
      before the end tag. */
  function DataIn(s: string, n: nat): string {
    var t := FindToken(s);
    if t.found && t.l < |s| && s[t.l] == '<' && t.l + 11 < n <= |s| && s[t.l + 1..t.l + 9] == "![CDATA[" then
      var k := FindStr(s[t.next..], "]]>");
      if k >= 0 && t.next + k < n && t.l + 9 <= t.next + k then s[t.l + 9..t.next + k] else FromDoc(s[..n])
    else if n <= |s| then FromDoc(s[..n]) else ""
  }

  /** The same in offsets of the document. */
  lemma DataCases(doc: string, at: nat, end: nat)
    requires at <= end < |doc|
    ensures var t, s := FindToken(doc[at..]).Shift(at), DataIn(doc[at..], end - at);
      if t.found && t.l < |doc| && doc[t.l] == '<' && t.l + 11 < end && doc[t.l + 1..t.l + 9] == "![CDATA[" then
        t.next <= |doc| &&
        var k := FindStr(doc[t.next..], "]]>");
        if k >= 0 && t.next + k < end then t.l + 9 <= t.next + k && s == doc[t.l + 9..t.next + k]
        else s == FromDoc(doc[at..end])
      else s == FromDoc(doc[at..end])
  {
    hide FindToken, FindStr, FromDoc;
    var s, n, t := doc[at..], end - at, FindToken(doc[at..]);
    assert s[..n] == doc[at..end];
    if t.found && at + t.l + 11 < end {
      assert s[t.l] == doc[at + t.l] && s[t.next..] == doc[at + t.next..];
      assert s[t.l + 1..t.l + 9] == doc[at + t.l + 1..at + t.l + 9];
      if s[t.l] == '<' && s[t.l + 1..t.l + 9] == "![CDATA[" {
        CDataAhead(s);
        var k := FindStr(s[t.next..], "]]>");
        if k >= 0 && t.next + k < n { SliceOfRest(doc, at, t.l + 9, t.next + k); }
      }
    }
  }

  /** The end mark that x_GetData finds comes after the mark that opens the section. */
  lemma CDataAhead(s: string)
    requires var t := FindToken(s);
      t.found && t.l + 9 <= |s| && s[t.l] == '<' && s[t.l + 1..t.l + 9] == "![CDATA["
    ensures var t := FindToken(s);
      var k := FindStr(s[t.next..], "]]>"); k >= 0 ==> t.l + 9 <= t.next + k
  {
    hide FindToken, FindStr;
    var t := FindToken(s);
    var k := FindStr(s[t.next..], "]]>");
    var w := s[t.l + 1..t.l + 9];
    forall j | t.l < j < t.l + 9
      ensures s[j] != ']'
    {
      assert s[j] == w[j - t.l - 1];
    }
    if t.isString {
      StringLong(s);
    } else if k >= 0 {
      SpecialWidth(s);
      EndMark(s[t.next..], k);
      assert s[t.next..][k] == s[t.next + k];
    }
  }

  lemma StringLong(s: string)
    requires var t := FindToken(s);
      t.isString && t.l + 9 <= |s| && s[t.l] == '<' && s[t.l + 1..t.l + 9] == "![CDATA["
    ensures FindToken(s).l + 9 <= FindToken(s).next
  {
    hide FirstOf, FirstNotOf;
    var t := FindToken(s);
    var n := FirstNotOf(s, SPACES);
    var e := FirstOf(s[n + 1..], {s[n]});
    var w := s[t.l + 1..t.l + 9];
    assert forall i :: 0 <= i < 8 ==> s[t.l + 1 + i] == w[i];
    var u := s[n + 1..];
    assert forall i :: 0 <= i < 9 ==> u[i] == s[t.l + i];
    forall i | 0 <= i < 9
      ensures u[i] !in {s[n]}
    {
      if i > 0 { assert s[t.l + 1 + (i - 1)] == w[i - 1]; }
    }
  }

  /** x_GetData reads back what x_SetData wrote, in either form and for any data. */
  lemma DataReads(data: string, cdata: bool, x: string)
    requires x != "" && x[0] == '<'
    ensures DataIn(DataText(data, cdata) + x, |DataText(data, cdata)|) == data
  {
    hide FindStr, FindToken, FromDoc, ToDoc, CData, DataIn;
    if cdata && FindStr(data, "]]>") == -1 {
      CDataReads(data, x);
    } else {
      EscapedReads(data, x);
    }
  }

  lemma CDataReads(data: string, x: string)
    requires FindStr(data, "]]>") == -1
    ensures DataIn(CData(data) + x, |CData(data)|) == data
  {
    hide FindStr, FindToken, FromDoc, ToDoc, CData;
    var s := CData(data) + x;
    CDataChars(data);
    CDataHead(data, x);
    FindTokenSpecial(s);
    CDataEnds(data);
    FindStrExtends(CData(data), x, "]]>");
    FindStrTail(s, "]]>");
    assert s[9..9 + |data|] == data;
  }

  lemma CDataHead(data: string, x: string)
    ensures var s := CData(data) + x; |s| >= 12 && s[0] == '<' && s[1..9] == "![CDATA["
  {
    var h := "<![CDATA[";
    assert CData(data) + x == h + (data + "]]>" + x);
    assert (CData(data) + x)[1..9] == h[1..9] == "![CDATA[";
  }

  lemma FindStrTail(s: string, pat: string)
    requires FindStr(s, pat) > 0 && s != ""
    ensures FindStr(s[1..], pat) == FindStr(s, pat) - 1
  {
    hide FindStr, OccursAt;
    var n := FindStr(s, pat);
    forall k: nat | 1 <= k
      ensures OccursAt(s, pat, k) <==> OccursAt(s[1..], pat, k - 1)
    {
      OccursShift(s, pat, k);
    }
    forall k: nat | k < n - 1
      ensures !OccursAt(s[1..], pat, k)
    {
      assert !OccursAt(s, pat, k + 1);
    }
    assert OccursAt(s, pat, n);
    FindStrIs(s[1..], pat, n - 1);
  }

  lemma OccursShift(s: string, pat: string, k: nat)
    requires 1 <= k && s != ""
    ensures OccursAt(s, pat, k) <==> OccursAt(s[1..], pat, k - 1)
  {
    if k + |pat| <= |s| {
      assert s[1..][k - 1..k - 1 + |pat|] == s[k..k + |pat|];
    }
  }

  lemma EscapedReads(data: string, x: string)
    requires x != "" && x[0] == '<'
    ensures DataIn(ToDoc(data, false) + x, |ToDoc(data, false)|) == data
  {
    hide FindStr, FindToken, FromDoc, ToDoc;
    var d := ToDoc(data, false);
    var s := d + x;
    ToDocClean(data, false);
    FromDocInverts(data, false);
    assert s[..|d|] == d;
    var t := FindToken(s);
    assert t.l < |d| ==> s[t.l] == d[t.l];
  }

  // ---- Tags of new elements

  /** The name token of a start tag stays when the tag changes behind it. */
  lemma NameKept(u: string, v: string)
    requires var k := FindToken(u);
      && k.found && !k.isString && k.next <= |v| && v[..k.next] == u[..k.next]
      && (u[k.l] in SPECIALS || (k.next < |v| && v[k.next] in SPECIALS))
    ensures FindToken(v) == FindToken(u)
  {
    hide FirstOf, FirstNotOf;
    var k := FindToken(u);
    var n := FirstNotOf(u, SPACES);
    assert forall i :: 0 <= i < k.next ==> v[i] == v[..k.next][i] == u[i];
    FirstNotOfIs(v, SPACES, n);
    assert u[n..][0] == u[n] && v[n..][0] == v[n];
    var m := FirstOf(u[n..], SPECIALS);
    if m == 0 {
      FirstOfIs(v[n..], SPECIALS, 0);
    } else {
      assert u[n] !in SPECIALS;
      assert forall i :: 0 <= i < m ==> v[n..][i] == u[n..][i];
      FirstOfIs(v[n..], SPECIALS, m);
    }
  }

  lemma NameEnds(u: string)
    requires var k := FindToken(u); k.found && !k.isString && k.next < |u|
    ensures var k := FindToken(u); u[k.l] in SPECIALS || u[k.next] in SPECIALS
    ensures var k := FindToken(u); forall i :: k.l <= i < k.next ==> u[i] !in SPECIALS || k.next == k.l + 1
  {
    hide FirstOf, FirstNotOf;
    var n := FirstNotOf(u, SPACES);
    var m := FirstOf(u[n..], SPECIALS);
    assert m < |u[n..]| ==> u[n..][m] == u[n + m];
    assert forall i :: n <= i < n + m ==> u[i] == u[n..][i - n];
  }

  /** A changed start tag: the name and the end are the same, no '>' came in between. */
  lemma StartKept(t: string, d: string)
    requires ValidStart(t) && |d| >= 2 && d[0] == '<' && d[|d| - 1] == '>'
    requires var k := FindToken(t[1..]);
      && 1 + k.next < |d| && d[1..1 + k.next] == t[1..1 + k.next]
      && (t[1..][k.l] in SPECIALS || d[1 + k.next] in SPECIALS)
      && forall i :: 1 + k.next <= i < |d| - 1 ==> d[i] != '>'
    ensures ValidStart(d) && TagName(d) == TagName(t) && FindToken(d[1..]) == FindToken(t[1..])
  {
    hide FindToken, FirstOf;
    var k := FindToken(t[1..]);
    assert d[1..][..k.next] == d[1..1 + k.next] && t[1..][..k.next] == t[1..1 + k.next];
    assert d[1..][k.next] == d[1 + k.next];
    NameKept(t[1..], d[1..]);
    assert d[1..][k.l] == d[1..][..k.next][k.l] == t[1..][k.l];
    assert d[1..][k.l..k.next] == d[1..][..k.next][k.l..] == t[1..][..k.next][k.l..] == t[1..][k.l..k.next];
    FirstOfIs(d[1 + k.next..], {'>'}, |d| - 2 - k.next);
  }

  /** What ValidStart says, read off the tag. */
  lemma StartFacts(t: string)
    requires ValidStart(t)
    ensures var k := FindToken(t[1..]);
      && |t| >= 3 && k.found && !k.isString && k.l < k.next && 1 + k.next < |t| && t[0] == '<' && t[|t| - 1] == '>'
      && (t[1..][k.l] in SPECIALS || t[1 + k.next] in SPECIALS)
      && (forall i :: 1 + k.next <= i < |t| - 1 ==> t[i] != '>')
      && TagName(t) == t[1..][k.l..k.next] && t[1..][k.l] !in {'?', '!', '/'}
    ensures EmptyTag(t) ==> 1 + FindToken(t[1..]).next <= |t| - 2
  {
    hide FindToken, FirstOf;
    var k := FindToken(t[1..]);
    NameEnds(t[1..]);
    var n := |t| - 2 - k.next;
    assert t[1 + k.next..][n] == t[|t| - 1];
    assert forall i :: 1 + k.next <= i < |t| - 1 ==> t[i] == t[1 + k.next..][i - 1 - k.next];
    assert t[1..][k.next - 1] == t[k.next];
  }

  /** The name is a single special character, or holds none. */
  predicate TokenName(n: string) {
    n != "" && n[0] !in {'?', '!', '/'} + SPACES
    && ((|n| == 1 && n[0] in SPECIALS) || (n[0] !in {'\"', '\''} && forall i :: 0 <= i < |n| ==> n[i] !in SPECIALS))
  }

  lemma NameIsToken(t: string)
    requires ValidStart(t)
    ensures TokenName(TagName(t))
  {
    hide FirstOf, FirstNotOf;
    StartFacts(t);
    var u := t[1..];
    var k := FindToken(u);
    NameEnds(u);
    NameHead(u);
    var n := TagName(t);
    assert forall i :: 0 <= i < |n| ==> n[i] == u[k.l + i];
  }

  lemma NameHead(u: string)
    requires FindToken(u).found && !FindToken(u).isString
    ensures var k := FindToken(u); u[k.l] !in SPACES && u[k.l] !in {'\"', '\''}
  {
    hide FirstOf, FirstNotOf;
  }

  /** The tokens of "/NAME>". */
  lemma CloseTokens(n: string)
    requires TokenName(n)
    ensures FindToken("/" + n + ">") == Token(true, false, 0, 0, 1)
    ensures FindToken(n + ">") == Token(true, false, 0, |n| - 1, |n|)
    ensures FindToken(">") == Token(true, false, 0, 0, 1)
  {
    hide FindToken;
    var s := n + ">";
    assert "/" + n + ">" == "" + (['/'] + s);
    assert ">" == "" + (['>'] + "");
    AtOnce('/', s);
    AtOnce('>', "");
    NameAtOnce(n);
  }

  lemma AtOnce(c: char, s: string)
    requires c in SPECIALS && c !in SPACES
    ensures FindToken("" + ([c] + s)) == Token(true, false, 0, 0, 1)
  {
    hide FindToken;
    SpecialToken("", c, s);
  }

  lemma NameAtOnce(n: string)
    requires TokenName(n)
    ensures FindToken(n + ">") == Token(true, false, 0, |n| - 1, |n|)
  {
    hide FirstOf, FirstNotOf;
    var s := n + ">";
    FirstNotOfIs(s, SPACES, 0);
    assert s[0..] == s && s[0] == n[0];
    if n[0] in SPECIALS {
      FirstOfIs(s, SPECIALS, 0);
    } else {
      FirstOfIs(s, SPECIALS, |n|);
    }
  }

  lemma MatchSelf(n: string)
    ensures Match(n, n)
  {
    assert n[..|n|] == n;
  }

  /** The end tag that an edit writes for a name is one the parser accepts for it, unless
      the name is a '>'. */
  lemma CloseIsValid(n: string)
    requires TokenName(n)
    ensures ValidClose(CloseTag(n), n) <==> n != ">"
  {
    hide FindToken, Match;
    var c := CloseTag(n);
    var s := c[1..];
    assert s == "/" + n + ">";
    CloseTokens(n);
    MatchSelf(n);
    assert s[1..] == n + ">" && s[0..1] == "/";
    assert (n + ">")[0..|n|] == n && (n + ">")[|n|..] == ">";
    CloseScan(s, n);
  }

  lemma CloseScan(s: string, n: string)
    requires TokenName(n) && s == "/" + n + ">" && s[1..] == n + ">" && (n + ">")[0..|n|] == n && (n + ">")[|n|..] == ">"
    requires FindToken(s) == Token(true, false, 0, 0, 1) && FindToken(n + ">") == Token(true, false, 0, |n| - 1, |n|)
    requires FindToken(">") == Token(true, false, 0, 0, 1) && Match(n, n)
    ensures EndTagScan(s, 0, n) == TagEnd(if n == ">" then 1 else 1 + |n|)
  {
    hide FindToken, Match;
    assert EndTagScan(">", 2, n) == TagEnd(0);
    assert EndTagScan(n + ">", 1, n) == TagEnd(if n == ">" then 0 else |n|) by {
      assert (n + ">")[0] == n[0];
      if n[0] == '>' {
        assert n == ">";
      }
    }
  }

  // ---- Changed start tags

  /** A token stays when the text changes behind it. */
  lemma TokenKept(u: string, v: string)
    requires var k := FindToken(u);
      && k.found && k.next <= |v| && v[..k.next] == u[..k.next]
      && (if k.isString then k.next == k.r + 2
          else u[k.l] in SPECIALS || (k.next < |v| && v[k.next] in SPECIALS))
    ensures FindToken(v) == FindToken(u)
  {
    hide FirstOf, FirstNotOf;
    var k := FindToken(u);
    if k.isString {
      StringKept(u, v);
    } else {
      NameKept(u, v);
    }
  }

  lemma StringKept(u: string, v: string)
    requires var k := FindToken(u);
      k.found && k.isString && k.next <= |v| && v[..k.next] == u[..k.next] && k.next == k.r + 2
    ensures FindToken(v) == FindToken(u)
  {
    hide FirstOf, FirstNotOf;
    var k := FindToken(u);
    var n := FirstNotOf(u, SPACES);
    assert forall i :: 0 <= i < k.next ==> v[i] == v[..k.next][i] == u[i];
    FirstNotOfIs(v, SPACES, n);
    var e := FirstOf(u[n + 1..], {u[n]});
    var x, y := u[n + 1..k.next], v[n + 1..k.next];
    assert x == u[..k.next][n + 1..] == v[..k.next][n + 1..] == y;
    assert forall i :: 0 <= i <= e ==> x[i] == u[n + 1..][i];
    assert v[n + 1..] == y + v[k.next..];
    FirstOfIs(v[n + 1..], {u[n]}, e);
  }

  /** A token inside a tag ends where the next one can begin. */
  lemma ClosedTokenEnds(u: string)
    requires Closed(u) && FindToken(u).next < |u|
    ensures var k := FindToken(u);
      && 0 < k.next
      && (if k.isString then k.next == k.r + 2 && u[k.next - 1] in {'\"', '\''} else u[k.l] in SPECIALS || u[k.next] in SPECIALS)
      && (!k.isString && u[k.next - 1] in SPECIALS ==> k.l == k.next - 1)
  {
    hide FirstOf, FirstNotOf, Closed;
    ClosedHead(u);
    var k := FindToken(u);
    if k.isString {
      var n := FirstNotOf(u, SPACES);
      var e := FirstOf(u[n + 1..], {u[n]});
      assert u[n + 1..][e] == u[n + 1 + e];
    } else {
      NameEnds(u);
    }
  }

  /** The value found for an attribute replaced by one without quotes. */
  lemma {:induction false} ClosedRaw(u: string, name: string, count: nat, attrib: nat, v: string)
    requires Closed(u) && name != "" && FindAttrib(u, name, count, attrib).Some?
    requires forall i :: 0 <= i < |v| ==> v[i] !in {'\"', '\''}
    ensures var k := FindAttrib(u, name, count, attrib).value;
      k.l <= k.r + 1 <= |u| && Closed(u[..k.l] + v + u[k.r + 1..])
    decreases |u|
  {
    hide *;
    var t := FindToken(u);
    ClosedHead(u);
    FindAttribOnce(u, name, count, attrib);
    FindAttribKind(u, name, count, attrib);
    FindAttribEnd(u, name, count, attrib);
    if t.next == |u| {
      StepAtEnd(u, t, name, count, attrib);
    }
    ClosedTokenEnds(u);
    var k := FindAttrib(u, name, count, attrib).value;
    var d := u[..k.l] + v + u[k.r + 1..];
    var st := StepAttrib(u, t, name, count, attrib);
    if st.Go? {
      var j := FindAttrib(u[t.next..], name, count + 1, st.attrib).value;
      ClosedRaw(u[t.next..], name, count + 1, st.attrib, v);
      FindAttribKind(u[t.next..], name, count + 1, st.attrib);
      StringAfterQuote(u[t.next..], name, count + 1, st.attrib);
      Shifted(j, t.next);
      RawBehind(u, j.l, j.r + 1, v);
    } else {
      ReplacedString(u, v);
      assert d[t.l + |v| + 1..] == u[t.next..];
      ClosedCons(d);
    }
  }

  /** A replacement behind the first token. */
  lemma RawBehind(u: string, l: nat, e: nat, v: string)
    requires Closed(u) && FindToken(u).next < |u| && 0 < l <= e <= |u| - FindToken(u).next
    requires var w := u[FindToken(u).next..]; Closed(w[..l] + v + w[e..])
    ensures var n := FindToken(u).next; Closed(u[..n + l] + v + u[n + e..])
  {
    hide *;
    var n := FindToken(u).next;
    var d := u[..n + l] + v + u[n + e..];
    ClosedHead(u);
    ClosedTokenEnds(u);
    RawShift(u, n, l, e, v);
    TokenKept(u, d);
    ClosedCons(d);
  }

  lemma Shifted(t: Token, n: nat)
    ensures t.Shift(n) == Token(t.found, t.isString, t.l + n, t.r + n, t.next + n)
  {
  }

  /** A replacement behind the first `n` characters, seen from there. */
  lemma RawShift(u: string, n: nat, l: nat, e: nat, v: string)
    requires n < |u| && 0 < l <= e <= |u| - n
    ensures var d := u[..n + l] + v + u[n + e..];
      d[n..] == u[n..][..l] + v + u[n..][e..] && d[..n] == u[..n] && n < |d| && d[n] == u[n]
  {
  }

  lemma {:induction false} StringAfterQuote(u: string, name: string, count: nat, attrib: nat)
    requires name != "" && FindAttrib(u, name, count, attrib).Some?
    ensures 0 < FindAttrib(u, name, count, attrib).value.l
    decreases |u|
  {
    hide FindToken, StepAttrib, FindAttrib;
    FindAttribKind(u, name, count, attrib);
    FindAttribOnce(u, name, count, attrib);
    var t := FindToken(u);
    var st := StepAttrib(u, t, name, count, attrib);
    if st.Go? {
      StringAfterQuote(u[t.next..], name, count + 1, st.attrib);
    } else {
      StringStart(u);
    }
  }

  lemma StringStart(u: string)
    requires FindToken(u).isString
    ensures 0 < FindToken(u).l
  {
    hide FirstOf, FirstNotOf;
  }

  lemma ClosedCons(u: string)
    requires var t := FindToken(u); t.found && t.next < |u| && Closed(u[t.next..]) && (t.isString || u[t.l] != '>')
    ensures Closed(u)
  {
    hide FindToken;
  }

  lemma ReplacedString(u: string, v: string)
    requires var t := FindToken(u); t.isString && t.found && t.next == t.r + 2 && t.l <= t.r + 1 && t.next <= |u|
    requires forall i :: 0 <= i < |v| ==> v[i] !in {'\"', '\''}
    ensures var t := FindToken(u);
      var d := u[..t.l] + v + u[t.r + 1..];
      FindToken(d) == Token(true, true, t.l, t.l + |v| - 1, t.l + |v| + 1)
  {
    hide FirstOf, FirstNotOf;
    var t := FindToken(u);
    var n := FirstNotOf(u, SPACES);
    var d := u[..t.l] + v + u[t.r + 1..];
    var e := FirstOf(u[n + 1..], {u[n]});
    assert u[n + 1..][e] == u[n + 1 + e] && n + 1 + e == t.r + 1;
    assert forall i :: 0 <= i <= n ==> d[i] == u[i];
    FirstNotOfIs(d, SPACES, n);
    assert d[n + 1..] == v + u[t.r + 1..];
    FirstOfIs(d[n + 1..], {u[n]}, |v|);
  }

  /** A pair of name and value put in front of the end of a tag. */
  lemma {:induction false} ClosedInsert(u: string, m: nat, name: string, value: string)
    requires Closed(u) && PlainName(name) && m < |u| && (u[m..] == "/>" || u[m..] == ">")
    ensures Closed(u[..m] + Pair(name, value) + u[m..])
    decreases |u|
  {
    hide FindToken, Closed, Pair;
    var t := FindToken(u);
    var d := u[..m] + Pair(name, value) + u[m..];
    ClosedHead(u);
    if t.next == |u| || t.l >= m {
      NothingBefore(u, m);
      PairCloses(u[..m], name, value, u[m..]);
    } else {
      ClosedTokenEnds(u);
      assert t.next <= m by { EndsBefore(u, m); }
      assert u[t.next..][m - t.next..] == u[m..];
      assert u[t.next..][..m - t.next] == u[t.next..m];
      ClosedInsert(u[t.next..], m - t.next, name, value);
      assert d[t.next..] == u[t.next..m] + Pair(name, value) + u[m..];
      assert d[..t.next] == u[..t.next];
      assert d[t.next] in SPECIALS || d[t.next] == u[t.next] by { PairHead(name, value); }
      assert d[t.l] == u[t.l] || t.isString;
      TokenKept(u, d);
      ClosedCons(d);
    }
  }

  lemma PairHead(name: string, value: string)
    ensures Pair(name, value) != "" && Pair(name, value)[0] == ' '
  {
    hide ToDoc;
  }

  /** If no token begins before the end of the tag, there is only white space before it. */
  lemma NothingBefore(u: string, m: nat)
    requires Closed(u) && m < |u| && (u[m..] == "/>" || u[m..] == ">")
    requires FindToken(u).next == |u| || FindToken(u).l >= m
    ensures Spaces(u[..m])
  {
    hide Closed, FirstOf, FirstNotOf, FindToken;
    ClosedHead(u);
    TokenHead(u);
    assert forall i :: m <= i < |u| ==> u[i] == u[m..][i - m];
    if FindToken(u).isString { ClosingQuote(u); }
  }

  lemma TokenHead(u: string)
    requires FindToken(u).found
    ensures var t, k := FindToken(u), FirstNotOf(u, SPACES);
      k < |u| && t.l == (if t.isString then k + 1 else k) && (!t.isString && u[t.l] in SPECIALS ==> t.next == t.l + 1)
  {
    hide FirstOf, FirstNotOf;
  }

  lemma ClosingQuote(u: string)
    requires FindToken(u).isString && FindToken(u).next < |u|
    ensures var t := FindToken(u); t.l < t.next && u[t.next - 1] in {'\"', '\''}
  {
    hide FirstOf, FirstNotOf;
    var n := FirstNotOf(u, SPACES);
    var e := FirstOf(u[n + 1..], {u[n]});
    assert e < |u[n + 1..]| ==> u[n + 1..][e] == u[n + 1 + e];
  }

  lemma EndsBefore(u: string, m: nat)
    requires Closed(u) && m < |u| && (u[m..] == "/>" || u[m..] == ">") && FindToken(u).l < m && FindToken(u).next < |u|
    ensures FindToken(u).next <= m
  {
    hide Closed, FindToken;
    ClosedHead(u);
    ClosedTokenEnds(u);
    assert u[m..][0] == u[m];
  }

  /** The tokens of a pair and of the end of the tag. */
  lemma PairCloses(ws: string, name: string, value: string, end: string)
    requires Spaces(ws) && PlainName(name) && (end == "/>" || end == ">")
    ensures Closed(ws + Pair(name, value) + end)
  {
    var t := Tag("x", [], "", end == "/>");
    var a := Attr(ws + " ", name, "", "", '\"', ToDoc(value, true));
    ToDocClean(value, true);
    NewAttrText(ws, name, value);
    EndCloses(end);
    ClosedOverAttr(a, end);
  }

  lemma EndCloses(end: string)
    requires end == "/>" || end == ">"
    ensures Closed(end)
  {
    assert ">" == "" + (['>'] + "");
    SpecialToken("", '>', "");
    assert "/>" == "" + (['/'] + ">");
    SpecialToken("", '/', ">");
    assert "/>"[1..] == ">";
    assert Closed(">");
  }

  lemma ClosedOverValue(a: Attr, x: string)
    requires ValidAttr(a) && Closed(x)
    ensures Closed(ValueText(a) + x)
  {
    hide FindToken, Closed, ValueText;
    var u := ValueText(a) + x;
    ValueTokens(a, u, x);
    ClosedHead(x);
    var v := u[|a.mid1| + 1..];
    var t2 := FindToken(v);
    ValueStarts(a, x);
    assert x != "";
    assert t2.next == t2.r + 2 by { ValueTokenNext(a, x); }
    assert v[t2.next..] == x by { assert u[|ValueText(a)|..] == x; assert v[t2.next..] == u[|a.mid1| + 1 + t2.next..]; }
    ClosedCons(v);
    ClosedCons(u);
  }

  lemma ValueTokenNext(a: Attr, x: string)
    requires ValidAttr(a)
    ensures |a.mid1| < |ValueText(a) + x|
    ensures var t := FindToken((ValueText(a) + x)[|a.mid1| + 1..]); t.next == t.r + 2
  {
    hide FindToken;
    var z := a.mid2 + ([a.quote] + (a.raw + ([a.quote] + x)));
    assert ValueText(a) + x == a.mid1 + (['='] + z);
    assert (ValueText(a) + x)[|a.mid1| + 1..] == z;
    QuotedToken(a.mid2, a.quote, a.raw, x);
  }

  lemma ClosedOverAttr(a: Attr, x: string)
    requires ValidAttr(a) && Closed(x)
    ensures Closed(AttrText(a) + x)
  {
    hide FindToken, Closed, ValueText;
    var y := ValueText(a) + x;
    var s := AttrText(a) + x;
    ClosedOverValue(a, x);
    assert s == a.ws + (a.name + y);
    ValueStarts(a, x);
    NameToken(a.ws, a.name, y);
    assert s[|a.ws|] == a.name[0];
    assert s[|a.ws| + |a.name|..] == y;
    ClosedCons(s);
  }

  /** x_SetAttrib leaves a start tag that the parser reads under the same name, empty or
      not as before, with its quotes closed. */
  lemma SetTagValid(t: string, name: string, value: string)
    requires ValidStart(t) && ClosedTag(t) && PlainName(name)
    ensures var d := SetTag(t, EmptyTag(t), name, value);
      ValidStart(d) && TagName(d) == TagName(t) && (EmptyTag(d) <==> EmptyTag(t)) && ClosedTag(d)
  {
    hide FindToken, FindAttrib, Closed, ToDoc, ValidStart, TagName, Pair;
    StartFacts(t);
    ToDocClean(value, true);
    var u := t[1..];
    var r := FindAttrib(u, name, 0, 0);
    if r.Some? {
      SetTagReplaced(t, name, value);
    } else {
      SetTagInserted(t, name, value);
    }
  }

  /** A replacement in a tag behind its name. */
  lemma ReplacedTag(t: string, n: nat, i: nat, j: nat, v: string)
    requires |t| >= 2 && t[0] == '<' && t[|t| - 1] == '>' && 1 <= n <= i <= j < |t|
    requires forall k :: n <= k < |t| - 1 ==> t[k] != '>'
    requires forall k :: 0 <= k < |v| ==> v[k] != '>'
    ensures var d := t[..i] + v + t[j..];
      && |d| == |t| + |v| - (j - i) && d[0] == '<' && d[|d| - 1] == '>' && d[..n] == t[..n]
      && (forall k :: n <= k < |d| - 1 ==> d[k] != '>')
      && d[1..] == t[1..][..i - 1] + v + t[1..][j - 1..]
      && (n < i ==> d[n] == t[n])
  {
    var d := t[..i] + v + t[j..];
    assert d[1..] == t[1..i] + v + t[j..];
    assert forall k :: 0 <= k < i ==> d[k] == t[k];
    assert forall k :: 0 <= k < |v| ==> d[i + k] == v[k];
    forall k | n <= k < |d| - 1
      ensures d[k] != '>'
    {
      if k >= i + |v| {
        assert d[k] == t[k - |v| - i + j];
      } else if k >= i {
        assert d[k] == v[k - i];
      }
    }
  }

  /** The replacement of `t[i..j]` behind the name of a start tag and before its end. */
  lemma StartReplaced(t: string, i: nat, j: nat, v: string)
    requires ValidStart(t) && 1 + FindToken(t[1..]).next < i <= j <= |t| - 2
    requires forall k :: 0 <= k < |v| ==> v[k] != '>'
    ensures var d := t[..i] + v + t[j..];
      && ValidStart(d) && TagName(d) == TagName(t) && (EmptyTag(d) <==> EmptyTag(t))
      && d[1..] == t[1..][..i - 1] + v + t[1..][j - 1..]
  {
    hide FindToken, ValidStart, TagName;
    StartFacts(t);
    var n := 1 + FindToken(t[1..]).next;
    var d := t[..i] + v + t[j..];
    ReplacedTag(t, n, i, j, v);
    SamePrefix(t, d, n);
    StartKept(t, d);
    assert d[|d| - 2] == t[|t| - 2];
  }

  lemma SetTagReplaced(t: string, name: string, value: string)
    requires ValidStart(t) && ClosedTag(t) && PlainName(name) && FindAttrib(t[1..], name, 0, 0).Some?
    ensures var d := SetTag(t, EmptyTag(t), name, value);
      ValidStart(d) && TagName(d) == TagName(t) && (EmptyTag(d) <==> EmptyTag(t)) && ClosedTag(d)
  {
    hide FindToken, FindAttrib, Closed, ToDoc, ValidStart, TagName, EmptyTag, SetTag;
    StartFacts(t);
    ToDocClean(value, true);
    SetTagCases(t, EmptyTag(t), name, value);
    var u, v := t[1..], ToDoc(value, true);
    var k := FindAttrib(u, name, 0, 0).value;
    FindAttribKind(u, name, 0, 0);
    FindAttribEnd(u, name, 0, 0);
    BehindName(u, name);
    ClosedRaw(u, name, 0, 0, v);
    StartReplaced(t, 1 + k.l, 2 + k.r, v);
  }

  lemma SamePrefix(t: string, d: string, n: nat)
    requires 1 <= n <= |t| && n <= |d| && d[..n] == t[..n]
    ensures d[1..n] == t[1..n]
  {
    assert d[1..n] == d[..n][1..] && t[1..n] == t[..n][1..];
  }

  /** What is found for a name lies behind the name of the tag. */
  lemma BehindName(u: string, name: string)
    requires name != "" && FindAttrib(u, name, 0, 0).Some? && FindToken(u).found && !FindToken(u).isString
    ensures FindToken(u).next < FindAttrib(u, name, 0, 0).value.l
  {
    hide FindToken, FindAttrib;
    var t := FindToken(u);
    FindAttribOnce(u, name, 0, 0);
    StringAfterQuote(u[t.next..], name, 1, 0);
  }

  lemma SetTagInserted(t: string, name: string, value: string)
    requires ValidStart(t) && ClosedTag(t) && PlainName(name) && FindAttrib(t[1..], name, 0, 0).None?
    ensures var d := SetTag(t, EmptyTag(t), name, value);
      ValidStart(d) && TagName(d) == TagName(t) && (EmptyTag(d) <==> EmptyTag(t)) && ClosedTag(d)
  {
    hide FindToken, FindAttrib, Closed, ToDoc, ValidStart, TagName, Pair;
    StartFacts(t);
    var u := t[1..];
    var m := TagTail(t, EmptyTag(t));
    var p := Pair(name, value);
    var d := t[..m] + p + t[m..];
    PairHead(name, value);
    PairClean(name, value);
    assert u[m - 1..] == t[m..];
    TagEnds(t);
    ClosedInsert(u, m - 1, name, value);
    var n := 1 + FindToken(u).next;
    ReplacedTag(t, n, m, m, p);
    SamePrefix(t, d, n);
    assert n == m ==> d[n] == p[0];
    StartKept(t, d);
    assert EmptyTag(t) ==> d[|d| - 2] == t[|t| - 2];
    assert !EmptyTag(t) ==> d[|d| - 2] == p[|p| - 1];
  }

  lemma TagEnds(t: string)
    requires |t| >= 2 && t[|t| - 1] == '>'
    ensures t[TagTail(t, EmptyTag(t))..] == (if EmptyTag(t) then "/>" else ">")
  {
    assert t[|t| - 1..] == ">";
    if EmptyTag(t) { assert t[|t| - 2..] == "/>"; }
  }

  lemma PairClean(name: string, value: string)
    requires PlainName(name)
    ensures var p := Pair(name, value); p[|p| - 1] == '\"' && forall i :: 0 <= i < |p| ==> p[i] != '>'
  {
    hide ToDoc;
    ToDocClean(value, true);
  }

  // ---- The start tag of an empty element that gets a body

  /** The empty elements that x_AddElem and x_SetData can give a body: those whose start
      tag does not end in "//>" and whose name is not a '>'. */
  predicate Splittable(t: string) {
    |t| >= 3 && EmptyTag(t) && t[|t| - 3] != '/' && TagName(t) != ">"
  }

  lemma OpenTagValid(t: string)
    requires ValidStart(t) && EmptyTag(t)
    ensures ValidStart(OpenTag(t)) && TagName(OpenTag(t)) == TagName(t)
    ensures Splittable(t) <==>
      !EmptyTag(OpenTag(t)) && ValidClose(CloseTag(TagName(t)), TagName(OpenTag(t)))
    ensures ClosedTag(t) ==> ClosedTag(OpenTag(t))
  {
    hide FindToken, Closed, ValidStart, TagName, ValidClose;
    StartFacts(t);
    var d := OpenTag(t);
    var n := FindToken(t[1..]).next;
    assert d[1..1 + n] == t[1..1 + n];
    assert d[1 + n] == (if 1 + n < |t| - 2 then t[1 + n] else '>');
    StartKept(t, d);
    NameIsToken(t);
    CloseIsValid(TagName(t));
    assert EmptyTag(d) <==> t[|t| - 3] == '/';
    if ClosedTag(t) {
      var u := t[1..];
      assert d[1..] == u[..|u| - 2] + ">";
      ClosedOpen(u);
    }
  }

  lemma {:induction false} ClosedOpen(u: string)
    requires Closed(u) && |u| >= 2 && u[|u| - 2] == '/' && u[|u| - 1] == '>'
    ensures Closed(u[..|u| - 2] + ">")
    decreases |u|
  {
    hide FindToken, Closed;
    var t, m := FindToken(u), |u| - 2;
    var d := u[..m] + ">";
    ClosedHead(u);
    assert u[m..] == "/>";
    if t.next == |u| || t.l >= m {
      NothingBefore(u, m);
      assert d == u[..m] + (['>'] + "");
      SpecialToken(u[..m], '>', "");
      ClosedLast(d);
    } else {
      ClosedTokenEnds(u);
      EndsBefore(u, m);
      ClosedOpen(u[t.next..]);
      assert d[t.next..] == u[t.next..][..m - t.next] + ">";
      assert d[..t.next] == u[..t.next];
      TokenKept(u, d);
      assert d[t.l] == u[t.l] || t.isString;
      ClosedCons(d);
    }
  }

  lemma ClosedLast(d: string)
    requires var t := FindToken(d); t.found && !t.isString && d[t.l] == '>' && t.next == |d|
    ensures Closed(d)
  {
    hide FindToken;
  }

  // ---- The tags of a new element

  /** "<NAME>" and "<NAME/>". */
  lemma NewTags(name: string)
    requires PlainName(name)
    ensures ValidStart("<" + name + ">") && !EmptyTag("<" + name + ">") && TagName("<" + name + ">") == name
    ensures ValidStart("<" + name + "/>") && EmptyTag("<" + name + "/>") && TagName("<" + name + "/>") == name
    ensures ClosedTag("<" + name + ">") && ClosedTag("<" + name + "/>")
    ensures ValidClose(CloseTag(name), name)
  {
    hide FindToken, Closed, ValidStart, TagName, ValidClose;
    NewTag(name, ">");
    NewTag(name, "/>");
    assert TokenName(name);
    CloseIsValid(name);
    var t := "<" + name + ">";
    assert t[|t| - 2] == name[|name| - 1];
  }

  lemma NewTag(name: string, end: string)
    requires PlainName(name) && (end == ">" || end == "/>")
    ensures var t := "<" + name + end; ValidStart(t) && TagName(t) == name && ClosedTag(t)
  {
    hide FindToken, Closed, FirstOf;
    var t := "<" + name + end;
    assert t[1..] == "" + (name + end);
    NameToken("", name, end);
    assert t[1..][0] == name[0];
    assert t[1..][0..|name|] == name;
    assert t[1 + |name|..] == end;
    FirstOfIs(end, {'>'}, |end| - 1);
    EndCloses(end);
    assert t[1..][|name|..] == end;
    ClosedCons(t[1..]);
  }

  // ---- Tags made of pairs

  lemma {:induction false} AttrsClean(list: seq<Attr>)
    requires ValidAttrs(list)
    ensures forall i :: 0 <= i < |AttrsText(list)| ==> AttrsText(list)[i] != '>'
    ensures list != [] ==> AttrsText(list) != "" && AttrsText(list)[|AttrsText(list)| - 1] in {'\"', '\''}
  {
    hide AttrText;
    if list != [] {
      AttrClean(list[0]);
      AttrsClean(list[1..]);
      if |list| == 1 { assert list[1..] == []; }
    }
  }

  lemma AttrClean(a: Attr)
    requires ValidAttr(a)
    ensures AttrText(a) != "" && AttrText(a)[|AttrText(a)| - 1] == a.quote
    ensures forall i :: 0 <= i < |AttrText(a)| ==> AttrText(a)[i] != '>'
  {
    var p := a.ws + (a.name + (a.mid1 + ("=" + (a.mid2 + [a.quote]))));
    assert AttrText(a) == p + (a.raw + [a.quote]);
    PieceClean(a);
  }

  lemma PieceClean(a: Attr)
    requires ValidAttr(a)
    ensures var p := a.ws + (a.name + (a.mid1 + ("=" + (a.mid2 + [a.quote]))));
      forall i :: 0 <= i < |p| ==> p[i] != '>'
  {
    assert forall i :: 0 <= i < |a.ws| ==> a.ws[i] in SPACES;
    assert forall i :: 0 <= i < |a.mid1| ==> a.mid1[i] in SPACES;
    assert forall i :: 0 <= i < |a.mid2| ==> a.mid2[i] in SPACES;
    assert forall i :: 0 <= i < |a.name| ==> a.name[i] !in SPECIALS;
  }

  lemma {:induction false} AttrsClosed(list: seq<Attr>, x: string)
    requires ValidAttrs(list) && Closed(x)
    ensures Closed(AttrsText(list) + x)
  {
    hide AttrText, Closed;
    if list == [] {
      assert AttrsText(list) + x == x;
    } else {
      AttrsClosed(list[1..], x);
      assert AttrsText(list) + x == AttrText(list[0]) + (AttrsText(list[1..]) + x);
      ClosedOverAttr(list[0], AttrsText(list[1..]) + x);
    }
  }

  lemma EndingClosed(tail: string, end: string)
    requires Spaces(tail) && (end == "/>" || end == ">")
    ensures Closed(tail + end)
  {
    hide Closed;
    EndCloses(end);
    if end == ">" {
      assert tail + end == tail + (['>'] + "");
      SpecialToken(tail, '>', "");
      ClosedLast(tail + end);
    } else {
      assert tail + end == tail + (['/'] + ">");
      SpecialToken(tail, '/', ">");
      assert (tail + end)[|tail| + 1..] == ">";
      EndCloses(">");
      ClosedCons(tail + end);
    }
  }

  lemma PairTagName(t: Tag)
    requires t.Valid()
    ensures var u, y := t.Inner(), AttrsText(t.list) + t.Ending();
      && t.Text() != "" && t.Text()[0] == '<' && t.Text()[1..] == u && u == t.name + y && |y| >= 1 && y[|y| - 1] == '>'
      && FindToken(u) == Token(true, false, 0, |t.name| - 1, |t.name|)
      && u[0] == t.name[0] && u[0..|t.name|] == t.name && u[|t.name|..] == y && |t.Text()| == 1 + |t.name| + |y|
  {
    hide FindToken, AttrsText;
    var u, y := t.Inner(), AttrsText(t.list) + t.Ending();
    AttrsStart(t, "");
    assert t.Ending() + "" == t.Ending();
    assert u == "" + (t.name + y);
    NameToken("", t.name, y);
  }

  lemma PairTagEnd(t: Tag)
    requires t.Valid()
    ensures var y := AttrsText(t.list) + t.Ending(); FirstOf(y, {'>'}) == |y| - 1
  {
    hide AttrsText, FirstOf;
    var y := AttrsText(t.list) + t.Ending();
    AttrsClean(t.list);
    assert forall i :: 0 <= i < |t.tail| ==> t.tail[i] in SPACES;
    FirstOfIs(y, {'>'}, |y| - 1);
  }

  /** A tag made of pairs is a start tag with closed quotes. */
  lemma PairTagValid(t: Tag)
    requires t.Valid()
    ensures var s := t.Text();
      ValidStart(s) && TagName(s) == t.name && (EmptyTag(s) <==> t.empty) && ClosedTag(s)
  {
    hide FindToken, Closed, AttrsText, FirstOf, Tag.Inner, Tag.Text;
    var s, u := t.Text(), t.Inner();
    PairTagName(t);
    PairTagEnd(t);
    var y := AttrsText(t.list) + t.Ending();
    assert s[1 + |t.name|..] == u[|t.name|..];
    EndingClosed(t.tail, if t.empty then "/>" else ">");
    AttrsClosed(t.list, t.Ending());
    ClosedCons(u);
    if t.empty {
      assert s[|s| - 2] == u[|u| - 2] == y[|y| - 2];
    } else {
      LastBefore(t);
    }
  }

  lemma LastBefore(t: Tag)
    requires t.Valid() && !t.empty
    ensures |t.Text()| >= 2 && t.Text()[|t.Text()| - 2] != '/'
  {
    hide AttrsText;
    AttrsClean(t.list);
    var p := "<" + (t.name + AttrsText(t.list));
    assert t.Text() == p + t.tail + ">";
    if t.tail != "" {
      assert t.tail[|t.tail| - 1] in SPACES;
      assert t.Text()[|t.Text()| - 2] == t.tail[|t.tail| - 1];
    } else if t.list != [] {
      assert t.Text()[|t.Text()| - 2] == AttrsText(t.list)[|AttrsText(t.list)| - 1];
    } else {
      assert AttrsText(t.list) == "" by { AttrsTextNone(); }
      assert t.Text()[|t.Text()| - 2] == t.name[|t.name| - 1];
      assert t.name[|t.name| - 1] !in SPECIALS;
    }
  }
}
