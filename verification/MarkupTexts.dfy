/** Documents spelled out: what the parser takes for a tag, which end tag it accepts, which texts it
    refuses, what it reads as data and where it finds an attribute, on the characters themselves. */
module MarkupTexts {
  import opened MarkupText
  import opened MarkupGrammar
  import opened MarkupTree
  import opened MarkupAdjust
  import opened MarkupEdits
  import opened MarkupEntities
  import opened MarkupTags
  import opened MarkupAttribs
  import opened MarkupSplice
  import opened MarkupPlaces
  import opened MarkupValid
  import opened MarkupParse
  import opened MarkupNodes

  // ---- Tags

  /** The characters that end a word: white space and the marks of the language. */
  predicate EndsWord(c: char) { c in {' ', '\t', '\n', '\r', '<', '>', '=', '\\', '/', '?', '!'} }

  predicate WordName(n: string) {
    n != "" && n[0] !in {'\"', '\''} && forall k :: 0 <= k < |n| ==> !EndsWord(n[k])
  }

  lemma WordEndsAre()
    ensures forall c :: EndsWord(c) <==> c in SPECIALS
  {
  }

  /** What may stand between the name and the '>' of a start tag: anything without a '>', also in quotes. */
  predicate TagRest(a: string) {
    (a != "" ==> EndsWord(a[0])) && forall k :: 0 <= k < |a| ==> a[k] != '>'
  }

  /** A start tag: it ends at its first '>', and it is that of an empty element if a '/' is before it. */
  lemma StartIs(n: string, a: string)
    requires WordName(n) && TagRest(a)
    ensures var t := "<" + n + a + ">";
      ValidStart(t) && TagName(t) == n && (EmptyTag(t) <==> a != "" && a[|a| - 1] == '/')
  {
    hide FirstOf, FindToken, WordName, TagRest;
    var t, y := "<" + n + a + ">", a + ">";
    TagParts(n, a);
    WordToken1(n, y);
    FirstMark(a);
    NameSound(n);
  }

  lemma TagParts(n: string, a: string)
    requires WordName(n) && TagRest(a)
    ensures var t, y := "<" + n + a + ">", a + ">";
      && t != "" && t[0] == '<' && |t| == |n| + |a| + 2 && |n| > 0
      && t[1..] == n + y && t[1..][0] == n[0] && t[1..][0..|n|] == n && t[1 + |n|..] == y && y != "" && EndsWord(y[0])
      && t[|t| - 2] == (if a != "" then a[|a| - 1] else n[|n| - 1])
  {
    var t, y := "<" + n + a + ">", a + ">";
    assert t == "<" + (n + y);
    assert t[1..] == n + y;
  }

  lemma FirstMark(a: string)
    requires TagRest(a)
    ensures FirstOf(a + ">", {'>'}) == |a|
  {
    FirstOfIs(a + ">", {'>'}, |a|);
  }

  lemma NameSound(n: string)
    requires WordName(n)
    ensures n[0] !in {'?', '!', '/'} && n[|n| - 1] != '/'
  {
    assert !EndsWord(n[0]) && !EndsWord(n[|n| - 1]);
  }

  lemma WordToken1(n: string, y: string)
    requires WordName(n) && y != "" && EndsWord(y[0])
    ensures FindToken(n + y) == Token(true, false, 0, |n| - 1, |n|)
  {
    WordEndsAre();
    var s := n + y;
    FirstNotOfIs(s, SPACES, 0);
    assert s[0..] == s && s[0] == n[0];
    FirstOfIs(s, SPECIALS, |n|);
  }

  /** The end tag of the name `m` ends an element of the name `n` exactly if the names are the same, or
      `m` is what is before a '[' in `n`. */
  lemma CloseIs(n: string, m: string, x: string)
    requires WordName(n) && WordName(m)
    ensures EndTagScan("/" + m + ">" + x, 0, n) == if m == n || m + "[" <= n then TagEnd(1 + |m|) else TagFault(EndTagMismatch(n))
    ensures ValidClose("</" + m + ">", n) <==> m == n || m + "[" <= n
  {
    hide FindToken, Match, EndTagScan, TagStep;
    MatchIs(n, m);
    CloseRead(m, x, n);
    CloseRead(m, "", n);
    var c := "</" + m + ">";
    assert "/" + m + ">" + "" == c[1..];
    SlashCloses(c);
  }

  lemma SlashCloses(c: string)
    requires |c| >= 2 && c[0] == '<' && c[1] == '/'
    ensures TagStep(c) == Close(0)
  {
    hide FindToken, ParseNode;
    assert c[1..][0] == '/';
    FindTokenSpecial(c[1..]);
  }

  lemma MatchIs(n: string, m: string)
    requires WordName(n)
    ensures Match(m, n) <==> m == n || m + "[" <= n
  {
    if Match(m, n) && |m| < |n| {
      assert !EndsWord(n[|m|]);
      assert n[..|m| + 1] == n[..|m|] + [n[|m|]];
    }
    if m + "[" <= n {
      assert n[..|m|] == (m + "[")[..|m|] == m;
      assert n[|m|] == (m + "[")[|m|];
    }
    if m == n { assert n[..|m|] == m; }
  }

  lemma CloseRead(m: string, x: string, n: string)
    requires WordName(m)
    ensures EndTagScan("/" + m + ">" + x, 0, n) == if Match(m, n) then TagEnd(1 + |m|) else TagFault(EndTagMismatch(n))
  {
    hide FindToken, Match, EndTagScan;
    var s, u, v := "/" + m + ">" + x, m + (">" + x), ">" + x;
    assert s == "/" + u;
    FindTokenSpecial(s);
    WordToken1(m, v);
    FindTokenSpecial(v);
    assert s[1..] == u && u[|m|..] == v;
    assert u[0..|m|] == m && u[0] == m[0];
    EndTagCases(s, 0, n);
    EndTagCases(u, 1, n);
    EndTagCases(v, 2, n);
  }

  // ---- Documents

  /** A document of one element with text in it: what is in front of it, its tags, its text and what is
      behind it are told apart; and it is refused exactly if the end tag does not match. */
  lemma ElementReads(g: string, n: string, a: string, d: string, m: string, z: string)
    requires ValidGap(g) && WordName(n) && WordName(m) && TagRest(a) && (a != "" ==> a[|a| - 1] != '/')
    requires forall k :: 0 <= k < |d| ==> d[k] != '<'
    ensures var t, c := "<" + n + a + ">", "</" + m + ">";
      ReadDoc(g + (t + (d + (c + z)))) ==
        if m == n || m + "[" <= n then Read(FullElem(1, g, t, End(d), c, End(z)), |g| + |t| + |d| + |c| + |z|, 2)
        else Bad(EndTagMismatch(n))
  {
    hide *;
    var t, c := "<" + n + a + ">", "</" + m + ">";
    var y := d + (c + z);
    StartIs(n, a);
    GapOpens(g, t, y);
    StartReads(t, y);
    BodyReads(d, m, z, n, 2);
    DocCases(g + (t + y));
    ElementCase(t, y, d, m, z, n);
    TailIs(g, t, d, c, z);
    OneElement(g, t, d, c, z);
  }

  lemma TailIs(g: string, t: string, d: string, c: string, z: string)
    ensures var s, w := g + (t + (d + (c + z))), t + (d + (c + z));
      && s[|g|..] == w && s[..|g|] == g && s[|g| + (|t| + |d| + |c|)..] == z && |s| == |g| + |t| + |d| + |c| + |z|
  {
    assert g + (t + (d + (c + z))) == (g + t + d + c) + z;
  }

  lemma OneElement(g: string, t: string, d: string, c: string, z: string)
    ensures Attach(FullElem(1, "", t, End(d), c, End("")), g, End(z)) == FullElem(1, g, t, End(d), c, End(z))
  {
  }

  /** The text up to an end tag. */
  lemma BodyReads(d: string, m: string, z: string, n: string, free: nat)
    requires WordName(m) && forall k :: 0 <= k < |d| ==> d[k] != '<'
    ensures var y := d + ("</" + m + ">" + z);
      ReadKids(y, free) == Read(End(d), |d|, free) && y[|d| + 1..] == "/" + m + ">" + z
  {
    hide Scan, ReadElem, FindToken, FirstOf, ParseNode, TagStep;
    var x := "</" + m + ">" + z;
    var y := d + x;
    assert x[0] == '<' && x[1] == '/';
    SlashCloses(x);
    PlainThen(d, x);
    HeadOf(x);
    ScanOnce(x);
    assert y[..|d|] == d;
    assert y[|d| + 1..] == x[1..];
    ReadKidsCases(y, free);
  }

  lemma HeadOf(x: string)
    requires x != "" && x[0] == '<'
    ensures HeadStep(x) == TagStep(x).Shift(0)
  {
    hide TagStep, FirstOf;
    FirstOfIs(x, {'<'}, 0);
    assert x[0..] == x;
  }

  lemma ElementCase(t: string, y: string, d: string, m: string, z: string, n: string)
    requires ValidStart(t) && !EmptyTag(t) && WordName(m) && WordName(n)
    requires y == d + ("</" + m + ">" + z) && ReadKids(y, 2) == Read(End(d), |d|, 2) && y[|d| + 1..] == "/" + m + ">" + z
    requires StartEnd(t + y) == |t| - 1 && (t + y)[..|t|] == t && (t + y)[|t|..] == y && TagName(t + y) == n
    ensures ReadElem(t + y, 1) ==
      if m == n || m + "[" <= n then Read(FullElem(1, "", t, End(d), "</" + m + ">", End("")), |t| + |d| + |m| + 3, 2)
      else Bad(EndTagMismatch(n))
  {
    hide *;
    ReadElemCases(t + y, 1);
    StartFacts(t);
    CloseIs(n, m, z);
    CloseAt(t, d, "</" + m + ">", z);
  }

  lemma CloseAt(t: string, d: string, c: string, z: string)
    requires c != ""
    ensures var y := d + (c + z);
      var s := t + y;
      s[|t| + |d| + 1..] == y[|d| + 1..] && s[|t| + |d|..|t| + |d| + |c|] == c
  {
    assert t + (d + (c + z)) == (t + d) + c + z;
  }

  /** A document of an empty element. */
  lemma EmptyReads(g: string, n: string, a: string, z: string)
    requires ValidGap(g) && WordName(n) && TagRest(a + "/")
    ensures var t := "<" + n + (a + "/") + ">";
      ReadDoc(g + (t + z)) == Read(EmptyElem(1, g, t, End(z)), |g| + |t| + |z|, 2)
  {
    hide *;
    var t := "<" + n + (a + "/") + ">";
    SlashLast(a);
    StartIs(n, a + "/");
    GapOpens(g, t, z);
    StartReads(t, z);
    DocCases(g + (t + z));
    ReadElemCases(t + z, 1);
    StartNotLong(t, z);
    TailIs(g, t, "", "", z);
    assert "" + ("" + z) == z;
    OneEmpty(g, t, z);
  }

  lemma SlashLast(a: string)
    ensures (a + "/")[|a + "/"| - 1] == '/' && a + "/" != ""
  {
  }

  lemma StartNotLong(t: string, z: string)
    requires ValidStart(t) && t + z != "" && StartEnd(t + z) == |t| - 1
    ensures t + z != "" && StartEnd(t + z) < |t + z| && StartEnd(t + z) + 1 == |t|
  {
    hide StartEnd, FindToken;
  }

  lemma OneEmpty(g: string, t: string, z: string)
    ensures Attach(EmptyElem(1, "", t, End("")), g, End(z)) == EmptyElem(1, g, t, End(z))
  {
  }

  // ---- Texts that are refused

  /** No tag at all; an end tag for a root; a '<' at the end; a quote behind the '<'. */
  lemma NoRoot(d: string, w: string, x: string)
    requires (forall k :: 0 <= k < |d| ==> d[k] != '<') && (forall k :: 0 <= k < |w| ==> w[k] in {' ', '\t', '\n', '\r'})
    ensures ReadDoc(d) == Bad(ElementTagNotFound)
    ensures ReadDoc("</" + x) == Bad(ElementTagNotFound)
    ensures ReadDoc("<" + w) == Bad(AbruptEnd)
    ensures ReadDoc("<" + (w + ("\"" + x))) == ReadDoc("<" + (w + ("'" + x))) == Bad(TagStartsWithQuote)
  {
    hide ReadElem, Scan, FindToken, FirstOf, ParseNode, TagStep;
    FirstOfIs(d, {'<'}, |d|);
    ScanOnce(d);
    SlashCloses("</" + x);
    OpensWith("</" + x);
    NoToken(w);
    assert ("<" + w)[1..] == w;
    TokenFails("<" + w);
    OpensWith("<" + w);
    QuoteFails(w, "\"", x);
    QuoteFails(w, "'", x);
  }

  lemma OpensWith(s: string)
    requires s != "" && s[0] == '<' && !TagStep(s).Again?
    ensures Scan(s) == match TagStep(s) case Open(at) => Opens(at) case Close(at) => Closes(at) case Fail(at, fault) => Fails(at, fault) case Again(_) => Stuck
  {
    hide TagStep;
    HeadOf(s);
    ScanOnce(s);
  }

  lemma NoToken(w: string)
    requires forall k :: 0 <= k < |w| ==> w[k] in {' ', '\t', '\n', '\r'}
    ensures !FindToken(w).found
  {
    FirstNotOfIs(w, SPACES, |w|);
  }

  lemma TokenFails(s: string)
    requires s != "" && s[0] == '<' && !FindToken(s[1..]).found
    ensures TagStep(s) == Fail(0, AbruptEnd)
  {
    hide FindToken;
  }

  lemma QuoteFails(w: string, q: string, x: string)
    requires (forall k :: 0 <= k < |w| ==> w[k] in {' ', '\t', '\n', '\r'}) && (q == "\"" || q == "'")
    ensures ReadDoc("<" + (w + (q + x))) == Bad(TagStartsWithQuote)
  {
    hide ReadElem, Scan, FirstOf, ParseNode;
    var s, u := "<" + (w + (q + x)), w + (q + x);
    FirstNotOfIs(u, SPACES, |w|);
    assert s[1..] == u && u[|w|] == q[0];
    OpensWith(s);
  }

  /** A start tag that does not end, and an element that does not. */
  lemma NoEnd(g: string, n: string, a: string, d: string)
    requires ValidGap(g) && WordName(n) && TagRest(a) && (a != "" ==> a[|a| - 1] != '/') && forall k :: 0 <= k < |d| ==> d[k] != '<'
    ensures a != "" ==> ReadDoc(g + ("<" + n + a)) == Bad(EndOfTagNotFound)
    ensures ReadDoc(g + ("<" + n + a + ">" + d)) == Bad(ElementTagNotFound)
  {
    hide *;
    var t, u := "<" + n + a + ">", "<" + n + a;
    StartIs(n, a);
    GapOpens(g, t, d);
    StartReads(t, d);
    StartNotLong(t, d);
    DocCases(g + (t + d));
    ReadElemCases(t + d, 1);
    NoKids(d);
    if a != "" {
      UnendedTag(n, a);
      GapThenDoc(g, u);
    }
  }

  lemma NoKids(d: string)
    requires forall k :: 0 <= k < |d| ==> d[k] != '<'
    ensures ReadKids(d, 2) == Bad(ElementTagNotFound)
  {
    hide ReadElem, Scan, FirstOf, ReadKids;
    FirstOfIs(d, {'<'}, |d|);
    ScanOnce(d);
    ReadKidsCases(d, 2);
  }

  lemma UnendedTag(n: string, a: string)
    requires WordName(n) && TagRest(a) && a != ""
    ensures ReadDoc("<" + n + a) == Bad(EndOfTagNotFound)
  {
    hide ReadKids, Scan, FirstOf, ParseNode, FindToken, WordName;
    var u := "<" + n + a;
    assert u == "<" + (n + a);
    assert u[1..] == n + a && u[1..][0] == n[0] && u[1..][|n|..] == a by { NameLong(n); }
    WordToken1(n, a);
    NameSound(n);
    NotMark(n, a);
    assert TagStep(u) == Open(0);
    OpensWith(u);
    assert u[0..] == u && u[1 + |n|..] == a;
    assert StartEnd(u) == |u|;
    ReadElemCases(u, 1);
  }

  lemma NameLong(n: string)
    requires WordName(n)
    ensures n != ""
  {
  }

  lemma NotMark(n: string, a: string)
    requires TagRest(a)
    ensures FirstOf(a, {'>'}) == |a|
  {
    FirstOfIs(a, {'>'}, |a|);
  }

  // ---- Data

  /** The data of an element without markup in it: the text with the entities read. */
  lemma TextData(d: string, x: string)
    requires x != "" && x[0] == '<' && forall k :: 0 <= k < |d| ==> d[k] != '<'
    ensures DataIn(d + x, |d|) == FromDoc(d)
  {
    hide FindToken, FindStr, FromDoc;
    var s := d + x;
    assert s[..|d|] == d;
    var t := FindToken(s);
    assert t.l < |d| ==> s[t.l] == d[t.l];
  }

  /** If it begins with a CDATA section, the data are what is in the section; what is behind it is not
      looked at. */
  lemma CDataData(w: string, c: string, y: string, x: string)
    requires BlankGap(w) && Nowhere(c, "]]>")
    ensures var d := w + ("<![CDATA[" + (c + ("]]>" + y)));
      DataIn(d + x, |d|) == c
  {
    hide FindToken, FindStr, FromDoc, CData, DataIn, Nowhere;
    var d := w + ("<![CDATA[" + (c + ("]]>" + y)));
    var s := d + x;
    NoMark(c);
    assert s == w + (CData(c) + (y + x)) by { CDataText(w, c, y, x); }
    CDataToken(w, c, y + x);
    CDataEnds(c);
    FindStrExtends(CData(c), y + x, "]]>");
    var u := CData(c) + (y + x);
    FindStrTail(u, "]]>");
    SectionIs(w, c, y + x);
    DataOfSection(s, |w|, |d|, |c|);
  }

  predicate BlankGap(w: string) { forall k :: 0 <= k < |w| ==> w[k] in {' ', '\t', '\n', '\r'} }

  lemma NoMark(c: string)
    requires Nowhere(c, "]]>")
    ensures FindStr(c, "]]>") == -1
  {
    hide FindStr;
    var k := FindStr(c, "]]>");
    if k >= 0 { Begins(c, "]]>", k); }
  }

  lemma CDataText(w: string, c: string, y: string, x: string)
    ensures w + ("<![CDATA[" + (c + ("]]>" + y))) + x == w + (CData(c) + (y + x))
    ensures |w + ("<![CDATA[" + (c + ("]]>" + y)))| == |w| + 12 + |c| + |y|
  {
    assert "<![CDATA[" + (c + ("]]>" + y)) == ("<![CDATA[" + (c + "]]>")) + y;
  }

  lemma CDataToken(w: string, c: string, r: string)
    requires BlankGap(w)
    ensures FindToken(w + (CData(c) + r)) == Token(true, false, |w|, |w|, |w| + 1)
  {
    hide FirstOf, FirstNotOf;
    var u := CData(c) + r;
    assert u == ['<'] + u[1..] by { assert u[0] == '<'; }
    SpecialToken(w, '<', u[1..]);
  }

  lemma SectionIs(w: string, c: string, r: string)
    ensures var s := w + (CData(c) + r);
      && |w| + 12 + |c| <= |s| && s[|w|] == '<' && s[|w| + 1..|w| + 9] == "![CDATA[" && s[|w| + 9..|w| + 9 + |c|] == c
      && s[|w| + 1..] == (CData(c) + r)[1..]
  {
    CDataHead(c, r);
    var u := CData(c) + r;
    assert u == "<![CDATA[" + (c + ("]]>" + r)) by { assert ("<![CDATA[" + (c + "]]>")) + r == "<![CDATA[" + (c + ("]]>" + r)); }
    Slid(w, u, 1, 9);
    Slid(w, u, 9, 9 + |c|);
    assert u[9..9 + |c|] == c;
  }

  lemma Slid(w: string, u: string, i: nat, j: nat)
    requires i <= j <= |u|
    ensures (w + u)[|w| + i..|w| + j] == u[i..j]
  {
  }

  lemma DataOfSection(s: string, l: nat, n: nat, k: nat)
    requires l + 12 + k <= n <= |s| && FindToken(s) == Token(true, false, l, l, l + 1)
    requires s[l] == '<' && s[l + 1..l + 9] == "![CDATA[" && FindStr(s[l + 1..], "]]>") == 8 + k
    ensures DataIn(s, n) == s[l + 9..l + 9 + k]
  {
    hide FindToken, FindStr, FromDoc;
  }

  /** Otherwise markup in the data is data: a comment, or a CDATA section behind other text. */
  lemma MarkupData(w: string, y: string, x: string)
    requires BlankGap(w) && y != "" && y[0] !in {' ', '\t', '\n', '\r', '\"', '\''} && !("<![CDATA[" <= y)
    requires x != "" && x[0] == '<'
    ensures DataIn(w + y + x, |w + y|) == FromDoc(w + y)
  {
    hide FindStr, FromDoc, FirstOf, FirstNotOf;
    var d, s := w + y, w + y + x;
    assert s[..|d|] == d;
    FirstNotOfIs(s, SPACES, |w|);
    assert s[|w|] == y[0];
    assert FindToken(s).l == |w|;
    if |w| + 11 < |d| && s[|w|] == '<' {
      NotSection(w, y, x);
    }
  }

  lemma NotSection(w: string, y: string, x: string)
    requires |y| > 11 && y[0] == '<' && !("<![CDATA[" <= y)
    ensures (w + y + x)[|w| + 1..|w| + 9] != "![CDATA["
  {
    assert w + y + x == w + (y + x);
    Slid(w, y + x, 1, 9);
    assert (y + x)[1..9] == y[1..9];
    assert y[..9] == ['<'] + y[1..9];
    assert ['<'] + "![CDATA[" == "<![CDATA[";
  }

  // ---- Attributes

  /** A tag as its words, marks and quoted texts, each with the white space before it. */
  datatype Lexeme = Word(ws: string, text: string) | Mark(ws: string, c: char) | Quoted(ws: string, q: char, raw: string)

  predicate LexemeOk(l: Lexeme) {
    BlankGap(l.ws) &&
    match l
    case Word(_, text) => WordName(text)
    case Mark(_, c) => EndsWord(c) && c !in {' ', '\t', '\n', '\r'}
    case Quoted(_, q, raw) => q in {'\"', '\''} && forall k :: 0 <= k < |raw| ==> raw[k] != q
  }

  function LexemeText(l: Lexeme): string {
    match l
    case Word(ws, text) => ws + text
    case Mark(ws, c) => ws + [c]
    case Quoted(ws, q, raw) => ws + ([q] + (raw + [q]))
  }

  /** A word ends where white space or a mark comes; the last lexeme is no word. */
  predicate LexemesOk(list: seq<Lexeme>) {
    forall k :: 0 <= k < |list| ==> LexemeOk(list[k]) && (list[k].Word? ==> Ended(list[k + 1..]))
  }

  predicate Ended(list: seq<Lexeme>) { list != [] && (list[0].ws != "" || list[0].Mark?) }

  function LexemesText(list: seq<Lexeme>): string {
    if list == [] then "" else LexemeText(list[0]) + LexemesText(list[1..])
  }

  predicate EndMark(l: Lexeme) { l.Mark? && (l.c == '>' || l.c == '/') }

  /** The first word of that name before the end of the tag; none: the length of the list. */
  function NamedAt(list: seq<Lexeme>, name: string): (i: nat)
    ensures i <= |list|
    ensures i < |list| ==> list[i].Word? && list[i].text == name && forall k :: 0 <= k < i ==> !EndMark(list[k])
  {
    if list == [] || EndMark(list[0]) then |list|
    else if list[0].Word? && list[0].text == name then 0
    else 1 + NamedAt(list[1..], name)
  }

  /** Its value: the quoted text two places behind it, whatever is in between but the end of the tag. */
  function ValueIn(list: seq<Lexeme>, name: string): Option<string> {
    var i := NamedAt(list, name);
    if i + 2 < |list| && !EndMark(list[i + 1]) && list[i + 2].Quoted? then Some(list[i + 2].raw) else None
  }

  lemma LexemeToken(l: Lexeme, y: string)
    requires LexemeOk(l) && (l.Word? ==> y != "" && EndsWord(y[0]))
    ensures var t, s, n := FindToken(LexemeText(l) + y), LexemeText(l) + y, |LexemeText(l)|;
      && t.found && t.next == n && s[n..] == y && (t.isString <==> l.Quoted?)
      && (l.Word? ==> t.l < n && s[t.l..n] == l.text && s[t.l] == l.text[0])
      && (l.Mark? ==> t.l < n && s[t.l] == l.c && s[t.l..n] == [l.c])
      && (l.Quoted? ==> t.l <= t.r + 1 <= |s| && s[t.l..t.r + 1] == l.raw)
  {
    hide FindToken, WordName;
    BlanksAre();
    match l
    case Word(ws, text) =>
      WordIsPlain(text);
      WordEndsAre();
      BareWord(ws, text, y);
    case Mark(ws, c) =>
      WordEndsAre();
      assert ws + [c] + y == ws + ([c] + y);
      SpecialToken(ws, c, y);
    case Quoted(ws, q, raw) =>
      QuotedAt(ws, q, raw, y);
  }

  lemma QuotedAt(ws: string, q: char, raw: string, y: string)
    requires Spaces(ws) && q in {'\"', '\''} && forall k :: 0 <= k < |raw| ==> raw[k] != q
    ensures var s := ws + ([q] + (raw + [q])) + y;
      && FindToken(s) == Token(true, true, |ws| + 1, |ws| + |raw|, |ws| + |raw| + 2)
      && s[|ws| + 1..|ws| + |raw| + 1] == raw && s[|ws| + |raw| + 2..] == y
  {
    hide FindToken;
    var s := ws + ([q] + (raw + [q])) + y;
    assert s == ws + ([q] + (raw + ([q] + y)));
    QuotedToken(ws, q, raw, y);
    assert s == (ws + [q]) + (raw + ([q] + y));
    Slid(ws + [q], raw + ([q] + y), 0, |raw|);
    assert s == (ws + ([q] + (raw + [q]))) + y;
  }

  lemma BlanksAre()
    ensures forall w :: BlankGap(w) <==> Spaces(w)
  {
  }

  lemma WordIsPlain(n: string)
    requires WordName(n)
    ensures n != "" && n[0] !in {'\"', '\''} && forall k :: 0 <= k < |n| ==> n[k] !in SPECIALS
  {
    WordEndsAre();
  }

  lemma BareWord(ws: string, n: string, y: string)
    requires Spaces(ws) && n != "" && n[0] !in {'\"', '\''} && (forall k :: 0 <= k < |n| ==> n[k] !in SPECIALS) && y != "" && y[0] in SPECIALS
    ensures FindToken(ws + n + y) == Token(true, false, |ws|, |ws| + |n| - 1, |ws| + |n|)
    ensures (ws + n + y)[|ws|..|ws| + |n|] == n && (ws + n + y)[|ws|] == n[0] && (ws + n + y)[|ws| + |n|..] == y
  {
    var s := ws + n + y;
    assert s == ws + (n + y);
    FirstNotOfIs(s, SPACES, |ws|);
    assert s[|ws|..] == n + y;
    FirstOfIs(n + y, SPECIALS, |n|);
  }

  lemma EndedText(list: seq<Lexeme>)
    requires Ended(list) && LexemeOk(list[0])
    ensures LexemesText(list) != "" && EndsWord(LexemesText(list)[0])
  {
    var l := list[0];
    assert LexemeText(l)[0] == if l.ws != "" then l.ws[0] else l.c;
  }

  lemma RestOk(list: seq<Lexeme>)
    requires LexemesOk(list) && list != []
    ensures LexemesOk(list[1..]) && LexemeOk(list[0]) && (list[0].Word? ==> Ended(list[1..]) && LexemeOk(list[1..][0]))
  {
    forall k | 0 <= k < |list[1..]|
      ensures LexemeOk(list[1..][k]) && (list[1..][k].Word? ==> Ended(list[1..][k + 1..]))
    {
      assert list[1..][k] == list[k + 1] && list[1..][k + 1..] == list[k + 2..];
    }
    if list[0].Word? { assert Ended(list[1..]); }
  }

  /** The first lexeme of a list. */
  lemma HeadLexeme(list: seq<Lexeme>)
    requires LexemesOk(list) && list != []
    ensures LexemesOk(list[1..]) && LexemeOk(list[0])
    ensures var s, l, y := LexemesText(list), list[0], LexemesText(list[1..]);
      var t, n := FindToken(s), |LexemeText(l)|;
      && s == LexemeText(l) + y && n <= |s| && t.found && t.next == n && s[n..] == y && (t.isString <==> l.Quoted?)
      && (l.Word? ==> t.l < n && s[t.l..n] == l.text && s[t.l] == l.text[0])
      && (l.Mark? ==> t.l < n && s[t.l] == l.c && s[t.l..n] == [l.c])
      && (l.Quoted? ==> t.l <= t.r + 1 <= |s| && s[t.l..t.r + 1] == l.raw)
  {
    hide FindToken, LexemeOk, LexemeText, LexemesOk, Ended;
    RestOk(list);
    if list[0].Word? { EndedText(list[1..]); }
    LexemeToken(list[0], LexemesText(list[1..]));
  }

  predicate TagCloses(l: Lexeme) { l.Mark? && l.c == '>' }

  /** Whatever stands in an end tag behind the name, it ends at its first '>' that is not in quotes. */
  lemma {:induction false} EndTagTail(list: seq<Lexeme>, x: string, count: nat, n: string)
    requires LexemesOk(list) && TagEnds(list) && count >= 2
    ensures EndTagScan(LexemesText(list) + x, count, n) == TagEnd(|LexemesText(list)| - 1)
    decreases |list|
  {
    hide EndTagScan, FindToken, LexemesOk, LexemeText, WordName, Match;
    var s, y := LexemesText(list) + x, LexemesText(list[1..]) + x;
    LexemeAhead(list, x);
    EndTagCases(s, count, n);
    if |list| > 1 {
      RestOk(list);
      EndTagTail(list[1..], x, count + 1, n);
      if list[0].Word? { WordHead1(list, list[0]); }
    } else {
      NothingText();
      assert list[1..] == [];
    }
  }

  /** The first lexeme of a list, with any text behind the list. */
  lemma LexemeAhead(list: seq<Lexeme>, x: string)
    requires LexemesOk(list) && list != []
    ensures var s, l, y := LexemesText(list) + x, list[0], LexemesText(list[1..]) + x;
      var t, n := FindToken(s), |LexemeText(l)|;
      && s == LexemeText(l) + y && n <= |s| && t.found && t.next == n && s[n..] == y && (t.isString <==> l.Quoted?)
      && (l.Word? ==> t.l < n && s[t.l..n] == l.text && s[t.l] == l.text[0])
      && (l.Mark? ==> t.l < n && s[t.l] == l.c && t.l == n - 1)
      && |LexemesText(list)| == n + |LexemesText(list[1..])|
  {
    hide *;
    var l, z := list[0], LexemesText(list[1..]);
    RestOk(list);
    LexemesOnce(list);
    if l.Word? { EndedText(list[1..]); }
    Onto(LexemeText(l), z, x);
    LexemeToken(l, z + x);
    if l.Mark? { MarkWidth(l, z + x); }
  }

  lemma LexemesOnce(list: seq<Lexeme>)
    ensures list == [] ==> LexemesText(list) == ""
    ensures list != [] ==> LexemesText(list) == LexemeText(list[0]) + LexemesText(list[1..])
  {
    hide LexemeText;
  }

  lemma Onto(a: string, b: string, x: string)
    ensures (a + b) + x == a + (b + x) && (b != "" ==> b + x != "" && (b + x)[0] == b[0])
  {
  }

  lemma MarkWidth(l: Lexeme, y: string)
    requires l.Mark? && LexemeOk(l)
    ensures FindToken(LexemeText(l) + y).l == |LexemeText(l)| - 1
  {
    hide FindToken;
    BlanksAre();
    WordEndsAre();
    assert l.ws + [l.c] + y == l.ws + ([l.c] + y);
    SpecialToken(l.ws, l.c, y);
  }

  /** The end of a list of lexemes that is an end tag. */
  predicate TagEnds(list: seq<Lexeme>) {
    list != [] && TagCloses(list[|list| - 1]) && forall k :: 0 <= k < |list| - 1 ==> !TagCloses(list[k])
  }

  /** An end tag, with white space or anything else around its name. */
  lemma LongEndTag(all: seq<Lexeme>, x: string, n: string)
    requires WordName(n) && LexemesOk(all) && |all| > 2 && all[0].Mark? && all[0].c == '/' && all[1].Word? && TagEnds(all[2..])
    ensures var m := all[1].text;
      EndTagScan(LexemesText(all) + x, 0, n) ==
        if m == n || m + "[" <= n then TagEnd(|LexemesText(all)| - 1) else TagFault(EndTagMismatch(n))
  {
    hide *;
    LexemeAhead(all, x);
    RestOk(all);
    assert all[1..][1..] == all[2..] && all[1..][0] == all[1];
    NameThen(all[1..], x, n);
    EndTagCases(LexemesText(all) + x, 0, n);
  }

  lemma NameThen(all: seq<Lexeme>, x: string, n: string)
    requires WordName(n) && LexemesOk(all) && |all| > 1 && all[0].Word? && TagEnds(all[1..])
    ensures var m := all[0].text;
      EndTagScan(LexemesText(all) + x, 1, n) ==
        if m == n || m + "[" <= n then TagEnd(|LexemesText(all)| - 1) else TagFault(EndTagMismatch(n))
  {
    hide *;
    LexemeAhead(all, x);
    RestOk(all);
    WordHead1(all, all[0]);
    MatchIs(n, all[0].text);
    EndTagCases(LexemesText(all) + x, 1, n);
    EndTagTail(all[1..], x, 2, n);
  }

  /** What is found is the value, or nothing. */
  ghost predicate Finds(s: string, r: Option<Token>, v: Option<string>) {
    if v.Some? then r.Some? && r.value.l <= r.value.r + 1 <= |s| && s[r.value.l..r.value.r + 1] == v.value else r == None
  }

  lemma FindsShifted(s: string, n: nat, r: Option<Token>, v: Option<string>)
    requires n <= |s| && Finds(s[n..], r, v)
    ensures Finds(s, if r.Some? then Some(r.value.Shift(n)) else None, v)
  {
    if v.Some? { assert s[n..][r.value.l..r.value.r + 1] == s[n + r.value.l..n + (r.value.r + 1)]; }
  }

  lemma FindCases(s: string, name: string, count: nat, attrib: nat)
    ensures var t, r := FindToken(s), FindAttrib(s, name, count, attrib);
      && (!t.found ==> r == None)
      && (t.found ==>
            var step := StepAttrib(s, t, name, count, attrib);
            && (step.Miss? ==> r == None) && (step.Hit? ==> r == Some(t))
            && (step.Go? ==>
                  var u := FindAttrib(s[t.next..], name, count + 1, step.attrib);
                  r == if u.Some? then Some(u.value.Shift(t.next)) else None))
  {
    hide FindToken, StepAttrib;
  }

  lemma FindNothing(name: string, count: nat, attrib: nat)
    ensures FindAttrib("", name, count, attrib) == None
  {
    hide FindAttrib, StepAttrib, FindToken;
    FindCases("", name, count, attrib);
    NoToken("");
  }

  /** The step over one lexeme. */
  lemma LexemeStep(list: seq<Lexeme>, name: string, count: nat, attrib: nat)
    requires LexemesOk(list) && list != [] && PlainName(name) && count > 0
    ensures var s, l := LexemesText(list), list[0];
      && FindToken(s).found
      && StepAttrib(s, FindToken(s), name, count, attrib) ==
           if l.Quoted? then (if attrib != 0 && count == attrib + 2 then Hit else Go(attrib))
           else if EndMark(l) then Miss
           else if attrib == 0 && l.Word? && l.text == name then Go(count) else Go(attrib)
  {
    hide FindToken, LexemesOk, LexemesText, LexemeText, WordName, PlainName, Match, LexemeOk;
    HeadLexeme(list);
    var s, l := LexemesText(list), list[0];
    if l.Word? {
      WordHead1(list, l);
      MatchPlain(l.text, name);
      NameGiven(name);
    } else if l.Mark? {
      MatchPlain([l.c], name);
      NameGiven(name);
      MarkHead(list, l);
    }
  }

  lemma WordHead1(list: seq<Lexeme>, l: Lexeme)
    requires LexemesOk(list) && list != [] && l == list[0] && l.Word?
    ensures l.text != "" && l.text[0] !in {'>', '/', '='}
  {
    hide Ended;
    assert LexemeOk(list[0]);
    assert !EndsWord(l.text[0]);
  }

  lemma MarkHead(list: seq<Lexeme>, l: Lexeme)
    requires LexemesOk(list) && list != [] && l == list[0] && l.Mark?
    ensures EndsWord(l.c)
  {
    hide Ended;
    assert LexemeOk(list[0]);
  }

  lemma NameGiven(name: string)
    requires PlainName(name)
    ensures name != "" && forall c :: EndsWord(c) ==> [c] != name
  {
    WordEndsAre();
    assert name[0] !in SPECIALS;
    forall c | EndsWord(c)
      ensures [c] != name
    {
      assert [c][0] == c;
    }
  }

  /** When the value was due and was no quoted text, nothing is found. */
  lemma {:induction false} NothingFound(list: seq<Lexeme>, name: string, count: nat, attrib: nat)
    requires LexemesOk(list) && PlainName(name) && attrib > 0 && count > attrib + 2
    ensures FindAttrib(LexemesText(list), name, count, attrib) == None
    decreases |list|
  {
    hide *;
    if list == [] {
      NothingText();
      FindNothing(name, count, attrib);
    } else {
      HeadLexeme(list);
      LexemeStep(list, name, count, attrib);
      FindCases(LexemesText(list), name, count, attrib);
      NothingFound(list[1..], name, count + 1, attrib);
    }
  }

  lemma NothingText()
    ensures LexemesText([]) == ""
  {
  }

  /** Behind the name: the lexeme that is passed over, and the value. */
  lemma ValueFound(list: seq<Lexeme>, name: string, count: nat)
    requires LexemesOk(list) && PlainName(name) && count > 0
    ensures var v := if 1 < |list| && !EndMark(list[0]) && list[1].Quoted? then Some(list[1].raw) else None;
      Finds(LexemesText(list), FindAttrib(LexemesText(list), name, count + 1, count), v)
  {
    hide FindAttrib, StepAttrib, FindToken, LexemesOk, LexemesText, LexemeText, LexemeOk, PlainName, Finds;
    var s := LexemesText(list);
    if list == [] {
      NothingText();
      FindNothing(name, count + 1, count);
      FoundNone(s);
    } else {
      HeadLexeme(list);
      LexemeStep(list, name, count + 1, count);
      FindCases(s, name, count + 1, count);
      FoundNone(s);
      if !EndMark(list[0]) {
        SecondFound(list[1..], name, count);
        FindsShifted(s, |LexemeText(list[0])|, FindAttrib(LexemesText(list[1..]), name, count + 2, count),
                     if list[1..] != [] && list[1..][0].Quoted? then Some(list[1..][0].raw) else None);
      }
    }
  }

  lemma FoundNone(s: string)
    ensures Finds(s, None, None)
  {
  }

  lemma SecondFound(list: seq<Lexeme>, name: string, count: nat)
    requires LexemesOk(list) && PlainName(name) && count > 0
    ensures var v := if list != [] && list[0].Quoted? then Some(list[0].raw) else None;
      Finds(LexemesText(list), FindAttrib(LexemesText(list), name, count + 2, count), v)
  {
    hide FindAttrib, FindToken, StepAttrib, LexemesOk, LexemesText, LexemeText, LexemeOk, PlainName;
    var s := LexemesText(list);
    if list == [] {
      NothingText();
      FindNothing(name, count + 2, count);
    } else {
      HeadLexeme(list);
      LexemeStep(list, name, count + 2, count);
      FindCases(s, name, count + 2, count);
      NothingFound(list[1..], name, count + 3, count);
    }
  }

  lemma {:induction false} NamedFound(list: seq<Lexeme>, name: string, count: nat)
    requires LexemesOk(list) && PlainName(name) && count > 0
    ensures Finds(LexemesText(list), FindAttrib(LexemesText(list), name, count, 0), ValueIn(list, name))
    decreases |list|
  {
    hide FindAttrib, FindToken, StepAttrib, LexemesOk, LexemesText, LexemeText, LexemeOk, PlainName, Finds, NamedAt;
    var s := LexemesText(list);
    NamedOnce(list, name);
    FoundNone(s);
    if list == [] {
      NothingText();
      FindNothing(name, count, 0);
    } else {
      HeadLexeme(list);
      LexemeStep(list, name, count, 0);
      FindCases(s, name, count, 0);
      var n, rest := |LexemeText(list[0])|, list[1..];
      if EndMark(list[0]) {
      } else if list[0].Word? && list[0].text == name {
        ValueFound(rest, name, count);
        FindsShifted(s, n, FindAttrib(LexemesText(rest), name, count + 1, count),
                     if 1 < |rest| && !EndMark(rest[0]) && rest[1].Quoted? then Some(rest[1].raw) else None);
      } else {
        NamedFound(rest, name, count + 1);
        FindsShifted(s, n, FindAttrib(LexemesText(rest), name, count + 1, 0), ValueIn(rest, name));
      }
    }
  }

  lemma NamedOnce(list: seq<Lexeme>, name: string)
    ensures NamedAt(list, name) ==
      if list == [] || EndMark(list[0]) then |list| else if list[0].Word? && list[0].text == name then 0 else 1 + NamedAt(list[1..], name)
    ensures list != [] && !EndMark(list[0]) && !(list[0].Word? && list[0].text == name) ==> ValueIn(list, name) == ValueIn(list[1..], name)
  {
    hide EndMark;
  }

  /** x_GetAttrib on any start tag, also one that is not made of pairs: the first word of the name behind
      the tag's own, and the quoted text two places behind that word; nothing, if it is not there. */
  lemma AttribIs(list: seq<Lexeme>, name: string)
    requires LexemesOk(list) && list != [] && list[0].Word? && PlainName(name)
    ensures var v := ValueIn(list[1..], name);
      AttribOf("<" + LexemesText(list), name) == if v.Some? then FromDoc(v.value) else ""
  {
    hide FindAttrib, FindToken, FromDoc, LexemesOk, LexemesText, LexemeText, LexemeOk, PlainName, Finds, ValueIn, WordName;
    var s := LexemesText(list);
    var t := "<" + s;
    assert t[1..] == s;
    HeadLexeme(list);
    WordHead1(list, list[0]);
    FindCases(s, name, 0, 0);
    NamedFound(list[1..], name, 1);
    FindsShifted(s, |LexemeText(list[0])|, FindAttrib(LexemesText(list[1..]), name, 1, 0), ValueIn(list[1..], name));
    FoundIs(s, FindAttrib(s, name, 0, 0), ValueIn(list[1..], name));
  }

  lemma FoundIs(s: string, r: Option<Token>, v: Option<string>)
    requires Finds(s, r, v)
    ensures v.None? ==> r == None
    ensures v.Some? ==> r.Some? && r.value.l <= r.value.r + 1 <= |s| && s[r.value.l..r.value.r + 1] == v.value
  {
  }

  /** x_SetAttrib on any start tag: the escaped value in place of the old one, whose quotes stay; or, if
      there is none, a blank, the name, '=' and the value in double quotes before the end of the tag. */
  lemma SetTagText(t: string, name: string, value: string) returns (p: string, raw: string, q: string)
    requires |t| >= 2 && t[|t| - 1] == '>'
    ensures t == p + raw + q
    ensures FindAttrib(t[1..], name, 0, 0).Some? ==>
      FromDoc(raw) == AttribOf(t, name) && SetTag(t, EmptyTag(t), name, value) == p + ToDoc(value, true) + q
    ensures FindAttrib(t[1..], name, 0, 0).None? ==>
      && raw == "" && q == (if t[|t| - 2] == '/' then "/>" else ">")
      && SetTag(t, EmptyTag(t), name, value) == p + (" " + name + "=\"" + ToDoc(value, true) + "\"") + q
  {
    hide *;
    SetTagCases(t, EmptyTag(t), name, value);
    if FindAttrib(t[1..], name, 0, 0).Some? {
      var k := FindAttrib(t[1..], name, 0, 0).value;
      CutInside(t, k.l, k.r + 1);
      p, raw, q := t[..1 + k.l], t[1 + k.l..2 + k.r], t[2 + k.r..];
      ReadValue(t, name);
    } else {
      var n := TagTail(t, EmptyTag(t));
      CutBefore(t);
      PairIs(name, value);
      p, raw, q := t[..n], "", t[n..];
    }
  }

  lemma PairIs(name: string, value: string)
    ensures Pair(name, value) == " " + name + "=\"" + ToDoc(value, true) + "\""
  {
    hide ToDoc;
  }

  lemma ReadValue(t: string, name: string)
    requires t != "" && FindAttrib(t[1..], name, 0, 0).Some?
    ensures var k := FindAttrib(t[1..], name, 0, 0).value;
      k.l <= k.r + 1 <= |t[1..]| && AttribOf(t, name) == FromDoc(t[1..][k.l..k.r + 1])
  {
    hide FindAttrib, FromDoc;
    FindAttribKind(t[1..], name, 0, 0);
  }

  lemma CutInside(t: string, i: nat, j: nat)
    requires i <= j && 1 + j <= |t|
    ensures t == t[..1 + i] + t[1 + i..1 + j] + t[1 + j..] && t[1..][i..j] == t[1 + i..1 + j]
  {
  }

  lemma CutBefore(t: string)
    requires |t| >= 2 && t[|t| - 1] == '>'
    ensures var n := TagTail(t, EmptyTag(t));
      n <= |t| && t == t[..n] + "" + t[n..] && t[n..] == (if t[|t| - 2] == '/' then "/>" else ">")
  {
  }
}
