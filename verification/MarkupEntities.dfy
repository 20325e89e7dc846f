/** Character data and attribute values: the five predefined entities of section 4.6 of
    XML 1.0, as x_TextToDoc writes them and x_TextFromDoc reads them. */
module MarkupEntities {
  import opened MarkupText

  /** The characters that x_TextToDoc replaces; quotes only in attribute values. */
  predicate Replaced(c: char, attrib: bool) {
    c == '<' || c == '&' || c == '>' || (attrib && (c == '\'' || c == '\"'))
  }

  /** What follows the '&'. */
  function Code(c: char): string {
    match c
    case '<' => "lt;"
    case '&' => "amp;"
    case '>' => "gt;"
    case '\'' => "apos;"
    case _ => "quot;"
  }

  function Escape(c: char, attrib: bool): string {
    if Replaced(c, attrib) then "&" + Code(c) else [c]
  }

  function ToDoc(s: string, attrib: bool): string {
    if s == "" then "" else ToDoc(s[..|s| - 1], attrib) + Escape(s[|s| - 1], attrib)
  }

  const SYMBOLS := ['<', '&', '>', '\'', '\"']

  /** The code that follows an '&' at the start of `s`. */
  predicate Coded(s: string, c: char) {
    |Code(c)| <= |s| - 1 && s[1..1 + |Code(c)|] == Code(c)
  }

  /** The character that the start of `s` stands for, and how many characters it takes. */
  function Unescape(s: string): (r: (char, nat))
    requires s != ""
    ensures 1 <= r.1 <= |s|
  {
    if s[0] != '&' then (s[0], 1)
    else if Coded(s, '<') then ('<', 4)
    else if Coded(s, '&') then ('&', 5)
    else if Coded(s, '>') then ('>', 4)
    else if Coded(s, '\'') then ('\'', 6)
    else if Coded(s, '\"') then ('\"', 6)
    else ('&', 1)
  }

  function FromDoc(s: string): string
    decreases |s|
  {
    if s == "" then "" else [Unescape(s).0] + FromDoc(s[Unescape(s).1..])
  }

  /** x_TextToDoc. */
  method TextToDoc(szText: string, bAttrib: bool) returns (strResult: string)
    ensures strResult == ToDoc(szText, bAttrib)
  {
    strResult := "";
    var nSource := 0;
    while nSource < |szText|
      invariant 0 <= nSource <= |szText|
      invariant strResult == ToDoc(szText[..nSource], bAttrib)
    {
      var cSource := szText[nSource];
      assert szText[..nSource + 1][..nSource] == szText[..nSource];
      if Replaced(cSource, bAttrib) {
        strResult := strResult + ("&" + Code(cSource));
      } else {
        strResult := strResult + [cSource];
      }
      nSource := nSource + 1;
    }
    assert szText[..nSource] == szText;
  }

  /** The part of x_TextFromDoc that looks for the code after the '&' at `nChar`. */
  method MatchCode(doc: string, nChar: nat, nRight: int) returns (cSource: char, width: nat)
    requires nChar <= nRight < |doc| && doc[nChar] == '&'
    ensures (cSource, width) == Unescape(doc[nChar..nRight + 1])
  {
    ghost var s := doc[nChar..nRight + 1];
    var nMatch := 0;
    while nMatch < 5
      invariant 0 <= nMatch <= 5
      invariant forall m :: 0 <= m < nMatch ==> !Coded(s, SYMBOLS[m])
    {
      var code := Code(SYMBOLS[nMatch]);
      CodedIn(doc, nChar, nRight, SYMBOLS[nMatch]);
      if nChar <= nRight - |code| && doc[nChar + 1..nChar + 1 + |code|] == code {
        CodedAt(s, nMatch);
        return SYMBOLS[nMatch], 1 + |code|;
      }
      nMatch := nMatch + 1;
    }
    NotCoded(s);
    cSource, width := '&', 1;
  }

  lemma CodedIn(doc: string, nChar: nat, nRight: int, c: char)
    requires nChar <= nRight < |doc|
    ensures Coded(doc[nChar..nRight + 1], c)
       <==> nChar <= nRight - |Code(c)| && doc[nChar + 1..nChar + 1 + |Code(c)|] == Code(c)
  {
    if nChar <= nRight - |Code(c)| {
      SliceOfSlice(doc, nChar, nRight + 1, 1, 1 + |Code(c)|);
    }
  }

  lemma CodedHead(s: string, c: char)
    requires Coded(s, c)
    ensures s[1] == Code(c)[0] && s[2] == Code(c)[1]
  {
    assert s[1..1 + |Code(c)|][0] == s[1] && s[1..1 + |Code(c)|][1] == s[2];
  }

  lemma CodedAt(s: string, m: nat)
    requires m < 5 && s != "" && s[0] == '&' && Coded(s, SYMBOLS[m])
    ensures Unescape(s) == (SYMBOLS[m], 1 + |Code(SYMBOLS[m])|)
  {
    CodedHead(s, SYMBOLS[m]);
    if Coded(s, '<') { CodedHead(s, '<'); }
    if Coded(s, '&') { CodedHead(s, '&'); }
    if Coded(s, '>') { CodedHead(s, '>'); }
    if Coded(s, '\'') { CodedHead(s, '\''); }
  }

  lemma NotCoded(s: string)
    requires s != "" && s[0] == '&' && forall m :: 0 <= m < 5 ==> !Coded(s, SYMBOLS[m])
    ensures Unescape(s) == ('&', 1)
  {
    hide Coded;
    assert !Coded(s, SYMBOLS[0]) && !Coded(s, SYMBOLS[1]) && !Coded(s, SYMBOLS[2]);
    assert !Coded(s, SYMBOLS[3]) && !Coded(s, SYMBOLS[4]);
  }

  /** x_TextFromDoc over the characters from `nLeft` to `nRight`. */
  method TextFromDoc(doc: string, nLeft: nat, nRight: int) returns (strResult: string)
    requires nLeft <= nRight + 1 <= |doc|
    ensures strResult == FromDoc(doc[nLeft..nRight + 1])
  {
    hide Unescape, FromDoc;
    strResult := "";
    ReadsNothing();
    assert "" + FromDoc(doc[nLeft..nRight + 1]) == FromDoc(doc[nLeft..nRight + 1]);
    var nChar := nLeft;
    while nChar <= nRight
      invariant nLeft <= nChar <= nRight + 1
      invariant strResult + FromDoc(doc[nChar..nRight + 1]) == FromDoc(doc[nLeft..nRight + 1])
    {
      ghost var s := doc[nChar..nRight + 1];
      var cSource := doc[nChar];
      var width := 1;
      if cSource == '&' {
        cSource, width := MatchCode(doc, nChar, nRight);
      } else {
        PlainReads(s);
      }
      FromDocOnce(s);
      FromAt(doc, nChar, nRight, width, strResult, cSource);
      strResult := strResult + [cSource];
      nChar := nChar + width;
    }
    assert doc[nChar..nRight + 1] == "";
    assert strResult + "" == strResult;
  }

  lemma FromAt(doc: string, nChar: nat, nRight: int, width: nat, read: string, c: char)
    requires nChar + width <= nRight + 1 <= |doc|
    ensures doc[nChar..nRight + 1][width..] == doc[nChar + width..nRight + 1]
    ensures read + ([c] + FromDoc(doc[nChar + width..nRight + 1])) == (read + [c]) + FromDoc(doc[nChar + width..nRight + 1])
  {
    hide FromDoc;
  }

  lemma FromDocOnce(s: string)
    ensures s != "" ==> FromDoc(s) == [Unescape(s).0] + FromDoc(s[Unescape(s).1..])
  {
    hide Unescape;
  }

  lemma PlainReads(s: string)
    requires s != "" && s[0] != '&'
    ensures Unescape(s) == (s[0], 1)
  {
  }

  lemma EscapeReads(c: char, attrib: bool, x: string)
    ensures Unescape(Escape(c, attrib) + x) == (c, |Escape(c, attrib)|)
  {
    var s := Escape(c, attrib) + x;
    if Replaced(c, attrib) {
      assert s[1..1 + |Code(c)|] == Code(c);
      var m := if c == '<' then 0 else if c == '&' then 1 else if c == '>' then 2 else if c == '\'' then 3 else 4;
      assert SYMBOLS[m] == c;
      CodedAt(s, m);
    } else {
      PlainReads(s);
    }
  }

  /** Reading back what was written gives the text that was written, in both modes. */
  lemma {:induction false} FromToDoc(s: string, attrib: bool, x: string)
    ensures FromDoc(ToDoc(s, attrib) + x) == s + FromDoc(x)
    decreases |s|
  {
    hide Unescape, Escape;
    if s == "" {
      assert ToDoc(s, attrib) + x == x;
    } else {
      var t, e := s[..|s| - 1], Escape(s[|s| - 1], attrib);
      assert ToDoc(s, attrib) + x == ToDoc(t, attrib) + (e + x);
      FromToDoc(t, attrib, e + x);
      EscapeReads(s[|s| - 1], attrib, x);
      assert (e + x)[|e|..] == x;
      assert s == t + [s[|s| - 1]];
    }
  }

  lemma FromDocInverts(s: string, attrib: bool)
    ensures FromDoc(ToDoc(s, attrib)) == s
  {
    FromToDoc(s, attrib, "");
    assert ToDoc(s, attrib) + "" == ToDoc(s, attrib);
  }

  /** Escaped text holds no angle bracket, and in an attribute value no quote. */
  lemma {:induction false} ToDocClean(s: string, attrib: bool)
    ensures forall k :: 0 <= k < |ToDoc(s, attrib)| ==> ToDoc(s, attrib)[k] !in {'<', '>'}
    ensures attrib ==> forall k :: 0 <= k < |ToDoc(s, attrib)| ==> ToDoc(s, attrib)[k] !in {'\'', '\"'}
  {
    if s != "" {
      ToDocClean(s[..|s| - 1], attrib);
    }
  }

  // ---- The entities in characters

  /** What is written for a text: piece by piece, */
  lemma {:induction false} ToDocJoin(p: string, x: string, attrib: bool)
    ensures ToDoc(p + x, attrib) == ToDoc(p, attrib) + ToDoc(x, attrib)
    decreases |x|
  {
    hide ToDoc, Escape;
    ToDocOnce(x, attrib);
    if x == "" {
      assert p + x == p;
    } else {
      var y := x[..|x| - 1];
      ToDocOnce(p + x, attrib);
      assert (p + x)[..|p + x| - 1] == p + y;
      ToDocJoin(p, y, attrib);
    }
  }

  lemma ToDocOnce(s: string, attrib: bool)
    ensures ToDoc(s, attrib) == if s == "" then "" else ToDoc(s[..|s| - 1], attrib) + Escape(s[|s| - 1], attrib)
  {
    hide Escape;
  }

  /** and for each character: three are replaced in data, five in attribute values, all others stay. */
  lemma Writes(c: char, attrib: bool)
    ensures ToDoc([c], attrib) ==
      if c == '<' then "&lt;" else if c == '>' then "&gt;" else if c == '&' then "&amp;"
      else if attrib && c == '\'' then "&apos;" else if attrib && c == '\"' then "&quot;" else [c]
  {
    assert [c][..0] == "";
  }

  /** Each of the five codes is read as its character, */
  lemma ReadsCode(m: nat, x: string)
    requires m < 5
    ensures var s := ["&lt;", "&amp;", "&gt;", "&apos;", "&quot;"][m];
      FromDoc(s + x) == [['<', '&', '>', '\'', '\"'][m]] + FromDoc(x)
  {
    hide FromDoc, Unescape;
    var s := ["&lt;", "&amp;", "&gt;", "&apos;", "&quot;"][m];
    var u := s + x;
    assert Code(SYMBOLS[m]) == s[1..] && u[1..|s|] == s[1..];
    CodedAt(u, m);
    FromDocOnce(u);
    assert u[|s|..] == x;
  }

  /** any other character as itself, */
  lemma ReadsPlain(c: char, x: string)
    requires c != '&'
    ensures FromDoc([c] + x) == [c] + FromDoc(x)
  {
    hide FromDoc, Unescape;
    var u := [c] + x;
    PlainReads(u);
    FromDocOnce(u);
    assert u[1..] == x;
  }

  predicate CodeAhead(x: string) {
    "lt;" <= x || "amp;" <= x || "gt;" <= x || "apos;" <= x || "quot;" <= x
  }

  /** and an '&' as itself exactly if none of the codes follows it. */
  lemma ReadsAmpersand(x: string)
    ensures FromDoc("&" + x) == "&" + FromDoc(x) <==> !CodeAhead(x)
  {
    hide FromDoc, Unescape, Coded;
    var u := "&" + x;
    assert u[1..] == x;
    forall m | 0 <= m < 5
      ensures Coded(u, SYMBOLS[m]) <==> Code(SYMBOLS[m]) <= x
    {
      CodedAhead(x, SYMBOLS[m]);
    }
    AheadIs(x);
    if CodeAhead(x) {
      var m :| 0 <= m < 5 && Code(SYMBOLS[m]) <= x;
      var code := Code(SYMBOLS[m]);
      var y := x[|code|..];
      assert x == code + y;
      ReadsCode(m, y);
      CodeText(m);
      assert u == "&" + code + y;
      PlainRun(code, y);
    } else {
      NotCoded(u);
      FromDocOnce(u);
    }
  }

  lemma CodedAhead(x: string, c: char)
    ensures Coded("&" + x, c) <==> Code(c) <= x
  {
    var u, n := "&" + x, |Code(c)|;
    if n <= |x| { assert u[1..1 + n] == x[..n]; }
  }

  lemma AheadIs(x: string)
    ensures CodeAhead(x) <==> exists m :: 0 <= m < 5 && Code(SYMBOLS[m]) <= x
  {
    assert Code(SYMBOLS[0]) == "lt;" && Code(SYMBOLS[1]) == "amp;" && Code(SYMBOLS[2]) == "gt;";
    assert Code(SYMBOLS[3]) == "apos;" && Code(SYMBOLS[4]) == "quot;";
  }

  lemma CodeText(m: nat)
    requires m < 5
    ensures var code := Code(SYMBOLS[m]);
      "&" + code == ["&lt;", "&amp;", "&gt;", "&apos;", "&quot;"][m] && |code| >= 3 && forall k :: 0 <= k < |code| ==> code[k] != '&'
  {
  }

  /** A text without '&' is read as itself. */
  lemma {:induction false} PlainRun(p: string, x: string)
    requires forall k :: 0 <= k < |p| ==> p[k] != '&'
    ensures FromDoc(p + x) == p + FromDoc(x)
    decreases |p|
  {
    hide FromDoc;
    if p == "" {
      assert p + x == x;
    } else {
      PlainRun(p[1..], x);
      assert p + x == [p[0]] + (p[1..] + x);
      ReadsPlain(p[0], p[1..] + x);
    }
  }

  /** What is in front of an '&' does not change what comes from it on. */
  lemma {:induction false} FromDocJoin(p: string, x: string)
    requires x == "" || x[0] == '&'
    ensures FromDoc(p + x) == FromDoc(p) + FromDoc(x)
    decreases |p|
  {
    hide FromDoc, Unescape;
    if p == "" {
      assert p + x == x;
      assert FromDoc("") == "" by { ReadsNothing(); }
    } else {
      SameCode(p, x);
      FromDocOnce(p);
      FromDocOnce(p + x);
      var n := Unescape(p).1;
      assert (p + x)[n..] == p[n..] + x;
      FromDocJoin(p[n..], x);
    }
  }

  lemma ReadsNothing()
    ensures FromDoc("") == ""
  {
  }

  lemma SameCode(p: string, x: string)
    requires p != "" && (x == "" || x[0] == '&')
    ensures Unescape(p + x) == Unescape(p)
  {
    hide Coded;
    forall c
      ensures Coded(p + x, c) <==> Coded(p, c)
    {
      NotOver(p, x, c);
    }
  }

  lemma NotOver(p: string, x: string, c: char)
    requires p != "" && (x == "" || x[0] == '&')
    ensures Coded(p + x, c) <==> Coded(p, c)
  {
    var s, code := p + x, Code(c);
    if |code| <= |p| - 1 {
      assert s[1..1 + |code|] == p[1..1 + |code|];
    } else if |code| <= |s| - 1 {
      assert s[1..1 + |code|][|p| - 1] == s[|p|] == '&';
      assert forall k :: 0 <= k < |code| ==> code[k] != '&';
    }
  }
}
