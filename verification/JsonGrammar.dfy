/** The texts that Json::Reader accepts, as a grammar with a meaning of its own: that of RFC 8259, and
    where the reader takes more than that.  Every text of the grammar is read as what it means, and
    every text that is read is one of them. */
module JsonGrammar {
  import opened JsonValue
  import opened JsonLex
  import opened JsonParse

  // ---- Strings (section 7 of RFC 8259)

  /** A piece of a string: a character for itself, a backslash and a letter, or a code of four
      hexadecimal digits. */
  datatype Piece = Raw(c: char) | Escaping(letter: char) | Coding(h1: char, h2: char, h3: char, h4: char)

  predicate HexDigit(c: char) { c in "0123456789abcdefABCDEF" }

  predicate PieceOk(u: Piece) {
    match u
    case Raw(c) => c != '\"' && c != '\\'
    case Escaping(letter) => letter in {'\"', '\\', '/', 'b', 'f', 'n', 'r', 't'}
    case Coding(h1, h2, h3, h4) => HexDigit(h1) && HexDigit(h2) && HexDigit(h3) && HexDigit(h4)
  }

  function PieceText(u: Piece): string {
    match u
    case Raw(c) => [c]
    case Escaping(letter) => ['\\', letter]
    case Coding(h1, h2, h3, h4) => ['\\', 'u', h1, h2, h3, h4]
  }

  /** The character that a piece stands for; a code stands for none, as the reader drops it. */
  function PieceMeans(u: Piece): string {
    match u
    case Raw(c) => [c]
    case Escaping(letter) =>
      if letter == 'b' then [8 as char] else if letter == 'f' then [12 as char] else if letter == 'n' then [10 as char]
      else if letter == 'r' then [13 as char] else if letter == 't' then [9 as char] else [letter]
    case Coding(_, _, _, _) => ""
  }

  predicate PiecesOk(us: seq<Piece>) { forall i :: 0 <= i < |us| ==> PieceOk(us[i]) }

  function Spell(us: seq<Piece>): string {
    if us == [] then "" else PieceText(us[0]) + Spell(us[1..])
  }

  function Says(us: seq<Piece>): string {
    if us == [] then "" else PieceMeans(us[0]) + Says(us[1..])
  }

  /** decodeString over one piece, whatever comes behind it. */
  lemma PieceReads(u: Piece, x: string)
    requires PieceOk(u)
    ensures Unescape(PieceText(u) + x) == Prefixed(PieceMeans(u), Unescape(x))
  {
    hide Unescape;
    var p := PieceText(u);
    assert (p + x)[|p|..] == x;
    UnescapeOnce(p + x);
    HexIsHex();
    PrefixedNothing(Unescape(x));
  }

  lemma HexIsHex()
    ensures forall c :: HexDigit(c) <==> IsHex(c)
  {
  }

  lemma PrefixedNothing(r: Option<string>)
    ensures Prefixed("", r) == r
  {
    if r.Some? { assert "" + r.value == r.value; }
  }

  lemma UnescapeOnce(s: string)
    ensures Unescape(s) ==
      if s == "" || s[0] == '\"' then Some("")
      else if s[0] != '\\' then Prefixed([s[0]], Unescape(s[1..]))
      else if |s| == 1 then None
      else if s[1] == 'u' then
        if |s| >= 6 && IsHex(s[2]) && IsHex(s[3]) && IsHex(s[4]) && IsHex(s[5]) then Unescape(s[6..]) else None
      else if s[1] in {'\"', '/', '\\', 'b', 'f', 'n', 'r', 't'} then Prefixed([Plain(s[1])], Unescape(s[2..]))
      else None
  {
    hide Plain, IsHex, Prefixed;
  }

  /** A string spelled in any way is decoded as what it says. */
  lemma {:induction false} SpelledReads(us: seq<Piece>, x: string)
    requires PiecesOk(us)
    ensures Unescape(Spell(us) + x) == Prefixed(Says(us), Unescape(x))
    decreases |us|
  {
    hide Unescape, PieceText, PieceMeans;
    if us == [] {
      assert Spell(us) + x == x;
      PrefixedNothing(Unescape(x));
    } else {
      assert PieceOk(us[0]);
      var y := Spell(us[1..]) + x;
      assert Spell(us) + x == PieceText(us[0]) + y;
      PieceReads(us[0], y);
      SpelledReads(us[1..], x);
      if Unescape(x).Some? {
        assert PieceMeans(us[0]) + (Says(us[1..]) + Unescape(x).value) == Says(us) + Unescape(x).value;
      }
    }
  }

  /** It ends at the quote behind it. */
  lemma {:induction false} SpelledEnds(us: seq<Piece>, x: string)
    requires PiecesOk(us)
    ensures StringEnd(Spell(us) + ("\"" + x)) == (true, |Spell(us)| + 1)
    decreases |us|
  {
    hide StringEnd, PieceText;
    if us == [] {
      assert Spell(us) + ("\"" + x) == "\"" + x;
      StringEndQuote(x);
    } else {
      assert PieceOk(us[0]);
      var y := Spell(us[1..]) + ("\"" + x);
      assert Spell(us) + ("\"" + x) == PieceText(us[0]) + y;
      SpelledEnds(us[1..], x);
      PieceEnds(us[0], y);
    }
  }

  lemma PieceEnds(u: Piece, y: string)
    requires PieceOk(u)
    ensures StringEnd(PieceText(u) + y) == (StringEnd(y).0, StringEnd(y).1 + |PieceText(u)|)
  {
    hide StringEnd, HexDigit;
    match u
    case Raw(c) => OneEnds([c] + y, y);
    case Escaping(letter) => TwoEnd(['\\', letter] + y, y);
    case Coding(h1, h2, h3, h4) =>
      var z := [h1, h2, h3, h4] + y;
      TwoEnd(['\\', 'u'] + z, z);
      HexPlain();
      PlainEnds(z, 4);
      assert z[4..] == y;
      assert PieceText(u) + y == ['\\', 'u'] + z;
  }

  lemma HexPlain()
    ensures forall c :: HexDigit(c) ==> c != '\"' && c != '\\'
  {
  }

  lemma OneEnds(s: string, y: string)
    requires s != "" && s[0] != '\"' && s[0] != '\\' && s[1..] == y
    ensures StringEnd(s) == (StringEnd(y).0, StringEnd(y).1 + 1)
  {
  }

  lemma TwoEnd(s: string, y: string)
    requires |s| >= 2 && s[0] == '\\' && s[2..] == y
    ensures StringEnd(s) == (StringEnd(y).0, StringEnd(y).1 + 2)
  {
  }

  lemma {:induction false} PlainEnds(s: string, n: nat)
    requires n <= |s| && forall k :: 0 <= k < n ==> s[k] != '\"' && s[k] != '\\'
    ensures StringEnd(s) == (StringEnd(s[n..]).0, StringEnd(s[n..]).1 + n)
    decreases n
  {
    hide StringEnd;
    if n == 0 {
      assert s[0..] == s;
    } else {
      OneEnds(s, s[1..]);
      PlainEnds(s[1..], n - 1);
      assert s[1..][n - 1..] == s[n..];
    }
  }

  /** A letter that is none of the eight, and a code that is not of four digits, make the string one
      that is not decoded. */
  lemma BadEscape(us: seq<Piece>, x: string)
    requires PiecesOk(us)
    requires x == "\\" || (|x| >= 2 && x[0] == '\\' && x[1] !in {'\"', '\\', '/', 'b', 'f', 'n', 'r', 't', 'u'})
             || (|x| >= 2 && x[0] == '\\' && x[1] == 'u' && (|x| < 6 || exists k :: 2 <= k < 6 && !HexDigit(x[k])))
    ensures Unescape(Spell(us) + x) == None
  {
    hide Unescape, IsHex, HexDigit;
    SpelledReads(us, x);
    UnescapeOnce(x);
    HexIsHex();
  }

  /** And these are all: what is decoded is spelled in pieces, and says what it is decoded as. */
  lemma {:induction false} Pieces(s: string) returns (us: seq<Piece>)
    requires StringEnd(s + "\"") == (true, |s| + 1) && Unescape(s).Some?
    ensures PiecesOk(us) && Spell(us) == s && Says(us) == Unescape(s).value
    decreases |s|
  {
    hide Unescape, StringEnd, IsHex, HexDigit;
    UnescapeOnce(s);
    HexIsHex();
    if s != "" && s[0] == '\"' {
      assert s + "\"" == "\"" + (s[1..] + "\"");
      StringEndQuote(s[1..] + "\"");
    }
    if s == "" {
      us := [];
    } else {
      var u :=
        if s[0] != '\\' then Raw(s[0])
        else if s[1] == 'u' then Coding(s[2], s[3], s[4], s[5])
        else Escaping(s[1]);
      assert s[0] != '\"';
      var n := |PieceText(u)|;
      assert s[..n] == PieceText(u);
      assert s == PieceText(u) + s[n..];
      PieceEnds(u, s[n..] + "\"");
      assert s + "\"" == PieceText(u) + (s[n..] + "\"");
      PieceReads(u, s[n..]);
      var vs := Pieces(s[n..]);
      us := [u] + vs;
      assert us[1..] == vs;
    }
  }

  /** Of a string with a NUL in it, the part before it is kept. */
  lemma {:induction false} CutAtNul(p: string, x: string)
    requires NulFree(p)
    ensures CStr(p + ([0 as char] + x)) == p
    decreases |p|
  {
    var s := p + ([0 as char] + x);
    if p == "" {
      assert s == [0 as char] + x;
    } else {
      assert s[1..] == p[1..] + ([0 as char] + x);
      CutAtNul(p[1..], x);
    }
  }

  // ---- Tokens

  /** The token that a character begins. */
  lemma TokenIs(c: char, x: string)
    ensures var k := LexAt([c] + x).kind;
      && (k == ObjectBegin <==> c == '{') && (k == ObjectEnd <==> c == '}') && (k == ArrayBegin <==> c == '[') && (k == ArrayEnd <==> c == ']')
      && (k == Comma <==> c == ',') && (k == Colon <==> c == ':')
      && (k == NumberToken <==> c in {'0', '1', '2', '3', '4', '5', '6', '7', '8', '9', '-'})
      && (k == TrueToken <==> c == 't' && "rue" <= x) && (k == FalseToken <==> c == 'f' && "alse" <= x) && (k == NullToken <==> c == 'n' && "ull" <= x)
      && (k == EndOfStream <==> c == 0 as char)
      && (k == StringToken ==> c == '\"') && (k == Comment ==> c == '/')
  {
    hide StringEnd, CommentEnd, Run;
    assert ([c] + x)[1..] == x;
  }

  // ---- Numbers (section 6)

  function DigitMeans(c: char): nat {
    if c == '1' then 1 else if c == '2' then 2 else if c == '3' then 3 else if c == '4' then 4 else if c == '5' then 5
    else if c == '6' then 6 else if c == '7' then 7 else if c == '8' then 8 else if c == '9' then 9 else 0
  }

  predicate DigitChar(c: char) { c in {'0', '1', '2', '3', '4', '5', '6', '7', '8', '9'} }

  predicate NumberChar(c: char) { DigitChar(c) || c in {'.', 'e', 'E', '+', '-'} }

  predicate AllDigits(s: string) { forall k :: 0 <= k < |s| ==> DigitChar(s[k]) }

  /** The number that has the digits `s` behind those of `n`. */
  function Decimal(n: nat, s: string): nat
    decreases |s|
  {
    if s == "" then n else Decimal(10 * n + DigitMeans(s[0]), s[1..])
  }

  lemma {:induction false} DecimalGrows(n: nat, s: string)
    ensures n <= Decimal(n, s) && (s != "" ==> n <= Decimal(n, s) / 10)
    decreases |s|
  {
    if s != "" {
      var m := 10 * n + DigitMeans(s[0]);
      DecimalGrows(m, s[1..]);
      if |s| == 1 { assert s[1..] == ""; }
      assert m / 10 >= n;
    }
  }

  lemma DigitIs(c: char)
    ensures DigitChar(c) <==> IsDigit(c)
    ensures IsDigit(c) ==> (c - '0') as nat == DigitMeans(c)
  {
  }

  /** The loop of decodeNumber over digits. */
  lemma {:induction false} DecimalReads(s: string, n: nat, threshold: nat)
    requires s != "" && AllDigits(s)
    ensures Accumulate(s, n, threshold) == if Decimal(n, s) / 10 < threshold then Sum(Decimal(n, s)) else TooBig
    decreases |s|
  {
    hide Accumulate, DigitMeans, IsDigit;
    AccumulateOnce(s, n, threshold);
    DigitIs(s[0]);
    DecimalGrows(n, s);
    if n < threshold {
      var m := 10 * n + DigitMeans(s[0]);
      if |s| == 1 {
        assert s[1..] == "";
        AccumulateOnce("", m, threshold);
        DigitBelow(s[0]);
      } else {
        DecimalReads(s[1..], m, threshold);
      }
    }
  }

  lemma DigitBelow(c: char)
    ensures DigitMeans(c) < 10
  {
  }

  lemma AccumulateOnce(s: string, n: nat, threshold: nat)
    ensures Accumulate(s, n, threshold) ==
      if s == "" then Sum(n) else if !IsDigit(s[0]) then NoDigit
      else if n >= threshold then TooBig else Accumulate(s[1..], n * 10 + (s[0] - '0') as nat, threshold)
  {
  }

  /** The text of a number: what the reader takes for one. */
  predicate NumberOk(s: string) {
    s != "" && (DigitChar(s[0]) || s[0] == '-') && forall k :: 0 <= k < |s| ==> NumberChar(s[k])
  }

  /** It is a double if a point, an exponent or a sign is in it, or if it is not below the bounds for
      integers; a '-' alone is 0. */
  function NumberMeans(s: string, scan: Scanner): Option<Value> {
    var double := if scan(s).Some? then Some(Real(scan(s).value)) else None;
    if s == "" || exists k :: 0 <= k < |s| && (s[k] in {'.', 'e', 'E', '+'} || (k > 0 && s[k] == '-')) then double
    else if s[0] == '-' then
      var n := Decimal(0, s[1..]);
      if n <= 2147483639 then Some(Int(0 - n)) else double
    else
      var n := Decimal(0, s);
      if n <= 2147483647 then Some(Int(n)) else if n <= 4294967289 then Some(UInt(n)) else double
  }

  lemma NumberReads(s: string, scan: Scanner)
    requires NumberOk(s)
    ensures NumberOf(s, scan) == NumberMeans(s, scan)
  {
    hide Accumulate, Decimal, IsDigit;
    if !Fractional(s) {
      PlainNumber(s);
      if s[0] == '-' {
        if s[1..] == "" {
          AccumulateOnce("", 0, NEGATIVE_THRESHOLD);
          DecimalNone();
        } else {
          DecimalReads(s[1..], 0, NEGATIVE_THRESHOLD);
        }
      } else {
        DecimalReads(s, 0, THRESHOLD);
      }
    }
  }

  lemma DecimalNone()
    ensures Decimal(0, "") == 0
  {
  }

  lemma PlainNumber(s: string)
    requires NumberOk(s) && !Fractional(s)
    ensures if s[0] == '-' then AllDigits(s[1..]) else AllDigits(s)
  {
    forall k | 0 <= k < |s| && (k > 0 || s[0] != '-')
      ensures DigitChar(s[k])
    {
      assert NumberChar(s[k]);
    }
  }

  // ---- White space and comments

  predicate BlankText(w: string) { forall k :: 0 <= k < |w| ==> w[k] in {' ', '\t', '\r', '\n'} }

  /** A comment ends at its first end mark, or with its line. */
  predicate StarComment(c: string) {
    |c| >= 4 && c[..2] == "/*" && c[|c| - 2..] == "*/" && forall k :: 2 <= k < |c| - 2 ==> !("*/" <= c[k..])
  }

  predicate LineComment(c: string) {
    |c| >= 3 && c[..2] == "//" && c[|c| - 1] in {'\r', '\n'} && forall k :: 2 <= k < |c| - 1 ==> c[k] !in {'\r', '\n'}
  }

  lemma {:induction false} StarIs(s: string, n: nat)
    requires n + 2 <= |s| && s[n] == '*' && s[n + 1] == '/' && forall k :: 0 <= k < n ==> !("*/" <= s[k..])
    ensures StarEnd(s) == (true, n + 2)
    decreases n
  {
    hide StarEnd;
    MarkAt(s, 0);
    StarOnce(s);
    if n > 0 {
      assert !("*/" <= s[0..]);
      forall k | 0 <= k < n - 1
        ensures !("*/" <= s[1..][k..])
      {
        assert s[1..][k..] == s[k + 1..];
      }
      StarIs(s[1..], n - 1);
    }
  }

  lemma MarkAt(s: string, k: nat)
    requires k <= |s|
    ensures "*/" <= s[k..] <==> k + 2 <= |s| && s[k] == '*' && s[k + 1] == '/'
  {
    if k + 2 <= |s| { assert s[k..][..2] == [s[k], s[k + 1]]; }
  }

  lemma StarOnce(s: string)
    ensures s == "" ==> StarEnd(s) == (false, 0)
    ensures s != "" ==>
      StarEnd(s) == if s[0] == '*' && |s| > 1 && s[1] == '/' then (true, 2) else (StarEnd(s[1..]).0, StarEnd(s[1..]).1 + 1)
  {
  }

  lemma {:induction false} StarWas(s: string)
    requires StarEnd(s).0
    ensures var n := StarEnd(s).1 - 2;
      n >= 0 && s[n] == '*' && s[n + 1] == '/' && forall k :: 0 <= k < n ==> !("*/" <= s[k..])
    decreases |s|
  {
    hide StarEnd;
    MarkAt(s, 0);
    StarOnce(s);
    if StarEnd(s).1 != 2 || !(s[0] == '*' && s[1] == '/') {
      StarWas(s[1..]);
      var n := StarEnd(s).1 - 2;
      forall k | 0 <= k < n
        ensures !("*/" <= s[k..])
      {
        if k > 0 { assert s[1..][k - 1..] == s[k..]; }
      }
    }
  }

  lemma {:induction false} LineIs(s: string, n: nat)
    requires n < |s| && s[n] in {'\r', '\n'} && forall k :: 0 <= k < n ==> s[k] !in {'\r', '\n'}
    ensures LineEnd(s) == n + 1
    decreases n
  {
    if n > 0 { LineIs(s[1..], n - 1); }
  }

  lemma {:induction false} LineWas(s: string)
    ensures LineEnd(s) == |s| || (0 < LineEnd(s) && s[LineEnd(s) - 1] in {'\r', '\n'})
    ensures forall k :: 0 <= k < LineEnd(s) - 1 ==> s[k] !in {'\r', '\n'}
    decreases |s|
  {
    if s != "" { LineWas(s[1..]); }
  }

  lemma CommentLexes(c: string, y: string)
    requires StarComment(c) || LineComment(c)
    ensures LexAt(c + y) == Tok(Comment, 0, |c|) && c[0] == '/'
  {
    hide StarEnd, LineEnd, Run, StringEnd, Starts;
    var s := c + y;
    assert c[0] == c[..2][0] == '/' && c[1] == c[..2][1];
    assert s[0] == c[0] && s[1] == c[1] && s[1..][1..] == s[2..] == c[2..] + y;
    if StarComment(c) {
      StarTail(c, y);
      StarIs(s[2..], |c| - 4);
    } else {
      LineIs(s[2..], |c| - 3);
    }
  }

  lemma StarTail(c: string, y: string)
    requires StarComment(c)
    ensures var u, n := c[2..] + y, |c| - 4;
      u[n] == '*' && u[n + 1] == '/' && forall k :: 0 <= k < n ==> !("*/" <= u[k..])
  {
    var u, n := c[2..] + y, |c| - 4;
    assert c[|c| - 2] == c[|c| - 2..][0] && c[|c| - 1] == c[|c| - 2..][1];
    forall k | 0 <= k < n
      ensures !("*/" <= u[k..])
    {
      MarkAt(u, k);
      MarkAt(c, k + 2);
    }
  }

  lemma CommentWas(x: string)
    requires x != "" && LexAt(x).kind == Comment
    ensures var c := x[..LexAt(x).end];
      StarComment(c) || LineComment(c) || |c| == |x|
  {
    hide StarEnd, LineEnd, Run, StringEnd, Starts;
    var e := LexAt(x).end;
    var c, u := x[..e], x[1..][1..];
    assert u == x[2..];
    if x[1] == '*' {
      StarWas(u);
      StarHead(x, StarEnd(u).1);
    } else {
      LineWas(u);
      if LineEnd(u) < |u| { LineHead(x, LineEnd(u)); }
    }
  }

  lemma StarHead(x: string, n: nat)
    requires 2 <= n && n + 2 <= |x| && x[0] == '/' && x[1] == '*' && x[n] == '*' && x[n + 1] == '/'
    requires forall k :: 0 <= k < n - 2 ==> !("*/" <= x[2..][k..])
    ensures StarComment(x[..n + 2])
  {
    var c := x[..n + 2];
    assert c[..2] == [x[0], x[1]] && c[n..] == [x[n], x[n + 1]];
    forall k | 2 <= k < n
      ensures !("*/" <= c[k..])
    {
      MarkAt(c, k);
      MarkAt(x, k);
      assert x[2..][k - 2..] == x[k..];
    }
  }

  lemma LineHead(x: string, n: nat)
    requires 0 < n && n + 2 <= |x| && x[0] == '/' && x[1] == '/' && x[2..][n - 1] in {'\r', '\n'}
    requires forall k :: 0 <= k < n - 1 ==> x[2..][k] !in {'\r', '\n'}
    ensures LineComment(x[..n + 2])
  {
    var c := x[..n + 2];
    assert c[..2] == [x[0], x[1]] && c[|c| - 1] == x[2..][n - 1];
    forall k | 2 <= k < |c| - 1
      ensures c[k] !in {'\r', '\n'}
    {
      assert c[k] == x[2..][k - 2];
    }
  }

  /** White space, and comments with white space in front of them. */
  datatype Gap = Blank(ws: string) | Note(ws: string, comment: string, rest: Gap)

  predicate GapOk(g: Gap) {
    BlankText(g.ws) && (g.Note? ==> (StarComment(g.comment) || LineComment(g.comment)) && GapOk(g.rest))
  }

  function GapText(g: Gap): string {
    match g
    case Blank(ws) => ws
    case Note(ws, comment, rest) => ws + (comment + GapText(rest))
  }

  /** A text that begins with a token that is no comment. */
  predicate TokenAhead(x: string) {
    x != "" && x[0] !in {' ', '\t', '\r', '\n'} && LexAt(x).kind != Comment
  }

  lemma BlankLex(w: string, x: string)
    requires BlankText(w) && x != "" && x[0] !in {' ', '\t', '\r', '\n'}
    ensures Lex(w + x) == LexAt(x).Shift(|w|) && Run(w + x, SPACE) == |w|
  {
    hide LexAt, Run;
    RunIs(w + x, SPACE, |w|);
    assert (w + x)[|w|..] == x;
  }

  lemma {:induction false} GapLex(g: Gap, x: string)
    requires GapOk(g) && TokenAhead(x)
    ensures NextToken(GapText(g) + x) == LexAt(x).Shift(|GapText(g)|)
    decreases g
  {
    hide Lex, LexAt, NextToken, StarComment, LineComment, GapText;
    var s := GapText(g) + x;
    NextOnce(s);
    match g
    case Blank(ws) =>
      BlankGap(ws, |ws|);
      assert ws[..|ws|] == ws;
      BlankLex(ws, x);
    case Note(ws, comment, rest) =>
      var y := GapText(rest) + x;
      NoteIs(g);
      NoteSplits(ws, comment, GapText(rest), x);
      CommentLexes(comment, y);
      BlankLex(ws, comment + y);
      GapLex(rest, x);
  }

  lemma NoteSplits(ws: string, c: string, g: string, x: string)
    ensures var s := ws + (c + g) + x;
      s == ws + (c + (g + x)) && s[|ws| + |c|..] == g + x
  {
    assert ws + (c + g) + x == (ws + c) + (g + x);
  }

  lemma NextOnce(s: string)
    ensures NextToken(s) == if Lex(s).kind == Comment then NextToken(s[Lex(s).end..]).Shift(Lex(s).end) else Lex(s)
  {
    hide Lex;
  }

  /** In front of a token there is such a gap. */
  lemma {:induction false} GapOf(s: string) returns (g: Gap, x: string)
    requires NextToken(s).start < NextToken(s).end
    ensures GapOk(g) && TokenAhead(x) && s == GapText(g) + x && NextToken(s) == LexAt(x).Shift(|GapText(g)|)
    decreases |s|
  {
    hide Lex, LexAt, NextToken, StarComment, LineComment, Run, GapText;
    var k := Run(s, SPACE);
    NextOnce(s);
    LexCases(s);
    var y := s[k..];
    if LexAt(y).kind == Comment {
      var e := LexAt(y).end;
      CommentWas(y);
      NothingNext(y[e..]);
      var rest: Gap;
      BehindComment(s, k, e);
      rest, x := GapOf(y[e..]);
      g := Note(s[..k], y[..e], rest);
      NoteText(s, k, e, rest, x);
    } else {
      g, x := Blank(s[..k]), y;
      BlankGap(s, k);
    }
  }

  lemma BehindComment(s: string, k: nat, e: nat)
    requires k <= |s| && e <= |s[k..]|
    ensures s[k + e..] == s[k..][e..]
  {
  }

  lemma NoteText(s: string, k: nat, e: nat, rest: Gap, x: string)
    requires k <= |s| && e <= |s[k..]| && s[k..][e..] == GapText(rest) + x
    ensures var g := Note(s[..k], s[k..][..e], rest);
      s == GapText(g) + x && |GapText(g)| == k + e + |GapText(rest)|
  {
    hide GapText;
    var g := Note(s[..k], s[k..][..e], rest);
    NoteIs(g);
    assert s == s[..k] + (s[k..][..e] + s[k..][e..]);
    assert s[..k] + (s[k..][..e] + (GapText(rest) + x)) == s[..k] + (s[k..][..e] + GapText(rest)) + x;
  }

  lemma NoteIs(g: Gap)
    requires g.Note?
    ensures GapText(g) == g.ws + (g.comment + GapText(g.rest))
  {
  }

  lemma BlankGap(s: string, k: nat)
    requires k <= |s|
    ensures GapText(Blank(s[..k])) == s[..k] && s == s[..k] + s[k..]
  {
  }

  lemma LexCases(s: string)
    ensures var k := Run(s, SPACE);
      && (k == |s| ==> Lex(s) == Tok(EndOfStream, k, k))
      && (k < |s| ==> Lex(s) == LexAt(s[k..]).Shift(k))
  {
    hide Run, LexAt;
  }

  lemma NothingNext(s: string)
    ensures s == "" ==> NextToken(s) == Tok(EndOfStream, 0, 0)
  {
  }

  // ---- Documents

  /** A value: a word, a number, a string, an array, an object. */
  datatype Doc =
    | NullDoc | TrueDoc | FalseDoc
    | NumberDoc(text: string)
    | StringDoc(pieces: seq<Piece>)
    | EmptyArrayDoc(ws: string)
    | ArrayDoc(items: Elements)
    | EmptyObjectDoc(gap: Gap)
    | ObjectDoc(members: Members)

  datatype Elements = Elements(gap: Gap, item: Doc, rest: Rest)

  /** What is behind an element: the bracket, or a comma and the next one. */
  datatype Rest = LastItem(ws: string) | NextItem(ws: string, items: Elements)

  datatype Members = Member(gap: Gap, name: seq<Piece>, ws: string, before: Gap, value: Doc, more: More)

  /** What is behind a member: the brace; a separator and the next one; or, which the reader takes
      behind an empty name, a separator and the brace. */
  datatype More = LastMember(gap: Gap) | NextMember(gap: Gap, sep: string, members: Members) | Trailing(gap: Gap, sep: string, end: Gap)

  function DocText(d: Doc): string {
    match d
    case NullDoc => "null"
    case TrueDoc => "true"
    case FalseDoc => "false"
    case NumberDoc(text) => text
    case StringDoc(pieces) => "\"" + (Spell(pieces) + "\"")
    case EmptyArrayDoc(ws) => "[" + (ws + "]")
    case ArrayDoc(items) => "[" + ItemsText(items)
    case EmptyObjectDoc(gap) => "{" + (GapText(gap) + "}")
    case ObjectDoc(members) => "{" + MembersText(members)
  }

  function ItemsText(l: Elements): string {
    GapText(l.gap) + (DocText(l.item) + RestText(l.rest))
  }

  function RestText(l: Rest): string {
    match l
    case LastItem(ws) => ws + "]"
    case NextItem(ws, items) => ws + ("," + ItemsText(items))
  }

  function MembersText(l: Members): string {
    GapText(l.gap) + ("\"" + (Spell(l.name) + ("\"" + (l.ws + (":" + (GapText(l.before) + (DocText(l.value) + MoreText(l.more))))))))
  }

  function MoreText(l: More): string {
    match l
    case LastMember(gap) => GapText(gap) + "}"
    case NextMember(gap, sep, members) => GapText(gap) + (sep + MembersText(members))
    case Trailing(gap, sep, end) => GapText(gap) + (sep + (GapText(end) + "}"))
  }

  /** What may separate members: a comma; behind a comment, which the reader does not take to be
      followed by one, any token. */
  predicate SepOk(gap: Gap, sep: string, x: string) {
    if gap.Blank? then sep == ","
    else sep != "" && TokenAhead(sep + x) && LexAt(sep + x) == Tok(LexAt(sep + x).kind, 0, |sep|) && LexAt(sep + x).kind != ObjectEnd
  }

  /** The document is read as a whole when `r` comes behind it: that matters behind a number. */
  predicate DocOk(d: Doc, r: string) {
    match d
    case NumberDoc(text) => NumberOk(text) && (r == "" || !NumberChar(r[0]))
    case StringDoc(pieces) => PiecesOk(pieces)
    case EmptyArrayDoc(ws) => BlankText(ws)
    case ArrayDoc(items) => ItemsOk(items, r)
    case EmptyObjectDoc(gap) => GapOk(gap)
    case ObjectDoc(members) => MembersOk(members, r)
    case _ => true
  }

  predicate ItemsOk(l: Elements, r: string) {
    GapOk(l.gap) && DocOk(l.item, RestText(l.rest) + r) && RestOk(l.rest, r)
  }

  predicate RestOk(l: Rest, r: string) {
    BlankText(l.ws) && (l.NextItem? ==> ItemsOk(l.items, r))
  }

  predicate MembersOk(l: Members, r: string) {
    && GapOk(l.gap) && PiecesOk(l.name) && BlankText(l.ws) && GapOk(l.before)
    && DocOk(l.value, MoreText(l.more) + r) && MoreOk(l.more, Says(l.name), r)
  }

  predicate MoreOk(l: More, name: string, r: string) {
    match l
    case LastMember(gap) => GapOk(gap)
    case NextMember(gap, sep, members) => GapOk(gap) && SepOk(gap, sep, MembersText(members) + r) && MembersOk(members, r)
    case Trailing(gap, sep, end) => GapOk(gap) && SepOk(gap, sep, GapText(end) + ("}" + r)) && GapOk(end) && name == ""
  }

  // ---- What a document means

  /** The value; none, if a number in it cannot be read. */
  function DocMeans(d: Doc, scan: Scanner): Option<Value> {
    match d
    case NullDoc => Some(Null)
    case TrueDoc => Some(Bool(true))
    case FalseDoc => Some(Bool(false))
    case NumberDoc(text) => NumberMeans(text, scan)
    case StringDoc(pieces) => Some(Text(CStr(Says(pieces))))
    case EmptyArrayDoc(_) => Some(Array(Nil))
    case ArrayDoc(items) =>
      var m := ItemsMean(items, 0, Nil, scan);
      if m.Some? then Some(Array(m.value)) else None
    case EmptyObjectDoc(_) => Some(Object(Nil))
    case ObjectDoc(members) =>
      var m := MembersMean(members, Nil, scan);
      if m.Some? then Some(Object(m.value)) else None
  }

  /** The elements, the first of them at index `i`. */
  function ItemsMean(l: Elements, i: nat, m: Entries, scan: Scanner): Option<Entries> {
    var v := DocMeans(l.item, scan);
    if v.None? then None
    else
      var n := Insert(m, Index(i), v.value);
      if l.rest.NextItem? then ItemsMean(l.rest.items, i + 1, n, scan) else Some(n)
  }

  /** The members, each assigned over what was there. */
  function MembersMean(l: Members, m: Entries, scan: Scanner): Option<Entries> {
    var v := DocMeans(l.value, scan);
    if v.None? then None
    else
      var n := Insert(m, Name(CStr(Says(l.name))), v.value);
      if l.more.NextMember? then MembersMean(l.more.members, n, scan) else Some(n)
  }

  // ---- Every document is read as what it means

  function Result(v: Option<Value>, n: nat): Read {
    if v.Some? then Ok(v.value, n) else Fail
  }

  lemma Cut(p: string, q: string)
    ensures (p + q)[|p|..] == q && (p + q)[..|p|] == p
  {
  }

  lemma Slices(p: string, x: string, i: nat, j: nat)
    requires i <= j <= |x|
    ensures (p + x)[|p| + i..|p| + j] == x[i..j] && (p + x)[|p| + j..] == x[j..]
  {
  }

  /** A value reads the same behind a gap. */
  lemma ValueBehind(g: Gap, x: string, scan: Scanner)
    requires GapOk(g) && TokenAhead(x)
    ensures ReadValue(GapText(g) + x, scan) == ReadValue(x, scan).Shift(|GapText(g)|)
  {
    hide *;
    AheadIs(x);
    var s, t, n := GapText(g) + x, LexAt(x), |GapText(g)|;
    TokenEnd(x);
    GapLex(g, x);
    NextAtToken(x);
    ReadValueCases(s, scan);
    ReadValueCases(x, scan);
    Slices(GapText(g), x, t.start, t.end);
    KindsAre(s, x, t, n, scan);
  }

  lemma TokenEnd(x: string)
    requires TokenAhead(x)
    ensures LexAt(x).start == 0 < LexAt(x).end <= |x|
  {
    hide LexAt;
  }

  lemma NextAtToken(x: string)
    requires TokenAhead(x)
    ensures NextToken(x) == LexAt(x) && Lex(x) == LexAt(x)
  {
    hide LexAt, NextToken, Lex;
    GapLex(Blank(""), x);
    BlankLex("", x);
    assert "" + x == x;
  }

  lemma KindsAre(s: string, x: string, t: Tok, n: nat, scan: Scanner)
    requires t.start <= t.end <= |x| && n + t.end <= |s| && NextToken(s) == t.Shift(n) && NextToken(x) == t
    requires s[n + t.end..] == x[t.end..] && s[n + t.start..n + t.end] == x[t.start..t.end]
    ensures ReadValue(s, scan) == ReadValue(x, scan).Shift(n)
  {
    hide NextToken, ReadMembers, ReadArray, NumberOf, StringOf;
  }

  /** The token a document begins with. */
  function FirstKind(d: Doc): Kind {
    match d
    case NullDoc => NullToken
    case TrueDoc => TrueToken
    case FalseDoc => FalseToken
    case NumberDoc(_) => NumberToken
    case StringDoc(_) => StringToken
    case EmptyArrayDoc(_) => ArrayBegin
    case ArrayDoc(_) => ArrayBegin
    case EmptyObjectDoc(_) => ObjectBegin
    case ObjectDoc(_) => ObjectBegin
  }

  lemma FirstToken(d: Doc, r: string)
    requires DocOk(d, r)
    ensures var x := DocText(d) + r;
      && TokenAhead(x) && x[0] != ']'
      && LexAt(x) == Tok(FirstKind(d), 0, if d.ArrayDoc? || d.ObjectDoc? || d.EmptyArrayDoc? || d.EmptyObjectDoc? then 1 else |DocText(d)|)
  {
    hide LexAt, PiecesOk, NumberOk, ItemsText, MembersText, GapText, Spell, GapOk, ItemsOk, MembersOk;
    var x := DocText(d) + r;
    match d
    case NullDoc => WordAt(NullToken, r);
    case TrueDoc => WordAt(TrueToken, r);
    case FalseDoc => WordAt(FalseToken, r);
    case NumberDoc(text) => NumberFirst(text, r);
    case StringDoc(pieces) => StringFirst(pieces, r);
    case EmptyArrayDoc(ws) => OpenFirst("[", ws + "]", r);
    case ArrayDoc(items) => OpenFirst("[", ItemsText(items), r);
    case EmptyObjectDoc(gap) => OpenFirst("{", GapText(gap) + "}", r);
    case ObjectDoc(members) => OpenFirst("{", MembersText(members), r);
  }

  lemma OpenFirst(c: string, p: string, r: string)
    requires c == "[" || c == "{"
    ensures LexAt(c + p + r) == Tok(if c == "[" then ArrayBegin else ObjectBegin, 0, 1) && (c + p + r)[0] == c[0]
  {
    hide LexAt;
    assert c + p + r == c + (p + r);
    WordAt(if c == "[" then ArrayBegin else ObjectBegin, p + r);
  }

  lemma NumberFirst(text: string, r: string)
    requires NumberOk(text) && (r == "" || !NumberChar(r[0]))
    ensures LexAt(text + r) == Tok(NumberToken, 0, |text|) && text != "" && (DigitChar((text + r)[0]) || (text + r)[0] == '-')
  {
    hide LexAt;
    NumberChars();
    NumberAt(text, r);
  }

  lemma NumberChars()
    ensures forall c :: c in NUMBER <==> NumberChar(c)
    ensures forall c :: IsDigit(c) <==> DigitChar(c)
  {
  }

  lemma StringFirst(us: seq<Piece>, r: string)
    requires PiecesOk(us)
    ensures var p := "\"" + (Spell(us) + "\"");
      LexAt(p + r) == Tok(StringToken, 0, |p|) && (p + r)[0] == '\"'
  {
    hide StringEnd, CommentEnd, Run, Spell, Starts;
    var p := "\"" + (Spell(us) + "\"");
    var s := p + r;
    assert s[1..] == Spell(us) + ("\"" + r);
    SpelledEnds(us, r);
  }

  lemma StringMeans(us: seq<Piece>)
    requires PiecesOk(us)
    ensures StringOf("\"" + (Spell(us) + "\"")) == Some(Says(us))
  {
    hide Unescape, Spell, Says, PiecesOk;
    var p := "\"" + (Spell(us) + "\"");
    assert p[1..|p| - 1] == Spell(us) == Spell(us) + "";
    SpelledReads(us, "");
    UnescapeOnce("");
    if Unescape("").Some? { assert Says(us) + "" == Says(us); }
  }

  lemma {:induction false} DocReads(d: Doc, r: string, scan: Scanner)
    requires DocOk(d, r)
    ensures ReadValue(DocText(d) + r, scan) == Result(DocMeans(d, scan), |DocText(d)|)
    decreases d, 1
  {
    hide LexAt, ReadValue, ReadMembers, ReadArray, NextToken, NumberOk, NumberOf, NumberMeans, StringOf, Spell, Says, PiecesOk, ItemsText, MembersText, GapText, ItemsMean, MembersMean, ItemsOk, MembersOk, GapOk, TokenAhead, BlankText, CStr;
    var x := DocText(d) + r;
    FirstToken(d, r);
    NextAtToken(x);
    ReadValueCases(x, scan);
    Cut(DocText(d), r);
    match d
    case NumberDoc(text) => NumberReads(text, scan);
    case StringDoc(pieces) => StringMeans(pieces);
    case EmptyArrayDoc(ws) => EmptyReads(ws, r, scan);
    case ArrayDoc(items) => ArrayReads(items, r, scan);
    case EmptyObjectDoc(gap) => BraceReads(gap, r, scan);
    case ObjectDoc(members) =>
      assert x[1..] == MembersText(members) + r;
      MembersReads(members, "", Nil, r, scan);
    case _ =>
  }

  lemma EmptyReads(ws: string, r: string, scan: Scanner)
    requires BlankText(ws)
    ensures ("[" + (ws + "]") + r)[1..] == ws + ("]" + r)
    ensures ReadArray(ws + ("]" + r), scan) == Ok(Array(Nil), |ws| + 1)
  {
    hide *;
    assert "[" + (ws + "]") + r == "[" + (ws + ("]" + r));
    Closing(r);
    AheadIs("]" + r);
    BlankLex(ws, "]" + r);
    EmptyRead(ws + ("]" + r), |ws|, scan);
  }

  lemma EmptyRead(s: string, k: nat, scan: Scanner)
    requires k == Run(s, SPACE) < |s| && s[k] == ']'
    ensures ReadArray(s, scan) == Ok(Array(Nil), k + 1)
  {
    hide Run, ReadItems;
  }

  lemma BraceReads(gap: Gap, r: string, scan: Scanner)
    requires GapOk(gap)
    ensures ("{" + (GapText(gap) + "}") + r)[1..] == GapText(gap) + ("}" + r)
    ensures forall m :: ReadMembers(GapText(gap) + ("}" + r), "", m, scan) == Ok(Object(m), |GapText(gap)| + 1)
  {
    hide LexAt, ReadMembers, NextToken, GapText, GapOk, TokenAhead;
    Closing(r);
    GapLex(gap, "}" + r);
    forall m
      ensures ReadMembers(GapText(gap) + ("}" + r), "", m, scan) == Ok(Object(m), |GapText(gap)| + 1)
    {
      ReadMembersCases(GapText(gap) + ("}" + r), "", m, scan);
    }
  }

  lemma Closing(r: string)
    ensures TokenAhead("}" + r) && LexAt("}" + r) == Tok(ObjectEnd, 0, 1)
    ensures TokenAhead("]" + r) && LexAt("]" + r) == Tok(ArrayEnd, 0, 1)
    ensures TokenAhead("," + r) && LexAt("," + r) == Tok(Comma, 0, 1)
    ensures TokenAhead(":" + r) && LexAt(":" + r) == Tok(Colon, 0, 1)
  {
    hide LexAt;
    WordAt(ObjectEnd, r);
    WordAt(ArrayEnd, r);
    WordAt(Comma, r);
    WordAt(Colon, r);
  }

  /** readArray passes over the white space in front of the first element itself. */
  lemma {:induction false} ArrayReads(l: Elements, r: string, scan: Scanner)
    requires ItemsOk(l, r)
    ensures ("[" + ItemsText(l) + r)[1..] == ItemsText(l) + r
    ensures var m := ItemsMean(l, 0, Nil, scan);
      ReadArray(ItemsText(l) + r, scan) == Result(if m.Some? then Some(Array(m.value)) else None, |ItemsText(l)|)
    decreases l, 2
  {
    hide *;
    var g := Unblanked(l.gap);
    var y := DocText(l.item) + (RestText(l.rest) + r);
    var x, s := GapText(g) + y, ItemsText(l) + r;
    ItemsParts(l, r);
    UnblankedText(l, r);
    FirstToken(l.item, RestText(l.rest) + r);
    GapStarts(g, y);
    BlankLex(l.gap.ws, x);
    Cut(l.gap.ws, x);
    NotEmptyReads(s, |l.gap.ws|, scan);
    ItemsReads(l, g, r, 0, Nil, scan);
    var m := ItemsMean(l, 0, Nil, scan);
    ResultShift(if m.Some? then Some(Array(m.value)) else None, |x| - |r|, |l.gap.ws|);
  }

  function Unblanked(g: Gap): Gap {
    match g
    case Blank(_) => Blank("")
    case Note(_, comment, rest) => Note("", comment, rest)
  }

  lemma UnblankedText(l: Elements, r: string)
    requires GapOk(l.gap)
    ensures var g := Unblanked(l.gap);
      && g.ws == "" && GapOk(g) && BlankText(l.gap.ws)
      && ItemsText(l) + r == l.gap.ws + (GapText(g) + (DocText(l.item) + (RestText(l.rest) + r)))
      && ("[" + ItemsText(l) + r)[1..] == ItemsText(l) + r
  {
    hide DocText, RestText, StarComment, LineComment, ItemsText;
    BlankNone();
    ItemsTextIs(l);
    var g, d := Unblanked(l.gap), DocText(l.item) + RestText(l.rest);
    assert GapText(l.gap) == l.gap.ws + GapText(g);
    assert d + r == DocText(l.item) + (RestText(l.rest) + r);
    assert (l.gap.ws + GapText(g)) + d + r == l.gap.ws + (GapText(g) + (d + r));
    assert "[" + ItemsText(l) + r == "[" + (ItemsText(l) + r);
  }

  lemma NotEmptyReads(s: string, k: nat, scan: Scanner)
    requires k == Run(s, SPACE) < |s| && s[k] != ']'
    ensures ReadArray(s, scan) == ReadItems(s[k..], 0, Nil, scan).Shift(k)
  {
    hide Run, ReadItems;
  }

  lemma BlankNone()
    ensures BlankText("")
  {
  }

  /** A gap without white space in front begins with a comment. */
  lemma GapStarts(g: Gap, y: string)
    requires GapOk(g) && g.ws == "" && TokenAhead(y) && y[0] != ']'
    ensures var x := GapText(g) + y; x != "" && x[0] !in {' ', '\t', '\r', '\n', ']'}
  {
    hide LexAt, StarComment, LineComment, BlankText;
    if g.Note? {
      CommentLexes(g.comment, GapText(g.rest) + y);
      CommentSome(g.comment);
      assert GapText(g) + y == g.comment + (GapText(g.rest) + y);
    } else {
      assert GapText(g) + y == y;
    }
  }

  lemma CommentSome(c: string)
    requires StarComment(c) || LineComment(c)
    ensures c != ""
  {
  }

  /** The loop over the elements, whatever gap is in front of the first of them. */
  lemma {:induction false} ItemsReads(l: Elements, g: Gap, r: string, i: nat, m: Entries, scan: Scanner)
    requires GapOk(g) && ItemsOk(l, r)
    ensures var s := GapText(g) + (DocText(l.item) + (RestText(l.rest) + r));
      var n := ItemsMean(l, i, m, scan);
      ReadItems(s, i, m, scan) == Result(if n.Some? then Some(Array(n.value)) else None, |s| - |r|)
    decreases l, 1
  {
    hide *;
    ItemsParts(l, r);
    ItemsMeanOnce(l, i, m, scan);
    var y := DocText(l.item) + (RestText(l.rest) + r);
    var s := GapText(g) + y;
    DocReads(l.item, RestText(l.rest) + r, scan);
    FirstToken(l.item, RestText(l.rest) + r);
    ValueBehind(g, y, scan);
    ReadItemsCases(s, i, m, scan);
    var v := DocMeans(l.item, scan);
    ResultShift(v, |DocText(l.item)|, |GapText(g)|);
    NothingRead();
    if v.Some? {
      var at := |GapText(g)| + |DocText(l.item)|;
      var u := RestText(l.rest) + r;
      Layout(GapText(g), DocText(l.item), RestText(l.rest), r);
      RestStarts(l.rest, r);
      var n := Insert(m, Index(i), v.value);
      var w := |l.rest.ws| + 1;
      if l.rest.NextItem? {
        var k := l.rest.items;
        var z := GapText(k.gap) + (DocText(k.item) + (RestText(k.rest) + r));
        Further(s, at, w, u);
        ItemsParts(k, r);
        ItemsReads(k, k.gap, r, i + 1, n, scan);
        var goal := ItemsMean(k, i + 1, n, scan);
        ResultShift(if goal.Some? then Some(Array(goal.value)) else None, |z| - |r|, at + w);
      } else {
        ResultShift(Some(Array(n)), w, at);
      }
    }
  }

  lemma Layout(g: string, d: string, o: string, r: string)
    ensures var s, at := g + (d + (o + r)), |g| + |d|;
      at + |o| + |r| == |s| && s[at..] == o + r
  {
    assert g + (d + (o + r)) == (g + d) + (o + r);
  }

  lemma NothingRead()
    ensures forall n :: Result(None, n) == Fail && Result(ObjectOf(None), n) == Fail
  {
  }

  lemma ResultShift(v: Option<Value>, n: nat, k: nat)
    ensures Result(v, n).Shift(k) == Result(v, k + n)
    ensures v.Some? ==> Result(v, k + n) == Ok(v.value, k + n)
    ensures v.None? ==> Result(v, k + n) == Fail
  {
  }

  lemma ItemsParts(l: Elements, r: string)
    requires ItemsOk(l, r)
    ensures GapOk(l.gap) && DocOk(l.item, RestText(l.rest) + r) && RestOk(l.rest, r) && BlankText(l.rest.ws)
    ensures l.rest.NextItem? ==> ItemsOk(l.rest.items, r)
  {
    hide GapOk, DocOk, ItemsOk, RestText, BlankText;
    ItemsOkOnce(l, r);
    RestOkOnce(l.rest, r);
  }

  lemma ItemsOkOnce(l: Elements, r: string)
    requires ItemsOk(l, r)
    ensures GapOk(l.gap) && DocOk(l.item, RestText(l.rest) + r) && RestOk(l.rest, r)
  {
    hide GapOk, DocOk, RestOk, RestText;
  }

  lemma RestOkOnce(l: Rest, r: string)
    requires RestOk(l, r)
    ensures BlankText(l.ws) && (l.NextItem? ==> ItemsOk(l.items, r))
  {
    hide BlankText, ItemsOk;
  }

  lemma ItemsMeanOnce(l: Elements, i: nat, m: Entries, scan: Scanner)
    ensures var v := DocMeans(l.item, scan);
      && (v.None? ==> ItemsMean(l, i, m, scan) == None)
      && (v.Some? ==>
            var n := Insert(m, Index(i), v.value);
            ItemsMean(l, i, m, scan) == if l.rest.NextItem? then ItemsMean(l.rest.items, i + 1, n, scan) else Some(n))
  {
    hide DocMeans, Insert;
  }

  lemma RestStarts(l: Rest, r: string)
    requires BlankText(l.ws)
    ensures var u, w := RestText(l) + r, |l.ws| + 1;
      && w <= |u| && Lex(u) == Tok(if l.LastItem? then ArrayEnd else Comma, |l.ws|, w)
      && (l.LastItem? ==> w == |RestText(l)|)
      && (l.NextItem? ==> u[w..] == GapText(l.items.gap) + (DocText(l.items.item) + (RestText(l.items.rest) + r)))
  {
    hide BlankText, Lex, LexAt, GapText, DocText, TokenAhead, ItemsText;
    match l
    case LastItem(ws) =>
      assert ws + "]" + r == ws + ("]" + r);
      SignLex(ws, "]", r);
    case NextItem(ws, items) =>
      var z := GapText(items.gap) + (DocText(items.item) + (RestText(items.rest) + r));
      ItemsTextIs(items);
      assert ItemsText(items) + r == z;
      assert ws + ("," + ItemsText(items)) + r == ws + ("," + z);
      SignLex(ws, ",", z);
  }

  lemma ItemsTextIs(l: Elements)
    ensures ItemsText(l) == GapText(l.gap) + (DocText(l.item) + RestText(l.rest))
  {
    hide GapText, DocText, RestText;
  }

  lemma SignLex(ws: string, c: string, z: string)
    requires BlankText(ws) && (c == "]" || c == ",")
    ensures var u := ws + (c + z);
      Lex(u) == Tok(if c == "]" then ArrayEnd else Comma, |ws|, |ws| + 1) && u[|ws| + 1..] == z
  {
    hide BlankText, Lex, LexAt, TokenAhead;
    Closing(z);
    AheadIs(c + z);
    BlankLex(ws, c + z);
    assert ws + (c + z) == (ws + c) + z;
    Cut(ws + c, z);
  }

  lemma AheadIs(x: string)
    requires TokenAhead(x)
    ensures x != "" && x[0] !in {' ', '\t', '\r', '\n'}
  {
  }

  /** The member with its name taken off: from the white space in front of the ':' on. */
  function FromColon(l: Members, r: string): string {
    l.ws + (":" + (GapText(l.before) + (DocText(l.value) + (MoreText(l.more) + r))))
  }

  function QuotedName(l: Members): string { "\"" + (Spell(l.name) + "\"") }

  lemma MemberLayout(l: Members, r: string)
    ensures MembersText(l) + r == GapText(l.gap) + (QuotedName(l) + FromColon(l, r))
  {
    hide GapText, DocText, MoreText, Spell;
    MembersTextOnce(l);
    var d := GapText(l.before) + (DocText(l.value) + MoreText(l.more));
    assert d + r == GapText(l.before) + (DocText(l.value) + (MoreText(l.more) + r));
    Regrouping(GapText(l.gap), Spell(l.name), l.ws, d, r);
  }

  lemma MembersTextOnce(l: Members)
    ensures MembersText(l) ==
      GapText(l.gap) + ("\"" + (Spell(l.name) + ("\"" + (l.ws + (":" + (GapText(l.before) + (DocText(l.value) + MoreText(l.more))))))))
  {
    hide GapText, DocText, MoreText, Spell;
  }

  lemma Regrouping(g: string, n: string, ws: string, d: string, r: string)
    ensures g + ("\"" + (n + ("\"" + (ws + (":" + d))))) + r == g + (("\"" + (n + "\"")) + (ws + (":" + (d + r))))
  {
    assert ws + (":" + d) + r == ws + (":" + (d + r));
    assert "\"" + (n + ("\"" + (ws + (":" + d)))) + r == ("\"" + (n + "\"")) + (ws + (":" + d) + r);
  }

  lemma MembersParts(l: Members, r: string)
    requires MembersOk(l, r)
    ensures GapOk(l.gap) && PiecesOk(l.name) && BlankText(l.ws) && GapOk(l.before)
    ensures DocOk(l.value, MoreText(l.more) + r) && MoreOk(l.more, Says(l.name), r)
  {
    hide GapOk, PiecesOk, BlankText, DocOk, MoreOk, MoreText, Says;
  }

  function MoreMean(l: More, m: Entries, scan: Scanner): Option<Entries> {
    if l.NextMember? then MembersMean(l.members, m, scan) else Some(m)
  }

  lemma MembersMeanOnce(l: Members, m: Entries, scan: Scanner)
    ensures var v := DocMeans(l.value, scan);
      MembersMean(l, m, scan) == if v.None? then None else MoreMean(l.more, Insert(m, Name(CStr(Says(l.name))), v.value), scan)
  {
    hide DocMeans, Insert, CStr, Says;
  }

  function ObjectOf(m: Option<Entries>): Option<Value> {
    if m.Some? then Some(Object(m.value)) else None
  }

  lemma {:induction false} MembersReads(l: Members, name: string, m: Entries, r: string, scan: Scanner)
    requires MembersOk(l, r)
    ensures ReadMembers(MembersText(l) + r, name, m, scan) == Result(ObjectOf(MembersMean(l, m, scan)), |MembersText(l)|)
    decreases l, 2
  {
    hide ReadMembers, ReadMember, NextToken, LexAt, StringOf, Says, Spell, MembersText, MembersMean, GapText, FromColon, QuotedName, TokenAhead, GapOk, PiecesOk, MembersOk, CStr, BlankText, DocOk, MoreOk, MoreText;
    MembersParts(l, r);
    MemberLayout(l, r);
    var q, y, n := QuotedName(l), FromColon(l, r), |GapText(l.gap)|;
    var s := MembersText(l) + r;
    NameToken(l, y);
    GapLex(l.gap, q + y);
    ReadMembersCases(s, name, m, scan);
    Slices(GapText(l.gap), q + y, 0, |q|);
    Cut(q, y);
    MemberReads(l, m, r, scan);
    ResultShift(ObjectOf(MembersMean(l, m, scan)), |y| - |r|, n + |q|);
  }

  lemma NameToken(l: Members, y: string)
    requires PiecesOk(l.name)
    ensures var q := QuotedName(l);
      TokenAhead(q + y) && LexAt(q + y) == Tok(StringToken, 0, |q|) && StringOf(q) == Some(Says(l.name))
  {
    hide LexAt, PiecesOk, Spell, Says, StringOf;
    StringFirst(l.name, y);
    StringMeans(l.name);
  }

  lemma {:induction false} MemberReads(l: Members, m: Entries, r: string, scan: Scanner)
    requires MembersOk(l, r)
    ensures |r| <= |FromColon(l, r)|
    ensures ReadMember(FromColon(l, r), Says(l.name), m, scan) == Result(ObjectOf(MembersMean(l, m, scan)), |FromColon(l, r)| - |r|)
    decreases l, 1
  {
    hide *;
    MembersParts(l, r);
    MembersMeanOnce(l, m, scan);
    var x, y := DocText(l.value) + (MoreText(l.more) + r), FromColon(l, r);
    var z := GapText(l.before) + x;
    ColonStarts(l, r);
    DocReads(l.value, MoreText(l.more) + r, scan);
    FirstToken(l.value, MoreText(l.more) + r);
    ValueBehind(l.before, x, scan);
    ReadMemberCases(y, Says(l.name), m, scan);
    var v := DocMeans(l.value, scan);
    ResultShift(v, |DocText(l.value)|, |GapText(l.before)|);
    NothingRead();
    if v.Some? {
      var n := Insert(m, Name(CStr(Says(l.name))), v.value);
      MoreReads(l.more, Says(l.name), n, r, scan);
      ResultShift(ObjectOf(MoreMean(l.more, n, scan)), |MoreText(l.more)|, |y| - |r| - |MoreText(l.more)|);
    }
  }

  lemma ColonStarts(l: Members, r: string)
    requires BlankText(l.ws)
    ensures var z, y := GapText(l.before) + (DocText(l.value) + (MoreText(l.more) + r)), FromColon(l, r);
      && Lex(y) == Tok(Colon, |l.ws|, |l.ws| + 1) && |l.ws| + 1 <= |y| && y[|l.ws| + 1..] == z
      && var at := |l.ws| + 1 + (|GapText(l.before)| + |DocText(l.value)|);
      && at + |MoreText(l.more)| + |r| == |y| && y[at..] == MoreText(l.more) + r
  {
    hide BlankText, Lex, LexAt, GapText, DocText, MoreText, TokenAhead;
    var z := GapText(l.before) + (DocText(l.value) + (MoreText(l.more) + r));
    var y := FromColon(l, r);
    Closing(z);
    AheadIs(":" + z);
    BlankLex(l.ws, ":" + z);
    assert y == (l.ws + ":") + z;
    Cut(l.ws + ":", z);
    var p := (l.ws + ":") + (GapText(l.before) + DocText(l.value));
    assert y == p + (MoreText(l.more) + r);
    Cut(p, MoreText(l.more) + r);
  }

  lemma ReadOnNext(s: string, name: string, m: Entries, scan: Scanner)
    ensures var t, r := NextToken(s), ReadOn(s, name, m, scan);
      if Lex(s).kind !in {ObjectEnd, Comma, Comment} then r == Fail
      else if t.kind == ObjectEnd then r == Ok(Object(m), t.end)
      else r == ReadMembers(s[t.end..], name, m, scan).Shift(t.end)
  {
    hide Lex, NextToken, ReadMembers;
    NextOnce(s);
  }

  lemma GapFirst(g: Gap, x: string)
    requires GapOk(g) && TokenAhead(x)
    ensures Lex(GapText(g) + x).kind == if g.Note? then Comment else LexAt(x).kind
  {
    hide Lex, LexAt, StarComment, LineComment;
    if g.Note? {
      var y := g.comment + (GapText(g.rest) + x);
      CommentLexes(g.comment, GapText(g.rest) + x);
      CommentSome(g.comment);
      BlankLex(g.ws, y);
      assert GapText(g) + x == g.ws + y;
    } else {
      BlankLex(g.ws, x);
    }
  }

  /** A separator behind its gap. */
  lemma SepReads(gap: Gap, sep: string, x: string, name: string, m: Entries, scan: Scanner)
    requires GapOk(gap) && SepOk(gap, sep, x)
    ensures var s := GapText(gap) + (sep + x);
      ReadOn(s, name, m, scan) == ReadMembers(x, name, m, scan).Shift(|GapText(gap)| + |sep|)
  {
    hide Lex, LexAt, NextToken, ReadMembers, ReadOn, GapOk, TokenAhead, GapText;
    var s := GapText(gap) + (sep + x);
    Closing(x);
    GapFirst(gap, sep + x);
    GapLex(gap, sep + x);
    ReadOnNext(s, name, m, scan);
    assert s == (GapText(gap) + sep) + x;
    Cut(GapText(gap) + sep, x);
  }

  lemma {:induction false} MoreReads(l: More, name: string, m: Entries, r: string, scan: Scanner)
    requires MoreOk(l, name, r)
    ensures ReadOn(MoreText(l) + r, name, m, scan) == Result(ObjectOf(MoreMean(l, m, scan)), |MoreText(l)|)
    decreases l, 2
  {
    hide LexAt, Lex, NextToken, ReadMembers, ReadOn, GapOk, GapText, MembersText, MembersOk, MembersMean, TokenAhead, SepOk;
    match l
    case LastMember(gap) =>
      var s := GapText(gap) + ("}" + r);
      assert MoreText(l) + r == s;
      Closing(r);
      GapFirst(gap, "}" + r);
      GapLex(gap, "}" + r);
      ReadOnNext(s, name, m, scan);
    case NextMember(gap, sep, members) =>
      var x := MembersText(members) + r;
      assert MoreText(l) + r == GapText(gap) + (sep + x);
      SepReads(gap, sep, x, name, m, scan);
      MembersReads(members, name, m, r, scan);
    case Trailing(gap, sep, end) =>
      var x := GapText(end) + ("}" + r);
      assert MoreText(l) + r == GapText(gap) + (sep + x);
      SepReads(gap, sep, x, name, m, scan);
      BraceReads(end, r, scan);
  }

  /** SetDoc of the reader: any gap in front. */
  lemma TextReads(g: Gap, d: Doc, r: string, scan: Scanner)
    requires GapOk(g) && DocOk(d, r)
    ensures ReadValue(GapText(g) + (DocText(d) + r), scan) == Result(DocMeans(d, scan), |GapText(g)| + |DocText(d)|)
  {
    hide *;
    FirstToken(d, r);
    DocReads(d, r, scan);
    ValueBehind(g, DocText(d) + r, scan);
    ResultShift(DocMeans(d, scan), |DocText(d)|, |GapText(g)|);
  }

  // ---- Every text that is read is a document

  lemma WordOf(x: string)
    requires TokenAhead(x)
    ensures var t := LexAt(x);
      && t.start == 0 < t.end <= |x|
      && (t.kind in {NullToken, TrueToken, FalseToken, ArrayBegin, ArrayEnd, ObjectBegin, ObjectEnd, Comma, Colon} ==> x[..t.end] == Spelling(t.kind))
  {
    hide Run, StringEnd, CommentEnd;
    var t, r := LexAt(x), x[1..];
    assert x[..1] == [x[0]];
    if t.kind == NullToken { WordHead(x, "ull"); }
    if t.kind == TrueToken { WordHead(x, "rue"); }
    if t.kind == FalseToken { WordHead(x, "alse"); }
  }

  lemma WordHead(x: string, w: string)
    requires x != "" && Starts(x[1..], w)
    ensures 1 + |w| <= |x| && x[..1 + |w|] == [x[0]] + w
  {
    assert x[1..][..|w|] == x[1..1 + |w|];
  }

  lemma NumberOfText(x: string)
    requires TokenAhead(x) && LexAt(x).kind == NumberToken
    ensures var n := LexAt(x).end; n <= |x| && NumberOk(x[..n]) && (x[n..] == "" || !NumberChar(x[n..][0]))
  {
    hide StringEnd, CommentEnd, Starts;
    NumberChars();
    var n := LexAt(x).end;
    forall k | 0 <= k < n
      ensures NumberChar(x[..n][k])
    {
      if k > 0 { assert x[1..][k - 1] == x[k]; }
    }
    if n < |x| { assert x[1..][n - 1] == x[n]; }
  }

  lemma {:induction false} EndPrefix(s: string)
    requires StringEnd(s).0
    ensures StringEnd(s[..StringEnd(s).1]) == StringEnd(s)
    decreases |s|
  {
    hide StringEnd;
    EndCases(s);
    var e := StringEnd(s).1;
    if s[0] == '\"' {
      assert s[..1] == "\"" + "";
      StringEndQuote("");
    } else if s[0] == '\\' && |s| > 1 {
      EndPrefix(s[2..]);
      assert s[..e][2..] == s[2..][..e - 2];
      TwoEnd(s[..e], s[..e][2..]);
    } else {
      EndPrefix(s[1..]);
      assert s[..e][1..] == s[1..][..e - 1];
      LoneEnds(s[..e]);
    }
  }

  lemma LoneEnds(s: string)
    requires |s| > 1 && s[0] != '\"' && s[0] != '\\'
    ensures StringEnd(s) == (StringEnd(s[1..]).0, StringEnd(s[1..]).1 + 1)
  {
    OneEnds(s, s[1..]);
  }

  /** How the end of a string was found. */
  lemma EndCases(s: string)
    requires StringEnd(s).0
    ensures s != "" && StringEnd(s).1 >= 1
    ensures s[0] == '\"' ==> StringEnd(s).1 == 1
    ensures s[0] == '\\' ==> |s| > 1 && StringEnd(s[2..]).0 && StringEnd(s).1 == StringEnd(s[2..]).1 + 2
    ensures s[0] != '\"' && s[0] != '\\' ==> StringEnd(s[1..]).0 && StringEnd(s).1 == StringEnd(s[1..]).1 + 1
  {
  }

  lemma PiecesOf(x: string) returns (us: seq<Piece>)
    requires TokenAhead(x) && LexAt(x).kind == StringToken && 2 <= LexAt(x).end <= |x| && StringOf(x[..LexAt(x).end]).Some?
    ensures PiecesOk(us) && "\"" + (Spell(us) + "\"") == x[..LexAt(x).end] && StringOf(x[..LexAt(x).end]) == Some(Says(us))
  {
    hide LexAt, StringEnd, Unescape, Spell, Says, PiecesOk;
    var n := LexAt(x).end;
    StringWas(x);
    var body := x[1..n - 1];
    assert x[..n][1..n - 1] == body;
    EndPrefix(x[1..]);
    assert x[1..][..n - 1] == body + "\"";
    us := Pieces(body);
    assert x[..n] == "\"" + (body + "\"");
  }

  lemma StringWas(x: string)
    requires TokenAhead(x) && LexAt(x).kind == StringToken
    ensures x[0] == '\"' && StringEnd(x[1..]).0 && LexAt(x).end == 1 + StringEnd(x[1..]).1
    ensures StringEnd(x[1..]).1 > 0 && x[1..][StringEnd(x[1..]).1 - 1] == '\"'
  {
    hide StringEnd, CommentEnd, Run, Starts;
  }

  /** A token of one character behind white space. */
  lemma SignOf(s: string) returns (ws: string, r: string)
    requires Lex(s).kind in {ArrayEnd, ObjectEnd, Comma, Colon}
    ensures BlankText(ws) && s == ws + (Spelling(Lex(s).kind) + r) && Lex(s).end == |ws| + 1 && r == s[|ws| + 1..]
  {
    hide LexAt, Run, Lex;
    LexCases(s);
    var k := Run(s, SPACE);
    ws, r := s[..k], s[k + 1..];
    SignIs(s[k..]);
    assert s[k..] == [s[k]] + r;
    assert s == s[..k] + s[k..];
  }

  lemma SignIs(x: string)
    requires x != "" && LexAt(x).kind in {ArrayEnd, ObjectEnd, Comma, Colon}
    ensures LexAt(x) == Tok(LexAt(x).kind, 0, 1) && Spelling(LexAt(x).kind) == [x[0]]
  {
    hide Run, StringEnd, CommentEnd, Starts;
  }

  lemma {:induction false} DocOf(x: string, scan: Scanner) returns (d: Doc)
    requires TokenAhead(x) && ReadValue(x, scan).Ok?
    ensures var n := ReadValue(x, scan).used; DocText(d) == x[..n] && DocOk(d, x[n..])
    decreases |x|, 1
  {
    hide LexAt, ReadValue, ReadMembers, ReadArray, NextToken, NumberOk, NumberOf, StringOf, Spell, PiecesOk, ItemsText, MembersText, GapText, ItemsOk, MembersOk, GapOk, TokenAhead, BlankText, CStr;
    NextAtToken(x);
    ReadValueCases(x, scan);
    WordOf(x);
    var t := LexAt(x);
    if t.kind == NullToken {
      d := NullDoc;
    } else if t.kind == TrueToken {
      d := TrueDoc;
    } else if t.kind == FalseToken {
      d := FalseDoc;
    } else if t.kind == NumberToken {
      NumberOfText(x);
      d := NumberDoc(x[..t.end]);
    } else if t.kind == StringToken {
      StringWas(x);
      var us := PiecesOf(x);
      d := StringDoc(us);
    } else if t.kind == ArrayBegin {
      d := ArrayOf(x, scan);
    } else {
      d := BraceOf(x, scan);
    }
  }

  lemma {:induction false} ArrayOf(x: string, scan: Scanner) returns (d: Doc)
    requires |x| >= 1 && x[..1] == "[" && ReadArray(x[1..], scan).Ok?
    ensures var n := 1 + ReadArray(x[1..], scan).used; n <= |x| && DocText(d) == x[..n] && DocOk(d, x[n..])
    decreases |x|, 0
  {
    hide Run, LexAt, ReadItems, GapText, DocText, RestText, DocOk, RestOk, StarComment, LineComment;
    var s := x[1..];
    var k := Run(s, SPACE);
    if k < |s| && s[k] == ']' {
      d := EmptyArrayDoc(s[..k]);
      EmptyDoc(x, k);
    } else {
      var l := ItemsOf(s[k..], 0, Nil, scan);
      var n := ReadItems(s[k..], 0, Nil, scan).used;
      var g := Widened(s[..k], l.gap);
      d := ArrayDoc(l.(gap := g));
      WidenedText(s[..k], l.gap);
      ArrayDocIs(x, k, l, n);
    }
  }

  lemma EmptyDoc(x: string, k: nat)
    requires x != "" && x[..1] == "[" && k + 1 < |x| && k == Run(x[1..], SPACE) && x[1..][k] == ']'
    ensures var d := EmptyArrayDoc(x[1..][..k]); DocText(d) == x[..k + 2] && DocOk(d, x[k + 2..])
  {
    hide Run;
    assert x[0] == x[..1][0];
    assert x[1..][..k] == x[1..k + 1];
    assert x[..k + 2] == "[" + (x[1..k + 1] + "]");
  }

  function Widened(ws: string, g: Gap): Gap {
    match g
    case Blank(w) => Blank(ws + w)
    case Note(w, comment, rest) => Note(ws + w, comment, rest)
  }

  lemma WidenedText(ws: string, g: Gap)
    ensures GapText(Widened(ws, g)) == ws + GapText(g)
    ensures BlankText(ws) && GapOk(g) ==> GapOk(Widened(ws, g))
  {
    hide StarComment, LineComment;
    if g.Note? { assert (ws + g.ws) + (g.comment + GapText(g.rest)) == ws + (g.ws + (g.comment + GapText(g.rest))); }
  }

  lemma ArrayDocIs(x: string, k: nat, l: Elements, n: nat)
    requires x != "" && x[..1] == "[" && k == Run(x[1..], SPACE) && 1 + k + n <= |x|
    requires ItemsText(l) == x[1..][k..][..n] && ItemsOk(l, x[1..][k..][n..])
    requires GapText(Widened(x[1..][..k], l.gap)) == x[1..][..k] + GapText(l.gap)
    requires BlankText(x[1..][..k]) && GapOk(l.gap) ==> GapOk(Widened(x[1..][..k], l.gap))
    ensures var d := ArrayDoc(l.(gap := Widened(x[1..][..k], l.gap)));
      DocText(d) == x[..1 + k + n] && DocOk(d, x[1 + k + n..])
  {
    hide Run, GapText, DocText, RestText, DocOk, RestOk, GapOk, Widened;
    var ws, m := x[1..][..k], l.(gap := Widened(x[1..][..k], l.gap));
    assert x[1..][k..][n..] == x[1 + k + n..];
    ArrayText(m);
    assert ItemsText(m) == ws + ItemsText(l);
    assert x[1..][k..][..n] == x[1 + k..1 + k + n] && ws == x[1..1 + k];
    assert x[..1 + k + n] == "[" + (x[1..1 + k] + x[1 + k..1 + k + n]);
    ArrayOk(m, x[1 + k + n..]);
  }

  lemma ArrayText(m: Elements)
    ensures DocText(ArrayDoc(m)) == "[" + ItemsText(m)
  {
    hide ItemsText;
  }

  lemma ArrayOk(m: Elements, r: string)
    requires ItemsOk(m, r)
    ensures DocOk(ArrayDoc(m), r)
  {
    hide ItemsOk;
  }

  lemma {:induction false} ItemsOf(s: string, i: nat, m: Entries, scan: Scanner) returns (l: Elements)
    requires ReadItems(s, i, m, scan).Ok?
    ensures var n := ReadItems(s, i, m, scan).used; ItemsText(l) == s[..n] && ItemsOk(l, s[n..])
    decreases |s|, 3
  {
    hide ReadItems, ReadValue, Lex, LexAt, NextToken, GapText, GapOk, DocText, DocOk, RestText, ItemsText, ItemsOk, TokenAhead, BlankText, Insert;
    ReadItemsCases(s, i, m, scan);
    var g, d, n := ValueOf(s, scan);
    var u := s[n..];
    var ws, r := SignOf(u);
    var e := n + |ws| + 1;
    SignAt(s, n, ws, Spelling(Lex(u).kind), r);
    if Lex(u).kind == ArrayEnd {
      l := Elements(g, d, LastItem(ws));
      LastIs(g, d, ws, r);
    } else {
      var p := Insert(m, Index(i), ReadValue(s, scan).v);
      var k := ItemsOf(r, i + 1, p, scan);
      var w := ReadItems(r, i + 1, p, scan).used;
      l := Elements(g, d, NextItem(ws, k));
      NextIs(g, d, ws, k, r[w..]);
      TakenOn(s, n, ws, ",", r, w);
    }
  }

  /** A text cut behind a sign, and further on. */
  lemma SignAt(s: string, n: nat, ws: string, c: string, r: string)
    requires n <= |s| && s[n..] == ws + (c + r) && |c| == 1
    ensures var e := n + |ws| + 1; e <= |s| && s[e..] == r && s[..e] == s[..n] + (ws + c)
  {
    assert s == s[..n] + s[n..];
    assert s == (s[..n] + (ws + c)) + r;
    Cut(s[..n] + (ws + c), r);
  }

  lemma TakenOn(s: string, n: nat, ws: string, c: string, r: string, w: nat)
    requires n <= |s| && s[n..] == ws + (c + r) && |c| == 1 && w <= |r|
    ensures var e := n + |ws| + 1; e + w <= |s| && s[e + w..] == r[w..] && s[..e + w] == s[..n] + (ws + (c + r[..w]))
    ensures r == r[..w] + r[w..]
  {
    assert r == r[..w] + r[w..];
    assert s == s[..n] + s[n..];
    assert s == (s[..n] + (ws + (c + r[..w]))) + r[w..];
    Cut(s[..n] + (ws + (c + r[..w])), r[w..]);
  }

  lemma LastIs(g: Gap, d: Doc, ws: string, r: string)
    ensures ItemsText(Elements(g, d, LastItem(ws))) == (GapText(g) + DocText(d)) + (ws + "]")
    ensures GapOk(g) && DocOk(d, ws + ("]" + r)) && BlankText(ws) ==> ItemsOk(Elements(g, d, LastItem(ws)), r)
  {
    hide GapText, DocText, GapOk, DocOk, BlankText;
    assert ws + "]" + r == ws + ("]" + r);
  }

  lemma NextIs(g: Gap, d: Doc, ws: string, k: Elements, r: string)
    ensures ItemsText(Elements(g, d, NextItem(ws, k))) == (GapText(g) + DocText(d)) + (ws + ("," + ItemsText(k)))
    ensures GapOk(g) && DocOk(d, ws + ("," + (ItemsText(k) + r))) && BlankText(ws) && ItemsOk(k, r) ==> ItemsOk(Elements(g, d, NextItem(ws, k)), r)
  {
    hide GapText, DocText, GapOk, DocOk, BlankText;
    ItemsTextOnce(g, d, ws, k);
    assert ws + ("," + ItemsText(k)) + r == ws + ("," + (ItemsText(k) + r));
  }

  lemma ItemsTextOnce(g: Gap, d: Doc, ws: string, k: Elements)
    ensures ItemsText(Elements(g, d, NextItem(ws, k))) == GapText(g) + (DocText(d) + RestText(NextItem(ws, k)))
    ensures RestText(NextItem(ws, k)) == ws + ("," + ItemsText(k))
  {
    hide GapText, DocText;
  }

  /** A value with the gap in front of it. */
  lemma {:induction false} ValueOf(s: string, scan: Scanner) returns (g: Gap, d: Doc, n: nat)
    requires ReadValue(s, scan).Ok?
    ensures n == ReadValue(s, scan).used && GapOk(g) && GapText(g) + DocText(d) == s[..n] && DocOk(d, s[n..])
    decreases |s|, 2
  {
    hide ReadValue, Lex, LexAt, NextToken, GapText, GapOk, DocText, DocOk, TokenAhead;
    ReadValueCases(s, scan);
    var x: string;
    SomeToken(s, scan);
    g, x := GapOf(s);
    ValueBehind(g, x, scan);
    d := DocOf(x, scan);
    var w := ReadValue(x, scan).used;
    n := |GapText(g)| + w;
    assert s[..n] == GapText(g) + x[..w] && s[n..] == x[w..];
  }

  lemma SomeToken(s: string, scan: Scanner)
    requires ReadValue(s, scan).Ok?
    ensures NextToken(s).start < NextToken(s).end
  {
    hide ReadMembers, ReadArray, NextToken, NumberOf, StringOf;
  }

  lemma {:induction false} BraceOf(x: string, scan: Scanner) returns (d: Doc)
    requires |x| >= 1 && x[..1] == "{" && ReadMembers(x[1..], "", Nil, scan).Ok?
    ensures var n := 1 + ReadMembers(x[1..], "", Nil, scan).used; n <= |x| && DocText(d) == x[..n] && DocOk(d, x[n..])
    decreases |x|, 0
  {
    hide *;
    var s := x[1..];
    ReadMembersCases(s, "", Nil, scan);
    var n := ReadMembers(s, "", Nil, scan).used;
    Braced(x, n);
    if NextToken(s).kind == ObjectEnd {
      var g := BraceBehind(s);
      d := EmptyObjectDoc(g);
      EmptyObjectIs(g, x[1 + n..]);
    } else {
      var l := MembersOf(s, "", Nil, scan);
      d := ObjectDoc(l);
      ObjectDocIs(l, x[1 + n..]);
    }
  }

  lemma Braced(x: string, n: nat)
    requires x != "" && x[..1] == "{" && n <= |x[1..]|
    ensures x[..1 + n] == "{" + x[1..][..n] && x[1 + n..] == x[1..][n..]
  {
    assert x[0] == x[..1][0];
  }

  lemma EmptyObjectIs(g: Gap, r: string)
    ensures DocText(EmptyObjectDoc(g)) == "{" + (GapText(g) + "}") && (GapOk(g) ==> DocOk(EmptyObjectDoc(g), r))
  {
    hide GapText, GapOk;
  }

  lemma ObjectDocIs(l: Members, r: string)
    ensures DocText(ObjectDoc(l)) == "{" + MembersText(l) && (MembersOk(l, r) ==> DocOk(ObjectDoc(l), r))
  {
    hide MembersText, MembersOk;
  }

  /** The gap in front of a brace. */
  lemma BraceBehind(s: string) returns (g: Gap)
    requires NextToken(s).kind == ObjectEnd
    ensures var n := NextToken(s).end; GapOk(g) && n <= |s| && GapText(g) + "}" == s[..n] && s == GapText(g) + ("}" + s[n..])
    ensures g.Blank? <==> Lex(s).kind != Comment
  {
    hide LexAt, Lex, NextToken, GapText, GapOk, TokenAhead;
    var x: string;
    TokenSome(s);
    g, x := GapOf(s);
    AheadIs(x);
    SignIs(x);
    GapFirst(g, x);
    assert x == "}" + x[1..];
    assert s == (GapText(g) + "}") + x[1..];
    Cut(GapText(g) + "}", x[1..]);
  }

  lemma TokenSome(s: string)
    requires NextToken(s).kind != EndOfStream
    ensures NextToken(s).start < NextToken(s).end
  {
    hide Lex;
  }

  lemma {:induction false} MembersOf(s: string, name: string, m: Entries, scan: Scanner) returns (l: Members)
    requires ReadMembers(s, name, m, scan).Ok? && NextToken(s).kind == StringToken
    ensures var n := ReadMembers(s, name, m, scan).used; MembersText(l) == s[..n] && MembersOk(l, s[n..])
    decreases |s|, 3
  {
    hide LexAt, Lex, NextToken, ReadMembers, ReadMember, StringOf, GapText, GapOk, Spell, Says, PiecesOk, BlankText, DocText, DocOk, MoreOk, MoreText, MembersText, MembersOk, TokenAhead;
    ReadMembersCases(s, name, m, scan);
    TokenSome(s);
    var g, x := GapOf(s);
    WordOf(x);
    var us, e := NameOf(s, g, x);
    var y := s[e..];
    var said := Says(us);
    assert ReadMember(y, said, m, scan).Ok? && ReadMembers(s, name, m, scan).used == e + ReadMember(y, said, m, scan).used by {
      ReadsName(s, name, m, us, e, scan);
    }
    var ws, before, value, more := MemberOf(y, said, m, scan);
    l := Member(g, us, ws, before, value, more);
    MemberIs(s, g, us, e, l, ReadMember(y, said, m, scan).used);
  }

  /** The name at the front of a member. */
  lemma NameOf(s: string, g: Gap, x: string) returns (us: seq<Piece>, e: nat)
    requires TokenAhead(x) && s == GapText(g) + x && NextToken(s) == LexAt(x).Shift(|GapText(g)|)
    requires LexAt(x).start == 0 < LexAt(x).end <= |x| && LexAt(x).kind == StringToken && StringOf(Slice(s, NextToken(s))).Some?
    ensures PiecesOk(us) && e == NextToken(s).end <= |s| && StringOf(Slice(s, NextToken(s))) == Some(Says(us))
    ensures s[..e] == GapText(g) + ("\"" + (Spell(us) + "\""))
  {
    hide LexAt, StringOf, Spell, Says, PiecesOk, GapText, NextToken, TokenAhead;
    var n := LexAt(x).end;
    StringWas(x);
    Slices(GapText(g), x, 0, n);
    us := PiecesOf(x);
    e := |GapText(g)| + n;
    assert s[..e] == GapText(g) + x[..n];
  }

  lemma ReadsName(s: string, name: string, m: Entries, us: seq<Piece>, e: nat, scan: Scanner)
    requires ReadMembers(s, name, m, scan).Ok? && NextToken(s).kind == StringToken && e == NextToken(s).end
    requires StringOf(Slice(s, NextToken(s))) == Some(Says(us))
    ensures ReadMember(s[e..], Says(us), m, scan).Ok? && ReadMembers(s, name, m, scan).used == e + ReadMember(s[e..], Says(us), m, scan).used
  {
    hide ReadMember, ReadMembers, StringOf, Slice, NextToken, Says;
    ReadMembersCases(s, name, m, scan);
  }

  lemma {:induction false} MemberOf(y: string, name: string, m: Entries, scan: Scanner)
    returns (ws: string, before: Gap, value: Doc, more: More)
    requires ReadMember(y, name, m, scan).Ok?
    ensures var n := ReadMember(y, name, m, scan).used;
      && n <= |y| && BlankText(ws) && GapOk(before)
      && y[..n] == ws + (":" + (GapText(before) + (DocText(value) + MoreText(more))))
      && DocOk(value, MoreText(more) + y[n..]) && MoreOk(more, name, y[n..])
    decreases |y|, 3
  {
    hide *;
    ColonWas(y, name, m, scan);
    var z: string;
    ws, z := SignOf(y);
    var e, w := |ws| + 1, 0;
    ReadMemberCases(y, name, m, scan);
    before, value, w := ValueOf(z, scan);
    var u := z[w..];
    var p := Insert(m, Name(CStr(name)), ReadValue(z, scan).v);
    Further(y, e, w, z);
    ShiftedOk(ReadOn(u, name, p, scan), e + w);
    more := MoreOf(u, name, p, scan);
    var k := ReadOn(u, name, p, scan).used;
    Rejoined(y, ws, z, w, k);
    ColonText(y, ws, GapText(before), DocText(value), MoreText(more), u[k..]);
  }

  lemma Further(y: string, e: nat, w: nat, z: string)
    requires e <= |y| && y[e..] == z && w <= |z|
    ensures y[e + w..] == z[w..]
  {
  }

  lemma Rejoined(y: string, ws: string, z: string, w: nat, k: nat)
    requires y == ws + (":" + z) && w <= |z| && k <= |z[w..]|
    ensures y == ws + (":" + (z[..w] + (z[w..][..k] + z[w..][k..])))
    ensures z[w..] == z[w..][..k] + z[w..][k..]
  {
    assert z == z[..w] + z[w..] && z[w..] == z[w..][..k] + z[w..][k..];
  }

  lemma ColonText(y: string, ws: string, g: string, d: string, o: string, r: string)
    requires y == ws + (":" + ((g + d) + (o + r)))
    ensures var n := |ws| + 1 + |g| + |d| + |o|;
      n <= |y| && y[..n] == ws + (":" + (g + (d + o))) && y[n..] == r
  {
    var p := ws + (":" + (g + (d + o)));
    assert y == p + r;
    Cut(p, r);
  }

  lemma ColonWas(y: string, name: string, m: Entries, scan: Scanner)
    requires ReadMember(y, name, m, scan).Ok?
    ensures Lex(y).kind == Colon && Spelling(Colon) == ":"
  {
    hide Lex, ReadValue, ReadOn, Insert, CStr;
  }

  lemma ShiftedOk(r: Read, n: nat)
    ensures Fail.Shift(n) == Fail && (r.Shift(n).Ok? <==> r.Ok?) && (r.Ok? ==> r.Shift(n) == Ok(r.v, n + r.used))
  {
  }

  lemma MemberIs(s: string, g: Gap, us: seq<Piece>, e: nat, l: Members, n: nat)
    requires e + n <= |s| && s[..e] == GapText(g) + ("\"" + (Spell(us) + "\"")) && l.gap == g && l.name == us
    requires GapOk(g) && PiecesOk(us) && BlankText(l.ws) && GapOk(l.before)
    requires s[e..][..n] == l.ws + (":" + (GapText(l.before) + (DocText(l.value) + MoreText(l.more))))
    requires DocOk(l.value, MoreText(l.more) + s[e..][n..]) && MoreOk(l.more, Says(us), s[e..][n..])
    ensures MembersText(l) == s[..e + n] && MembersOk(l, s[e + n..])
  {
    hide GapText, DocText, MoreText, Spell, Says, GapOk, PiecesOk, BlankText, DocOk, MoreOk;
    MembersTextOnce(l);
    assert s[e..][n..] == s[e + n..];
    assert s[..e + n] == s[..e] + s[e..][..n];
    var w := l.ws + (":" + (GapText(l.before) + (DocText(l.value) + MoreText(l.more))));
    assert (GapText(g) + ("\"" + (Spell(us) + "\""))) + w == GapText(g) + ("\"" + (Spell(us) + ("\"" + w)));
  }

  lemma {:induction false} MoreOf(u: string, name: string, m: Entries, scan: Scanner) returns (l: More)
    requires ReadOn(u, name, m, scan).Ok?
    ensures var n := ReadOn(u, name, m, scan).used; n <= |u| && MoreText(l) == u[..n] && MoreOk(l, name, u[n..])
    decreases |u|, 4
  {
    hide *;
    ReadOnNext(u, name, m, scan);
    var t := NextToken(u);
    if t.kind == ObjectEnd {
      var g := BraceBehind(u);
      l := LastMember(g);
      LastMemberIs(g, u[t.end..]);
    } else {
      SepSome(u, name, m, scan);
      var gap, sep := SepOf(u);
      var y := u[t.end..];
      ReadMembersCases(y, name, m, scan);
      if NextToken(y).kind == ObjectEnd {
        var g := BraceBehind(y);
        var k := NextToken(y).end;
        l := Trailing(gap, sep, g);
        TrailingIs(u, gap, sep, g, name, y, k);
      } else {
        var k := MembersOf(y, name, m, scan);
        l := NextMember(gap, sep, k);
        NextMemberIs(u, gap, sep, k, name, y, ReadMembers(y, name, m, scan).used);
      }
    }
  }

  lemma SepSome(u: string, name: string, m: Entries, scan: Scanner)
    requires ReadOn(u, name, m, scan).Ok? && NextToken(u).kind != ObjectEnd
    ensures Lex(u).kind == Comma || Lex(u).kind == Comment
    ensures NextToken(u).start < NextToken(u).end <= |u|
    ensures ReadMembers(u[NextToken(u).end..], name, m, scan).Ok?
    ensures ReadOn(u, name, m, scan).used == NextToken(u).end + ReadMembers(u[NextToken(u).end..], name, m, scan).used
  {
    hide Lex, NextToken, ReadMembers, ReadOn;
    ReadOnNext(u, name, m, scan);
    NextOnce(u);
    var t := NextToken(u);
    if t.start == t.end {
      EndIs(u);
      assert u[t.end..] == "";
      NothingNext("");
      ReadMembersCases("", name, m, scan);
    }
  }

  /** A token without characters is the end of the text. */
  lemma {:induction false} EndIs(s: string)
    ensures NextToken(s).start == NextToken(s).end ==> NextToken(s).end == |s|
    decreases |s|
  {
    hide LexAt, Run, NextToken, Lex;
    NextOnce(s);
    LexCases(s);
    LexSome(s);
    if Lex(s).kind == Comment { EndIs(s[Lex(s).end..]); }
  }

  lemma LexSome(s: string)
    ensures var k := Run(s, SPACE); k < |s| ==> LexAt(s[k..]).start < LexAt(s[k..]).end
  {
    hide LexAt, Run;
  }

  /** The separator with the gap in front of it. */
  lemma SepOf(u: string) returns (gap: Gap, sep: string)
    requires (Lex(u).kind == Comma || Lex(u).kind == Comment) && NextToken(u).kind != ObjectEnd && NextToken(u).start < NextToken(u).end <= |u|
    ensures var e := NextToken(u).end;
      GapOk(gap) && SepOk(gap, sep, u[e..]) && u[..e] == GapText(gap) + sep && u == GapText(gap) + (sep + u[e..])
  {
    hide LexAt, Lex, NextToken, GapText, GapOk, TokenAhead;
    var x: string;
    gap, x := GapOf(u);
    AheadIs(x);
    WordOf(x);
    GapFirst(gap, x);
    var n, e := LexAt(x).end, NextToken(u).end;
    sep := x[..n];
    assert x == sep + x[n..];
    Slices(GapText(gap), x, 0, n);
    assert u[..e] == GapText(gap) + sep;
    assert u[e..] == x[n..];
  }

  lemma LastMemberIs(g: Gap, r: string)
    requires GapOk(g)
    ensures MoreText(LastMember(g)) == GapText(g) + "}" && forall name :: MoreOk(LastMember(g), name, r)
  {
    hide GapText, GapOk;
  }

  lemma TrailingIs(u: string, gap: Gap, sep: string, end: Gap, name: string, y: string, k: nat)
    requires u == GapText(gap) + (sep + y) && GapOk(gap) && GapOk(end) && SepOk(gap, sep, y) && name == "" && k <= |y|
    requires y[..k] == GapText(end) + "}" && y == GapText(end) + ("}" + y[k..])
    ensures var l, n := Trailing(gap, sep, end), |GapText(gap)| + |sep| + k;
      n <= |u| && MoreText(l) == u[..n] && MoreOk(l, name, u[n..])
  {
    hide GapText, GapOk, SepOk;
    var p := GapText(gap) + sep;
    assert u == p + y;
    assert u[..|p| + k] == p + y[..k] && u[|p| + k..] == y[k..];
    assert p + (GapText(end) + "}") == GapText(gap) + (sep + (GapText(end) + "}"));
  }

  lemma NextMemberIs(u: string, gap: Gap, sep: string, members: Members, name: string, y: string, k: nat)
    requires u == GapText(gap) + (sep + y) && GapOk(gap) && SepOk(gap, sep, y) && k <= |y|
    requires MembersText(members) == y[..k] && MembersOk(members, y[k..])
    ensures var l, n := NextMember(gap, sep, members), |GapText(gap)| + |sep| + k;
      n <= |u| && MoreText(l) == u[..n] && MoreOk(l, name, u[n..])
  {
    hide GapText, GapOk, SepOk, MembersText, MembersOk;
    var p := GapText(gap) + sep;
    assert u == p + y;
    assert u[..|p| + k] == p + y[..k] && u[|p| + k..] == y[k..];
    assert y == y[..k] + y[k..];
    assert p + y[..k] == GapText(gap) + (sep + y[..k]);
  }

  // ---- The language of the reader

  /** The first `n` characters of the text are a document, and all that is read of it. */
  ghost predicate Documents(s: string, g: Gap, d: Doc, n: nat) {
    n <= |s| && GapOk(g) && GapText(g) + DocText(d) == s[..n] && DocOk(d, s[n..])
  }

  /** Whatever document a text begins with: it is read as what that document means. */
  lemma ReadAsMeant(s: string, g: Gap, d: Doc, n: nat, scan: Scanner)
    requires Documents(s, g, d, n)
    ensures ReadValue(s, scan) == Result(DocMeans(d, scan), n)
  {
    hide GapOk, GapText, DocText, DocOk, DocMeans, ReadValue;
    assert s == s[..n] + s[n..];
    assert (GapText(g) + DocText(d)) + s[n..] == GapText(g) + (DocText(d) + s[n..]);
    TextReads(g, d, s[n..], scan);
  }

  /** A text is read exactly if it begins with a document that means something; and it means what is
      read. */
  lemma Accepts(s: string, scan: Scanner)
    ensures ReadValue(s, scan).Ok? <==> exists g, d, n :: Documents(s, g, d, n) && DocMeans(d, scan).Some?
    ensures forall g, d, n :: Documents(s, g, d, n) ==> ReadValue(s, scan) == Result(DocMeans(d, scan), n)
  {
    hide ReadValue, DocMeans, Documents;
    forall g, d, n | Documents(s, g, d, n)
      ensures ReadValue(s, scan) == Result(DocMeans(d, scan), n)
    {
      ReadAsMeant(s, g, d, n, scan);
    }
    if ReadValue(s, scan).Ok? {
      var g, d, n := ValueOf(s, scan);
      assert Documents(s, g, d, n) by { IsDocument(s, g, d, n, scan); }
      ReadAsMeant(s, g, d, n, scan);
    }
  }

  lemma IsDocument(s: string, g: Gap, d: Doc, n: nat, scan: Scanner)
    requires ReadValue(s, scan).Ok? && n == ReadValue(s, scan).used && GapOk(g) && GapText(g) + DocText(d) == s[..n] && DocOk(d, s[n..])
    ensures Documents(s, g, d, n)
  {
    hide ReadValue, GapOk, GapText, DocText, DocOk;
  }

  /** So a comma behind the last member is taken if the name of that member is empty. */
  lemma TrailingComma(scan: Scanner)
    ensures ReadValue("{\"\":true,}", scan) == Ok(Object(Entry(Name(""), Bool(true), Nil)), 10)
  {
    hide ReadValue, LexAt;
    var none := Blank("");
    var l := Member(none, [], "", none, TrueDoc, Trailing(none, ",", none));
    MembersTextOnce(l);
    assert Spell([]) == "" && Says([]) == "" && CStr("") == "";
    assert MoreText(l.more) == ",}";
    assert MembersText(l) == "\"\":true,}";
    assert DocText(ObjectDoc(l)) == "{\"\":true,}";
    DocReads(ObjectDoc(l), "", scan);
    assert "{\"\":true,}" + "" == "{\"\":true,}";
  }

  // ---- What arrays and objects hold

  function Length(l: Elements): nat { if l.rest.NextItem? then 1 + Length(l.rest.items) else 1 }

  function Element(l: Elements, k: nat): Doc
    requires k < Length(l)
  {
    if k == 0 then l.item else Element(l.rest.items, k - 1)
  }

  /** An array holds its elements in their order. */
  lemma {:induction false} ArrayHolds(l: Elements, i: nat, m: Entries, scan: Scanner, k: nat)
    requires Sorted(m) && ItemsMean(l, i, m, scan).Some?
    ensures var n := ItemsMean(l, i, m, scan).value;
      && Sorted(n) && (Has(n, Index(k)) <==> i <= k < i + Length(l) || Has(m, Index(k)))
      && (i <= k < i + Length(l) ==> DocMeans(Element(l, k - i), scan) == Some(Find(n, Index(k))))
      && (!(i <= k < i + Length(l)) ==> Find(n, Index(k)) == Find(m, Index(k)))
    decreases l
  {
    hide DocMeans, ItemsMean, Insert, KeyLess, Sorted;
    ItemsMeanOnce(l, i, m, scan);
    var v := DocMeans(l.item, scan).value;
    InsertKeeps(m, Index(i), v);
    FindInsert(m, Index(i), v, Index(k));
    if l.rest.NextItem? {
      ArrayHolds(l.rest.items, i + 1, Insert(m, Index(i), v), scan, k);
    }
  }

  /** The last member of that name. */
  function LastNamed(l: Members, name: string): Option<Doc> {
    var later := if l.more.NextMember? then LastNamed(l.more.members, name) else None;
    if later.Some? then later else if CStr(Says(l.name)) == name then Some(l.value) else None
  }

  /** An object holds, for each name, the value of the last member of that name, and no other. */
  lemma {:induction false} ObjectHolds(l: Members, m: Entries, scan: Scanner, name: string)
    requires Sorted(m) && MembersMean(l, m, scan).Some?
    ensures var n, d := MembersMean(l, m, scan).value, LastNamed(l, name);
      && Sorted(n) && (Has(n, Name(name)) <==> d.Some? || Has(m, Name(name)))
      && (d.Some? ==> DocMeans(d.value, scan) == Some(Find(n, Name(name))))
      && (d.None? ==> Find(n, Name(name)) == Find(m, Name(name)))
    decreases l
  {
    hide DocMeans, MembersMean, Insert, KeyLess, Sorted, CStr, Says;
    MembersMeanOnce(l, m, scan);
    var k, v := Name(CStr(Says(l.name))), DocMeans(l.value, scan).value;
    InsertKeeps(m, k, v);
    FindInsert(m, k, v, Name(name));
    if l.more.NextMember? {
      ObjectHolds(l.more.members, Insert(m, k, v), scan, name);
    }
  }
}
