/** The tokens of Json::Reader, and how numbers and strings are printed and read back
    (sections 2, 6 and 7 of RFC 8259).  Every function works on the text from the current
    position on. */
module JsonLex {
  import opened JsonValue

  datatype Option<T> = None | Some(value: T)

  datatype Kind =
    | EndOfStream | ObjectBegin | ObjectEnd | ArrayBegin | ArrayEnd | StringToken | NumberToken
    | TrueToken | FalseToken | NullToken | Comma | Colon | Comment | BadToken

  /** A token and its first and last offset. */
  datatype Tok = Tok(kind: Kind, start: nat, end: nat) {
    function Shift(n: nat): Tok { Tok(kind, start + n, end + n) }
  }

  const SPACE := {' ', '\t', '\r', '\n'}
  const NUMBER := {'0', '1', '2', '3', '4', '5', '6', '7', '8', '9', '.', 'e', 'E', '+', '-'}

  predicate IsDigit(c: char) { '0' <= c <= '9' }

  /** The number of leading characters of `s` that are in `cs`. */
  function Run(s: string, cs: set<char>): (n: nat)
    ensures n <= |s|
    ensures forall k :: 0 <= k < n ==> s[k] in cs
    ensures n < |s| ==> s[n] !in cs
  {
    if s == "" || s[0] !in cs then 0
    else
      var n := Run(s[1..], cs);
      assert forall k :: 0 < k <= n ==> s[k] == s[1..][k - 1];
      n + 1
  }

  lemma RunIs(s: string, cs: set<char>, n: nat)
    requires n <= |s| && (forall k :: 0 <= k < n ==> s[k] in cs) && (n < |s| ==> s[n] !in cs)
    ensures Run(s, cs) == n
  {
  }

  // ---- Comments, strings and words

  /** readString after the opening quote: how far it reads, and whether it was closed. */
  function StringEnd(s: string): (r: (bool, nat))
    ensures r.1 <= |s| && (r.0 ==> r.1 > 0 && s[r.1 - 1] == '\"')
  {
    if s == "" then (false, 0)
    else if s[0] == '\"' then (true, 1)
    else
      var w := if s[0] == '\\' && |s| > 1 then 2 else 1;
      var r := StringEnd(s[w..]);
      (r.0, r.1 + w)
  }

  /** readCStyleComment after the star. */
  function StarEnd(s: string): (r: (bool, nat))
    ensures r.1 <= |s|
  {
    if s == "" then (false, 0)
    else if s[0] == '*' && |s| > 1 && s[1] == '/' then (true, 2)
    else
      var r := StarEnd(s[1..]);
      (r.0, r.1 + 1)
  }

  /** readCppStyleComment after the second slash. */
  function LineEnd(s: string): (n: nat)
    ensures n <= |s|
  {
    if s == "" then 0 else if s[0] == '\r' || s[0] == '\n' then 1 else 1 + LineEnd(s[1..])
  }

  /** readComment after the slash. */
  function CommentEnd(s: string): (r: (bool, nat))
    ensures r.1 <= |s|
  {
    if s == "" then (false, 0)
    else if s[0] == '*' then
      var r := StarEnd(s[1..]);
      (r.0, r.1 + 1)
    else if s[0] == '/' then (true, 1 + LineEnd(s[1..]))
    else (false, 1)
  }

  /** readToken. */
  function Lex(s: string): (t: Tok)
    ensures t.start <= t.end <= |s|
    ensures t.kind != EndOfStream ==> t.start < t.end
    ensures t.kind == StringToken ==> t.start + 2 <= t.end
  {
    var k := Run(s, SPACE);
    if k == |s| then Tok(EndOfStream, k, k)
    else LexAt(s[k..]).Shift(k)
  }

  /** readToken at a character that is no space. */
  function LexAt(s: string): (t: Tok)
    requires s != ""
    ensures t.start == 0 < t.end <= |s|
    ensures t.kind == StringToken ==> 2 <= t.end
  {
    var c, r := s[0], s[1..];
    if c == '{' then Tok(ObjectBegin, 0, 1)
    else if c == '}' then Tok(ObjectEnd, 0, 1)
    else if c == '[' then Tok(ArrayBegin, 0, 1)
    else if c == ']' then Tok(ArrayEnd, 0, 1)
    else if c == '\"' then
      var e := StringEnd(r);
      Tok(if e.0 then StringToken else BadToken, 0, 1 + e.1)
    else if c == '/' then
      var e := CommentEnd(r);
      Tok(if e.0 then Comment else BadToken, 0, 1 + e.1)
    else if IsDigit(c) || c == '-' then Tok(NumberToken, 0, 1 + Run(r, NUMBER))
    else if c == 't' then Word(r, "rue", TrueToken)
    else if c == 'f' then Word(r, "alse", FalseToken)
    else if c == 'n' then Word(r, "ull", NullToken)
    else if c == ',' then Tok(Comma, 0, 1)
    else if c == ':' then Tok(Colon, 0, 1)
    else if c == '\0' then Tok(EndOfStream, 0, 1)
    else Tok(BadToken, 0, 1)
  }

  predicate Starts(s: string, x: string) { |x| <= |s| && s[..|x|] == x }

  /** match. */
  function Word(r: string, pattern: string, kind: Kind): Tok {
    if Starts(r, pattern) then Tok(kind, 0, 1 + |pattern|) else Tok(BadToken, 0, 1)
  }

  /** skipCommentTokens. */
  function NextToken(s: string): (t: Tok)
    ensures t.start <= t.end <= |s|
    ensures t.kind != EndOfStream ==> t.start < t.end
    ensures t.kind == StringToken ==> t.start + 2 <= t.end
    ensures t.kind != Comment
    decreases |s|
  {
    var t := Lex(s);
    if t.kind == Comment then NextToken(s[t.end..]).Shift(t.end) else t
  }

  // ---- Integers

  const MIN_INT := -0x8000_0000
  const MAX_INT := 0x7fff_ffff
  const MAX_UINT := 0xffff_ffff

  function Digit(d: nat): char
    requires d < 10
  {
    '0' + d as char
  }

  /** uintToString. */
  function Digits(n: nat): (s: string)
    ensures s != "" && forall k :: 0 <= k < |s| ==> IsDigit(s[k])
  {
    if n < 10 then [Digit(n)] else Digits(n / 10) + [Digit(n % 10)]
  }

  function IntText(i: int): string {
    if i < 0 then "-" + Digits(-i) else Digits(i)
  }

  /** What the loop of decodeNumber over the digits comes to: a sum, or that the number is
      read as a double, or a character that is no digit. */
  datatype Tally = Sum(n: nat) | TooBig | NoDigit

  function Accumulate(s: string, value: nat, threshold: nat): Tally {
    if s == "" then Sum(value)
    else if !IsDigit(s[0]) then NoDigit
    else if value >= threshold then TooBig
    else Accumulate(s[1..], value * 10 + (s[0] - '0') as nat, threshold)
  }

  const NEGATIVE_THRESHOLD := 214748364
  const THRESHOLD := 429496729

  /** The characters that make decodeNumber take a number for a double. */
  predicate Fractional(s: string) {
    exists k :: 0 <= k < |s| && (s[k] in {'.', 'e', 'E', '+'} || (s[k] == '-' && k > 0))
  }

  datatype Number = Whole(v: Value) | Double | NoNumber

  /** decodeNumber on an integer. */
  function WholeOf(s: string): Number {
    if s == "" || Fractional(s) then Double
    else if s[0] == '-' then
      var n := Accumulate(s[1..], 0, NEGATIVE_THRESHOLD);
      if n.Sum? then Whole(Int(0 - n.n)) else if n.TooBig? then Double else NoNumber
    else
      var n := Accumulate(s, 0, THRESHOLD);
      if n.Sum? then Whole(if n.n <= MAX_INT then Int(n.n) else UInt(n.n)) else if n.TooBig? then Double else NoNumber
  }

  lemma {:induction false} DigitsRead(n: nat, x: string, threshold: nat)
    requires threshold > 0 && (x != "" ==> IsDigit(x[0]))
    ensures Accumulate(Digits(n) + x, 0, threshold) == if n / 10 < threshold then Accumulate(x, n, threshold) else TooBig
  {
    if n < 10 {
      assert (Digits(n) + x)[1..] == x;
    } else {
      var c := Digit(n % 10);
      DigitsRead(n / 10, [c] + x, threshold);
      assert Digits(n) + x == Digits(n / 10) + ([c] + x);
      assert ([c] + x)[1..] == x;
    }
  }

  lemma DigitsWhole(n: nat)
    ensures !Fractional(Digits(n)) && !Fractional("-" + Digits(n)) && Digits(n)[0] != '-'
  {
    var s := "-" + Digits(n);
    assert forall k :: 0 < k < |s| ==> s[k] == Digits(n)[k - 1];
  }

  /** The loop of decodeNumber never wraps: what it has read stays below ten times the
      threshold. */
  lemma {:induction false} AccumulateBound(s: string, value: nat, threshold: nat)
    requires threshold > 0 && value < 10 * threshold && Accumulate(s, value, threshold).Sum?
    ensures Accumulate(s, value, threshold).n < 10 * threshold
  {
    if s != "" {
      AccumulateBound(s[1..], value * 10 + (s[0] - '0') as nat, threshold);
    }
  }

  /** A signed integer is read back as itself exactly if it is at least -2147483639, and
      as a double otherwise. */
  lemma IntReads(i: int)
    requires MIN_INT <= i <= MAX_INT
    ensures WholeOf(IntText(i)) == if i >= -2147483639 then Whole(Int(i)) else Double
  {
    hide Fractional;
    if i < 0 {
      DigitsWhole(-i);
      DigitsRead(-i, "", NEGATIVE_THRESHOLD);
      assert Digits(-i) + "" == Digits(-i) == IntText(i)[1..];
    } else {
      DigitsWhole(i);
      DigitsRead(i, "", THRESHOLD);
      assert Digits(i) + "" == Digits(i);
    }
  }

  /** An unsigned integer is read back with its value exactly if it is at most 4294967289;
      a small one comes back as a signed integer. */
  lemma UIntReads(u: int)
    requires 0 <= u <= MAX_UINT
    ensures WholeOf(IntText(u)) == if u > 4294967289 then Double else Whole(if u <= MAX_INT then Int(u) else UInt(u))
  {
    hide Fractional;
    DigitsWhole(u);
    DigitsRead(u, "", THRESHOLD);
    assert Digits(u) + "" == Digits(u);
  }

  // ---- Strings

  predicate NulFree(s: string) { forall k :: 0 <= k < |s| ==> s[k] != '\0' }

  /** What of a std::string is left in a C string. */
  function CStr(s: string): (r: string)
    ensures NulFree(s) ==> r == s
    ensures NulFree(r)
  {
    if s == "" || s[0] == '\0' then "" else [s[0]] + CStr(s[1..])
  }

  const BACKSPACE: char := 8 as char
  const FORMFEED: char := 12 as char
  const SPECIAL := {'\"', '\\', BACKSPACE, FORMFEED, '\n', '\r', '\t'}

  /** The letter after the backslash. */
  function Letter(c: char): char {
    if c == BACKSPACE then 'b' else if c == FORMFEED then 'f' else if c == '\n' then 'n'
    else if c == '\r' then 'r' else if c == '\t' then 't' else c
  }

  function Escape(c: char): string {
    if c in SPECIAL then ['\\', Letter(c)] else [c]
  }

  function Escaped(s: string): string {
    if s == "" then "" else Escape(s[0]) + Escaped(s[1..])
  }

  /** valueToQuotedString. */
  function Quote(s: string): string { "\"" + Escaped(s) + "\"" }

  predicate IsHex(c: char) { IsDigit(c) || 'a' <= c <= 'f' || 'A' <= c <= 'F' }

  /** decodeString on the characters between the quotes. */
  function Unescape(s: string): Option<string> {
    if s == "" || s[0] == '\"' then Some("")
    else if s[0] != '\\' then Prefixed([s[0]], Unescape(s[1..]))
    else if |s| == 1 then None
    else if s[1] == 'u' then
      if |s| >= 6 && IsHex(s[2]) && IsHex(s[3]) && IsHex(s[4]) && IsHex(s[5]) then Unescape(s[6..]) else None
    else if s[1] in {'\"', '/', '\\', 'b', 'f', 'n', 'r', 't'} then Prefixed([Plain(s[1])], Unescape(s[2..]))
    else None
  }

  /** The character that a letter after a backslash stands for. */
  function Plain(c: char): char {
    if c == 'b' then BACKSPACE else if c == 'f' then FORMFEED else if c == 'n' then '\n'
    else if c == 'r' then '\r' else if c == 't' then '\t' else c
  }

  function Prefixed(p: string, r: Option<string>): Option<string> {
    if r.Some? then Some(p + r.value) else None
  }

  /** What was escaped is read back. */
  lemma {:induction false} UnescapeEscaped(s: string)
    ensures Unescape(Escaped(s)) == Some(s)
  {
    if s != "" {
      UnescapeEscaped(s[1..]);
      var e, r := Escape(s[0]), Escaped(s[1..]);
      assert (e + r)[|e|..] == r;
      assert s == [s[0]] + s[1..];
      EscapeReads(s[0], r);
    }
  }

  lemma EscapeReads(c: char, r: string)
    ensures Unescape(Escape(c) + r) == Prefixed([c], Unescape(r))
  {
    var e := Escape(c);
    assert (e + r)[|e|..] == r;
    if c in SPECIAL {
      assert Plain(Letter(c)) == c;
    }
  }

  /** An escaped string holds no quote that would end it. */
  lemma {:induction false} StringEndEscaped(s: string, x: string)
    ensures StringEnd(Escaped(s) + ("\"" + x)) == (true, |Escaped(s)| + 1)
  {
    hide Escape, StringEnd;
    if s == "" {
      assert Escaped(s) + ("\"" + x) == "\"" + x;
      StringEndQuote(x);
    } else {
      var e, r := Escape(s[0]), Escaped(s[1..]) + ("\"" + x);
      StringEndEscaped(s[1..], x);
      assert Escaped(s) + ("\"" + x) == e + r;
      StringEndEscape(s[0], r);
    }
  }

  lemma StringEndQuote(x: string)
    ensures StringEnd("\"" + x) == (true, 1)
  {
  }

  lemma StringEndEscape(c: char, r: string)
    ensures StringEnd(Escape(c) + r) == (StringEnd(r).0, StringEnd(r).1 + |Escape(c)|)
  {
    var e := Escape(c);
    assert (e + r)[|e|..] == r;
  }
}
