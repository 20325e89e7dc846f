/** The texts of the two writers to the character: the compact one is its tokens without anything in
    between, the styled one is indented by three blanks for each level. */
module JsonLayout {
  import opened JsonValue
  import opened JsonLex
  import opened JsonParse
  import opened JsonPrint
  import opened JsonGrammar

  // ---- Integers and strings

  /** An integer is printed as its decimal digits, without leading zeros. */
  lemma {:induction false} DigitsAre(n: nat)
    ensures AllDigits(Digits(n)) && Decimal(0, Digits(n)) == n && (n > 0 ==> Digits(n)[0] != '0') && (n == 0 ==> Digits(n) == "0")
  {
    DigitIsChar(n % 10);
    if n < 10 {
      assert Digits(n)[1..] == "";
    } else {
      DigitsAre(n / 10);
      DecimalMore(0, Digits(n / 10), Digit(n % 10));
    }
  }

  lemma DigitIsChar(d: nat)
    requires d < 10
    ensures DigitChar(Digit(d)) && DigitMeans(Digit(d)) == d && Digit(d) == "0123456789"[d]
  {
  }

  lemma {:induction false} DecimalMore(n: nat, s: string, c: char)
    ensures Decimal(n, s + [c]) == 10 * Decimal(n, s) + DigitMeans(c)
    decreases |s|
  {
    hide DigitMeans;
    if s == "" {
      assert s + [c] == [c] && [c][1..] == "";
    } else {
      assert (s + [c])[1..] == s[1..] + [c];
      DecimalMore(10 * n + DigitMeans(s[0]), s[1..], c);
    }
  }

  lemma IntTextIs(i: int)
    ensures i >= 0 ==> AllDigits(IntText(i)) && Decimal(0, IntText(i)) == i
    ensures i < 0 ==> IntText(i)[0] == '-' && AllDigits(IntText(i)[1..]) && Decimal(0, IntText(i)[1..]) == 0 - i
  {
    hide Digits, Decimal, AllDigits;
    DigitsAre(if i < 0 then -i else i);
    if i < 0 { assert IntText(i)[1..] == Digits(-i); }
  }

  /** Seven characters are escaped, and all others are printed as they are. */
  lemma QuoteWrites(c: char)
    ensures Escape(c) ==
      if c == '\"' then ['\\', '\"'] else if c == '\\' then ['\\', '\\']
      else if c == 8 as char then ['\\', 'b'] else if c == 12 as char then ['\\', 'f'] else if c == 10 as char then ['\\', 'n']
      else if c == 13 as char then ['\\', 'r'] else if c == 9 as char then ['\\', 't'] else [c]
  {
  }

  lemma {:induction false} EscapedJoin(p: string, c: char)
    ensures Escaped(p + [c]) == Escaped(p) + Escape(c)
    decreases |p|
  {
    hide Escape;
    if p == "" {
      assert p + [c] == [c] && [c][1..] == "";
    } else {
      assert (p + [c])[1..] == p[1..] + [c];
      EscapedJoin(p[1..], c);
    }
  }

  // ---- FastWriter

  function Concat(l: seq<string>): string {
    if l == [] then "" else l[0] + Concat(l[1..])
  }

  lemma {:induction false} ConcatJoin(a: seq<string>, b: seq<string>)
    ensures Concat(a + b) == Concat(a) + Concat(b)
    decreases |a|
  {
    if a == [] {
      assert a + b == b;
    } else {
      assert (a + b)[1..] == a[1..] + b;
      ConcatJoin(a[1..], b);
      assert a[0] + (Concat(a[1..]) + Concat(b)) == a[0] + Concat(a[1..]) + Concat(b);
    }
  }

  lemma ConcatOne(s: string)
    ensures Concat([s]) == s
  {
    assert [s][1..] == [] && Concat([]) == "";
  }

  /** The tokens with a blank behind every ':' if the text is to be YAML, too. */
  function Spaced(l: seq<string>, yaml: bool): (r: seq<string>)
    ensures |r| == |l|
  {
    seq(|l|, i requires 0 <= i < |l| => if yaml && l[i] == ":" then ": " else l[i])
  }

  lemma SpacedJoin(a: seq<string>, b: seq<string>, yaml: bool)
    ensures Spaced(a + b, yaml) == Spaced(a, yaml) + Spaced(b, yaml)
  {
  }

  lemma SpacedOne(s: string, yaml: bool)
    ensures Spaced([s], yaml) == [if yaml && s == ":" then ": " else s]
  {
  }

  /** What is printed for a list of tokens. */
  function Tight(l: seq<string>, yaml: bool): string { Concat(Spaced(l, yaml)) }

  lemma TightJoin(a: seq<string>, b: seq<string>, yaml: bool)
    ensures Tight(a + b, yaml) == Tight(a, yaml) + Tight(b, yaml)
  {
    hide Spaced, Concat;
    SpacedJoin(a, b, yaml);
    ConcatJoin(Spaced(a, yaml), Spaced(b, yaml));
  }

  lemma TightOne(s: string, yaml: bool)
    ensures Tight([s], yaml) == if yaml && s == ":" then ": " else s
  {
    hide Spaced, Concat;
    SpacedOne(s, yaml);
    ConcatOne(if yaml && s == ":" then ": " else s);
  }

  lemma TightNone(yaml: bool)
    ensures Tight([], yaml) == ""
  {
  }

  /** The compact text is the tokens of the value and nothing else. */
  lemma {:induction false} FastIsTokens(v: Value, yaml: bool, show: Printer)
    ensures FastText(v, yaml, show) == Tight(Lexemes(v, show), yaml)
    decreases Weight(v), 1
  {
    hide Tight, FastItems, FastMembers, ItemLexemes, MemberLexemes, IntText, Quote;
    TightNone(yaml);
    match v
    case Array(a) =>
      FastItemsTokens(a, 0, yaml, show);
      Bracketed("[", ItemLexemes(a, 0, show), "]", yaml);
    case Object(o) =>
      FastMembersTokens(o, true, yaml, show);
      Bracketed("{", MemberLexemes(o, true, show), "}", yaml);
    case NullText =>
    case _ => ScalarTokens(v, yaml, show);
  }

  lemma ScalarTokens(v: Value, yaml: bool, show: Printer)
    requires !v.Array? && !v.Object? && !v.NullText?
    ensures Lexemes(v, show) == [FastText(v, yaml, show)] && Tight(Lexemes(v, show), yaml) == FastText(v, yaml, show)
  {
    hide Tight, Digits, Escaped;
    NoColon(v, yaml, show);
    TightOne(FastText(v, yaml, show), yaml);
  }

  lemma NoColon(v: Value, yaml: bool, show: Printer)
    requires !v.Array? && !v.Object? && !v.NullText?
    ensures FastText(v, yaml, show) != ":"
  {
    hide Digits, Escaped;
    match v
    case Int(i) => IntTextDigits(i);
    case UInt(u) => IntTextDigits(u);
    case Real(x) => assert NumberText(show(x));
    case Text(s) => assert Quote(s)[0] == '\"';
    case _ =>
  }

  lemma Bracketed(a: string, l: seq<string>, b: string, yaml: bool)
    requires a != ":" && b != ":"
    ensures Tight([a] + (l + [b]), yaml) == a + (Tight(l, yaml) + b)
  {
    hide Tight;
    TightJoin([a], l + [b], yaml);
    TightJoin(l, [b], yaml);
    TightOne(a, yaml); TightOne(b, yaml);
  }

  lemma {:induction false} FastItemsTokens(m: Entries, i: nat, yaml: bool, show: Printer)
    ensures FastItems(m, i, yaml, show) == Tight(ItemLexemes(m, i, show), yaml)
    decreases WeightOf(m), ArraySize(m) - i
  {
    hide Tight, FastItems, FastText, ItemLexemes, Lexemes;
    ItemsOnce(m, i, show);
    FastItemsOnce(m, i, yaml, show);
    TightNone(yaml);
    if i < ArraySize(m) {
      FindWeight(m, Index(i));
      var v := Find(m, Index(i));
      FastIsTokens(v, yaml, show);
      FastItemsTokens(m, i + 1, yaml, show);
      Separated(i > 0, Lexemes(v, show), ItemLexemes(m, i + 1, show), yaml);
    }
  }

  lemma Separated(comma: bool, a: seq<string>, b: seq<string>, yaml: bool)
    ensures Tight((if comma then [","] else []) + (a + b), yaml) == (if comma then "," else "") + (Tight(a, yaml) + Tight(b, yaml))
  {
    hide Tight;
    TightJoin(if comma then [","] else [], a + b, yaml);
    TightJoin(a, b, yaml);
    TightOne(",", yaml);
    TightNone(yaml);
  }

  lemma FastItemsOnce(m: Entries, i: nat, yaml: bool, show: Printer)
    ensures i >= ArraySize(m) ==> FastItems(m, i, yaml, show) == ""
    ensures i < ArraySize(m) ==>
      FastItems(m, i, yaml, show) == (if i > 0 then "," else "") + (FastText(Find(m, Index(i)), yaml, show) + FastItems(m, i + 1, yaml, show))
  {
    hide FastText;
  }

  lemma FastMembersOnce(m: Entries, first: bool, yaml: bool, show: Printer)
    ensures m.Nil? || !m.key.Name? ==> FastMembers(m, first, yaml, show) == "" && MemberLexemes(m, first, show) == []
    ensures m.Entry? && m.key.Name? ==>
      && FastMembers(m, first, yaml, show) ==
           (if first then "" else ",") + (Quote(m.key.s) + ((if yaml then ": " else ":") + (FastText(m.value, yaml, show) + FastMembers(m.rest, false, yaml, show))))
      && MemberLexemes(m, first, show) ==
           (if first then [] else [","]) + ([Quote(m.key.s), ":"] + (Lexemes(m.value, show) + MemberLexemes(m.rest, false, show)))
  {
    hide FastText, Lexemes, Quote;
  }

  lemma {:induction false} FastMembersTokens(m: Entries, first: bool, yaml: bool, show: Printer)
    ensures FastMembers(m, first, yaml, show) == Tight(MemberLexemes(m, first, show), yaml)
    decreases WeightOf(m), 0
  {
    hide Tight, FastMembers, FastText, MemberLexemes, Lexemes, Quote;
    FastMembersOnce(m, first, yaml, show);
    TightNone(yaml);
    if m.Entry? && m.key.Name? {
      FastIsTokens(m.value, yaml, show);
      FastMembersTokens(m.rest, false, yaml, show);
      Named(first, Quote(m.key.s), Lexemes(m.value, show), MemberLexemes(m.rest, false, show), yaml) by { QuoteStarts(m.key.s); }
    }
  }

  lemma QuoteStarts(s: string)
    ensures Quote(s) != ":"
  {
    hide Escaped;
    assert Quote(s)[0] == '\"';
  }

  lemma Named(first: bool, q: string, a: seq<string>, b: seq<string>, yaml: bool)
    requires q != ":"
    ensures Tight((if first then [] else [","]) + ([q, ":"] + (a + b)), yaml)
      == (if first then "" else ",") + (q + ((if yaml then ": " else ":") + (Tight(a, yaml) + Tight(b, yaml))))
  {
    hide Tight;
    assert [q, ":"] == [q] + [":"];
    Separated(!first, [q, ":"], a + b, yaml);
    TightJoin([q], [":"], yaml);
    TightJoin(a, b, yaml);
    TightOne(q, yaml); TightOne(":", yaml);
  }

  // ---- StyledWriter

  function Blanks(n: nat): (s: string)
    ensures |s| == n && forall k :: 0 <= k < n ==> s[k] == ' '
  {
    seq(n, _ => ' ')
  }

  /** A new line at a level of nesting: three blanks for each. */
  function NewLine(level: nat): string { "\n" + Blanks(3 * level) }

  function Listed(l: seq<string>, sep: string): string {
    if l == [] then "" else if |l| == 1 then l[0] else l[0] + (sep + Listed(l[1..], sep))
  }

  /** The texts of the elements of an array, as far as each is printed on one line. */
  function Texts(m: Entries, i: nat, show: Printer): (l: seq<string>)
    ensures |l| == if i <= ArraySize(m) then ArraySize(m) - i else 0
    decreases ArraySize(m) - i
  {
    if i >= ArraySize(m) then [] else [Single(Find(m, Index(i)), show)] + Texts(m, i + 1, show)
  }

  function OneLine(m: Entries, show: Printer): string { "[ " + Listed(Texts(m, 0, show), ", ") + " ]" }

  /** An array takes several lines if it has 25 elements or more, if one of them is an array or an object
      that is not empty, or if its line would have 74 characters or more. */
  predicate Long(m: Entries, show: Printer) {
    || ArraySize(m) >= 25
    || (exists i :: 0 <= i < ArraySize(m) && !Simple(Find(m, Index(i))))
    || |OneLine(m, show)| >= 74
  }

  /** The styled text of a value at a level of nesting. */
  function Pretty(v: Value, level: nat, show: Printer): string
    decreases Weight(v), 0
  {
    if Simple(v) then Single(v, show)
    else if v.Array? then
      if Long(v.a, show) then "[" + (PrettyItems(v.a, 0, level + 1, show) + (NewLine(level) + "]")) else OneLine(v.a, show)
    else "{" + (PrettyMembers(v.o, level + 1, show) + (NewLine(level) + "}"))
  }

  function PrettyItems(m: Entries, i: nat, level: nat, show: Printer): string
    decreases WeightOf(m), ArraySize(m) - i
  {
    if i >= ArraySize(m) then ""
    else
      assert Weight(Find(m, Index(i))) < WeightOf(m) by { FindWeight(m, Index(i)); }
      NewLine(level) + (Pretty(Find(m, Index(i)), level, show) + ((if i + 1 == ArraySize(m) then "" else ",") + PrettyItems(m, i + 1, level, show)))
  }

  function PrettyMembers(m: Entries, level: nat, show: Printer): string
    decreases WeightOf(m), 0
  {
    if m.Nil? || !m.key.Name? then ""
    else
      NewLine(level) + (Quote(m.key.s) + (" : " + (Pretty(m.value, level, show)
        + ((if m.rest.Nil? then "" else ",") + PrettyMembers(m.rest, level, show)))))
  }

  // ---- When an array takes several lines

  lemma {:induction false} InLineIsListed(m: Entries, i: nat, show: Printer)
    requires i < ArraySize(m)
    ensures InLine(m, i, show) == (if i > 0 then ", " else "") + Listed(Texts(m, i, show), ", ")
    decreases ArraySize(m) - i
  {
    hide Single, InLine, Texts, Listed;
    InLineOnce(m, i, show);
    TextsOnce(m, i, show);
    ListedOnce(Texts(m, i, show), ", ");
    var s := Single(Find(m, Index(i)), show);
    if i + 1 < ArraySize(m) {
      InLineIsListed(m, i + 1, show);
      assert ([s] + Texts(m, i + 1, show))[1..] == Texts(m, i + 1, show);
    } else {
      InLineOnce(m, i + 1, show);
      assert s + "" == s;
    }
  }

  lemma InLineOnce(m: Entries, i: nat, show: Printer)
    ensures i >= ArraySize(m) ==> InLine(m, i, show) == ""
    ensures i < ArraySize(m) ==> InLine(m, i, show) == (if i > 0 then ", " else "") + (Single(Find(m, Index(i)), show) + InLine(m, i + 1, show))
  {
    hide Single;
  }

  lemma TextsOnce(m: Entries, i: nat, show: Printer)
    ensures i >= ArraySize(m) ==> Texts(m, i, show) == []
    ensures i < ArraySize(m) ==> Texts(m, i, show) == [Single(Find(m, Index(i)), show)] + Texts(m, i + 1, show)
  {
    hide Single;
  }

  lemma ListedOnce(l: seq<string>, sep: string)
    ensures l == [] ==> Listed(l, sep) == ""
    ensures |l| == 1 ==> Listed(l, sep) == l[0]
    ensures |l| > 1 ==> Listed(l, sep) == l[0] + (sep + Listed(l[1..], sep))
  {
  }

  /** The width that isMultineArray adds up is that of the line. */
  lemma {:induction false} InLineWidth(m: Entries, n: nat, show: Printer)
    requires n <= ArraySize(m)
    ensures |Upto(m, n, show)| == Width(Items(m, n), show) + (if n == 0 then 0 else (n - 1) * 2)
  {
    hide Single;
    if n > 0 {
      InLineWidth(m, n - 1, show);
      assert Items(m, n)[..n - 1] == Items(m, n - 1);
    }
  }

  /** The first `n` elements on one line. */
  function Upto(m: Entries, n: nat, show: Printer): string {
    if n == 0 then "" else Upto(m, n - 1, show) + ((if n > 1 then ", " else "") + Single(Find(m, Index(n - 1)), show))
  }

  lemma {:induction false} UptoAll(m: Entries, n: nat, show: Printer)
    requires n <= ArraySize(m)
    ensures Upto(m, n, show) + InLine(m, n, show) == InLine(m, 0, show)
  {
    hide InLine, Single;
    InLineOnce(m, n, show);
    if n == 0 {
      assert "" + InLine(m, 0, show) == InLine(m, 0, show);
    } else {
      UptoAll(m, n - 1, show);
      InLineOnce(m, n - 1, show);
      var s := Single(Find(m, Index(n - 1)), show);
      assert Upto(m, n - 1, show) + ((if n > 1 then ", " else "") + (s + InLine(m, n, show)))
        == (Upto(m, n - 1, show) + ((if n > 1 then ", " else "") + s)) + InLine(m, n, show);
    }
  }

  lemma LongIs(m: Entries, show: Printer)
    requires ArraySize(m) > 0
    ensures MultiLine(m, show) <==> Long(m, show)
    ensures "[ " + InLine(m, 0, show) + " ]" == OneLine(m, show)
  {
    hide Single, InLine, Listed, Texts, Width, Upto, Simple;
    var n := ArraySize(m);
    InLineIsListed(m, 0, show);
    assert "" + Listed(Texts(m, 0, show), ", ") == Listed(Texts(m, 0, show), ", ");
    InLineWidth(m, n, show);
    UptoAll(m, n, show);
    InLineOnce(m, n, show);
    assert |InLine(m, 0, show)| == |Upto(m, n, show)|;
    forall i | 0 <= i < n
      ensures Items(m, n)[i] == Find(m, Index(i))
    {
    }
  }

  // ---- The styled text is the one of the definition

  /** A text that writeIndent breaks the line behind. */
  predicate Firm(d: string) { d != "" && d[|d| - 1] != ' ' && d[|d| - 1] != '\n' }

  /** Where the text of a value begins: on a line of its own, if it takes several. */
  function Lead(d: string, v: Value, level: nat, show: Printer): string {
    if Simple(v) || (v.Array? && !Long(v.a, show)) then d else Indented(d, Blanks(3 * level))
  }

  lemma Breaks(d: string, level: nat)
    requires Firm(d)
    ensures Indented(d, Blanks(3 * level)) == d + NewLine(level)
    ensures level > 0 ==> forall e :: e == d + NewLine(level) ==> Indented(e, Blanks(3 * level)) == e
  {
    assert d + "\n" + Blanks(3 * level) == d + NewLine(level);
  }

  lemma FirmEnd(d: string, p: string, c: string)
    requires |c| == 1 && c[0] != ' ' && c[0] != '\n'
    ensures Firm(p + c) && Firm(d + (p + c))
  {
  }

  lemma FirmJoin(d: string, s: string)
    requires Firm(s)
    ensures Firm(d + s)
  {
  }

  lemma SingleFirm(v: Value, show: Printer)
    requires Simple(v) && Printable(v)
    ensures Firm(Single(v, show))
  {
    hide Escaped, Digits;
    match v
    case Int(i) => IntTextDigits(i); NumberFirm(IntText(i));
    case UInt(u) => IntTextDigits(u); NumberFirm(IntText(u));
    case Real(x) => NumberFirm(show(x));
    case Text(s) => FirmEnd("", "\"" + Escaped(s), "\"");
    case _ =>
  }

  lemma NumberFirm(x: string)
    requires NumberText(x)
    ensures Firm(x)
  {
    assert x[|x| - 1] in NUMBER;
  }

  lemma PrettyFirm(v: Value, level: nat, show: Printer)
    requires Printable(v)
    ensures Firm(Pretty(v, level, show))
  {
    hide PrettyItems, PrettyMembers, Listed, Texts, Single, Simple, NewLine, Long;
    if Simple(v) {
      SingleFirm(v, show);
    } else if v.Array? && Long(v.a, show) {
      FirmJoin("[" + PrettyItems(v.a, 0, level + 1, show), NewLine(level) + "]");
      assert ("[" + PrettyItems(v.a, 0, level + 1, show)) + (NewLine(level) + "]") == "[" + (PrettyItems(v.a, 0, level + 1, show) + (NewLine(level) + "]"));
    } else if v.Array? {
      FirmEnd("", "[ " + Listed(Texts(v.a, 0, show), ", ") + " ", "]");
      assert "[ " + Listed(Texts(v.a, 0, show), ", ") + " " + "]" == OneLine(v.a, show);
    } else {
      ContainerIs(v);
      FirmJoin("{" + PrettyMembers(v.o, level + 1, show), NewLine(level) + "}");
      assert ("{" + PrettyMembers(v.o, level + 1, show)) + (NewLine(level) + "}") == "{" + (PrettyMembers(v.o, level + 1, show) + (NewLine(level) + "}"));
    }
  }

  lemma ContainerIs(v: Value)
    ensures !Simple(v) && !v.Array? ==> v.Object?
  {
  }

  lemma StyledCases(d: string, ind: string, v: Value, show: Printer)
    ensures Simple(v) ==> Styled(d, ind, v, show) == d + Single(v, show)
    ensures !Simple(v) && v.Array? && MultiLine(v.a, show) ==>
      Styled(d, ind, v, show) == Indented(StyledItems(Indented(d, ind) + "[", ind + INDENT, v.a, 0, show), ind) + "]"
    ensures !Simple(v) && v.Array? && !MultiLine(v.a, show) ==> Styled(d, ind, v, show) == d + "[ " + InLine(v.a, 0, show) + " ]"
    ensures !Simple(v) && !v.Array? ==>
      v.Object? && Styled(d, ind, v, show) == Indented(StyledMembers(Indented(d, ind) + "{", ind + INDENT, v.o, show), ind) + "}"
  {
    hide MultiLine, Single, Indented, StyledItems, StyledMembers, InLine;
  }

  lemma DeeperIndent(level: nat)
    ensures Blanks(3 * level) + INDENT == Blanks(3 * (level + 1))
  {
  }

  /** The styled text of a value, wherever it is written. */
  lemma {:induction false} StyledIsPretty(d: string, level: nat, v: Value, show: Printer)
    requires Valid(v) && Printable(v)
    ensures Styled(d, Blanks(3 * level), v, show) == Lead(d, v, level, show) + Pretty(v, level, show)
    decreases Weight(v), 2
  {
    hide Styled, StyledItems, StyledMembers, PrettyItems, PrettyMembers, Indented, Blanks, MultiLine, Long, InLine, OneLine, Simple, Single, NewLine;
    var ind := Blanks(3 * level);
    StyledCases(d, ind, v, show);
    DeeperIndent(level);
    if Simple(v) {
    } else if v.Array? {
      ArrayHasSome(v);
      LongIs(v.a, show);
      if Long(v.a, show) {
        ItemsArePretty(Indented(d, ind), level, v.a, show);
      } else {
        assert d + "[ " + InLine(v.a, 0, show) + " ]" == d + ("[ " + InLine(v.a, 0, show) + " ]");
      }
    } else {
      MembersArePretty(Indented(d, ind), level, v.o, show);
    }
  }

  lemma ArrayHasSome(v: Value)
    requires Valid(v) && v.Array? && !Simple(v)
    ensures ArraySize(v.a) > 0
  {
    SizeOfSome(v.a);
  }

  /** A container on several lines, with its brackets. */
  lemma {:induction false} ItemsArePretty(e: string, level: nat, m: Entries, show: Printer)
    requires Valid(Array(m)) && PrintableEntries(m)
    ensures Indented(StyledItems(e + "[", Blanks(3 * (level + 1)), m, 0, show), Blanks(3 * level)) + "]"
      == e + ("[" + (PrettyItems(m, 0, level + 1, show) + (NewLine(level) + "]")))
    decreases WeightOf(m), ArraySize(m) + 2
  {
    hide StyledItems, PrettyItems, Indented, Blanks, NewLine;
    FirmEnd("", e, "[");
    assert "" + (e + "[") == e + "[";
    ElementsPretty(e + "[", level + 1, m, 0, show);
    var s := e + "[" + PrettyItems(m, 0, level + 1, show);
    Breaks(s, level);
    assert s + NewLine(level) + "]" == e + ("[" + (PrettyItems(m, 0, level + 1, show) + (NewLine(level) + "]")));
  }

  lemma {:induction false} ElementsPretty(d: string, level: nat, m: Entries, i: nat, show: Printer)
    requires Valid(Array(m)) && PrintableEntries(m) && Firm(d) && level > 0
    ensures StyledItems(d, Blanks(3 * level), m, i, show) == d + PrettyItems(m, i, level, show)
    ensures Firm(d + PrettyItems(m, i, level, show))
    decreases WeightOf(m), ArraySize(m) - i
  {
    hide *;
    StyledItemsOnce(d, Blanks(3 * level), m, i, show);
    PrettyItemsOnce(m, i, level, show);
    if i < ArraySize(m) {
      ArrayForm(m, i);
      FindWeight(m, Index(i));
      FoundIsFine(m, Index(i), true);
      var v, c := Find(m, Index(i)), if i + 1 == ArraySize(m) then "" else ",";
      Breaks(d, level);
      var e := d + NewLine(level);
      StyledIsPretty(e, level, v, show);
      LeadIs(e, v, level, show);
      PrettyFirm(v, level, show);
      var s := Pretty(v, level, show);
      NextLine(e, s, c);
      ElementsPretty(e + s + c, level, m, i + 1, show);
      LinesJoin(d, NewLine(level), s, c, PrettyItems(m, i + 1, level, show));
    } else {
      assert d + "" == d;
    }
  }

  lemma LeadIs(e: string, v: Value, level: nat, show: Printer)
    requires Indented(e, Blanks(3 * level)) == e
    ensures Lead(e, v, level, show) == e
  {
  }

  lemma NextLine(e: string, s: string, c: string)
    requires Firm(s) && (c == "" || c == ",")
    ensures Firm(e + s + c) && (c == "" ==> e + s + c == e + s)
  {
  }

  lemma LinesJoin(d: string, n: string, s: string, c: string, r: string)
    ensures (d + n) + s + c + r == d + (n + (s + (c + r)))
  {
    assert (d + n) + s + c + r == d + n + (s + c + r);
  }

  lemma StyledItemsOnce(d: string, ind: string, m: Entries, i: nat, show: Printer)
    ensures i >= ArraySize(m) ==> StyledItems(d, ind, m, i, show) == d
    ensures i < ArraySize(m) ==>
      var e := Styled(Indented(d, ind), ind, Find(m, Index(i)), show);
      StyledItems(d, ind, m, i, show) == StyledItems(if i + 1 == ArraySize(m) then e else e + ",", ind, m, i + 1, show)
  {
    hide Styled, Indented;
  }

  lemma PrettyItemsOnce(m: Entries, i: nat, level: nat, show: Printer)
    ensures i >= ArraySize(m) ==> PrettyItems(m, i, level, show) == ""
    ensures i < ArraySize(m) ==>
      PrettyItems(m, i, level, show) ==
        NewLine(level) + (Pretty(Find(m, Index(i)), level, show) + ((if i + 1 == ArraySize(m) then "" else ",") + PrettyItems(m, i + 1, level, show)))
  {
    hide Pretty, NewLine;
  }

  lemma {:induction false} MembersArePretty(e: string, level: nat, m: Entries, show: Printer)
    requires Valid(Object(m)) && PrintableEntries(m)
    ensures Indented(StyledMembers(e + "{", Blanks(3 * (level + 1)), m, show), Blanks(3 * level)) + "}"
      == e + ("{" + (PrettyMembers(m, level + 1, show) + (NewLine(level) + "}")))
    decreases WeightOf(m), 1
  {
    hide StyledMembers, PrettyMembers, Indented, Blanks, NewLine;
    FirmEnd("", e, "{");
    assert "" + (e + "{") == e + "{";
    MembersPretty(e + "{", level + 1, m, show);
    var s := e + "{" + PrettyMembers(m, level + 1, show);
    Breaks(s, level);
    assert s + NewLine(level) + "}" == e + ("{" + (PrettyMembers(m, level + 1, show) + (NewLine(level) + "}")));
  }

  lemma {:induction false} MembersPretty(d: string, level: nat, m: Entries, show: Printer)
    requires Valid(Object(m)) && PrintableEntries(m) && Firm(d) && level > 0
    ensures StyledMembers(d, Blanks(3 * level), m, show) == d + PrettyMembers(m, level, show)
    ensures Firm(d + PrettyMembers(m, level, show))
    decreases WeightOf(m), 0
  {
    hide *;
    StyledMembersOnce(d, Blanks(3 * level), m, show);
    PrettyMembersOnce(m, level, show);
    if m.Entry? {
      MemberValid(m);
      var v, c := m.value, if m.rest.Nil? then "" else ",";
      Breaks(d, level);
      var q := Quote(m.key.s);
      var e := d + NewLine(level) + q + " : ";
      StyledIsPretty(e, level, v, show);
      BlankEnds(d + NewLine(level) + q, Blanks(3 * level));
      LeadIs(e, v, level, show);
      PrettyFirm(v, level, show);
      var s := Pretty(v, level, show);
      NextLine(e, s, c);
      MembersPretty(e + s + c, level, m.rest, show);
      NamedJoin(d, NewLine(level), q, s, c, PrettyMembers(m.rest, level, show));
    } else {
      assert d + "" == d;
    }
  }

  lemma BlankEnds(p: string, ind: string)
    ensures Indented(p + " : ", ind) == p + " : "
  {
  }

  lemma NamedJoin(d: string, n: string, q: string, s: string, c: string, r: string)
    ensures (d + n + q + " : ") + s + c + r == d + (n + (q + (" : " + (s + (c + r)))))
  {
    LinesJoin(d + n + q, " : ", s, c, r);
    assert d + n + q + (" : " + (s + (c + r))) == d + (n + (q + (" : " + (s + (c + r)))));
  }

  lemma StyledMembersOnce(d: string, ind: string, m: Entries, show: Printer)
    ensures m.Nil? || !m.key.Name? ==> StyledMembers(d, ind, m, show) == d
    ensures m.Entry? && m.key.Name? ==>
      var e := Styled(Indented(d, ind) + Quote(m.key.s) + " : ", ind, m.value, show);
      StyledMembers(d, ind, m, show) == StyledMembers(if m.rest.Nil? then e else e + ",", ind, m.rest, show)
  {
    hide Styled, Indented, Quote;
  }

  lemma PrettyMembersOnce(m: Entries, level: nat, show: Printer)
    ensures m.Nil? || !m.key.Name? ==> PrettyMembers(m, level, show) == ""
    ensures m.Entry? && m.key.Name? ==>
      PrettyMembers(m, level, show) ==
        NewLine(level) + (Quote(m.key.s) + (" : " + (Pretty(m.value, level, show)
          + ((if m.rest.Nil? then "" else ",") + PrettyMembers(m.rest, level, show)))))
  {
    hide Pretty, NewLine, Quote;
  }

  /** What the writers return: that text, and a line feed. */
  lemma WritersReturn(v: Value, yaml: bool, show: Printer)
    requires Valid(v) && Printable(v)
    ensures FastDocument(v, yaml, show) == Tight(Lexemes(v, show), yaml) + "\n"
    ensures StyledDocument(v, show) == Pretty(v, 0, show) + "\n"
  {
    hide Styled, Pretty, Long, FastText, Lexemes, Tight;
    FastIsTokens(v, yaml, show);
    StyledIsPretty("", 0, v, show);
    assert Blanks(0) == "";
    assert Indented("", Blanks(0)) == "";
    assert "" + Pretty(v, 0, show) == Pretty(v, 0, show);
  }
}
