/** What the two writers print, as functions from value to text; both print the tokens of
    the value in some layout, so that both texts are read back as the same value. */
module JsonPrint {
  import opened JsonValue
  import opened JsonLex
  import opened JsonParse

  // ---- FastWriter

  function FastText(v: Value, yaml: bool, show: Printer): string
    decreases Weight(v), 0
  {
    match v
    case Null => "null"
    case Int(i) => IntText(i)
    case UInt(u) => IntText(u)
    case Real(x) => show(x)
    case NullText => ""
    case Text(s) => Quote(s)
    case Bool(b) => if b then "true" else "false"
    case Array(a) => "[" + (FastItems(a, 0, yaml, show) + "]")
    case Object(o) => "{" + (FastMembers(o, true, yaml, show) + "}")
  }

  function FastItems(m: Entries, i: nat, yaml: bool, show: Printer): string
    decreases WeightOf(m), ArraySize(m) - i
  {
    if i >= ArraySize(m) then ""
    else
      assert Weight(Find(m, Index(i))) < WeightOf(m) by { FindWeight(m, Index(i)); }
      (if i > 0 then "," else "") + (FastText(Find(m, Index(i)), yaml, show) + FastItems(m, i + 1, yaml, show))
  }

  function FastMembers(m: Entries, first: bool, yaml: bool, show: Printer): string
    decreases WeightOf(m), 0
  {
    if m.Nil? || !m.key.Name? then ""
    else
      (if first then "" else ",")
        + (Quote(m.key.s) + ((if yaml then ": " else ":") + (FastText(m.value, yaml, show) + FastMembers(m.rest, false, yaml, show))))
  }

  // ---- StyledWriter

  const MARGIN := 74
  const INDENT := "   "

  predicate Simple(v: Value) {
    !(v.Array? && v.a.Entry?) && !(v.Object? && v.o.Entry?)
  }

  /** What pushValue is given for a value that fits on one line by itself. */
  function Single(v: Value, show: Printer): string {
    match v
    case Null => "null"
    case Int(i) => IntText(i)
    case UInt(u) => IntText(u)
    case Real(x) => show(x)
    case NullText => ""
    case Text(s) => Quote(s)
    case Bool(b) => if b then "true" else "false"
    case Array(_) => "[]"
    case Object(_) => "{}"
  }

  /** writeIndent. */
  function Indented(d: string, ind: string): string {
    if d != "" && d[|d| - 1] == ' ' then d
    else (if d != "" && d[|d| - 1] != '\n' then d + "\n" else d) + ind
  }

  /** The elements of an array. */
  function Items(m: Entries, n: nat): (s: seq<Value>)
    ensures |s| == n && forall i :: 0 <= i < n ==> s[i] == Find(m, Index(i))
  {
    seq(n, i requires 0 <= i => Find(m, Index(i)))
  }

  /** The first part of isMultineArray: too many elements, or one that is not simple. */
  predicate Crowded(m: Entries) {
    ArraySize(m) * 3 >= MARGIN || exists i :: 0 <= i < ArraySize(m) && !Simple(Items(m, ArraySize(m))[i])
  }

  function Width(l: seq<Value>, show: Printer): nat {
    if l == [] then 0 else Width(l[..|l| - 1], show) + |Single(l[|l| - 1], show)|
  }

  /** isMultineArray, without comments. */
  predicate MultiLine(m: Entries, show: Printer) {
    Crowded(m) || 4 + (ArraySize(m) - 1) * 2 + Width(Items(m, ArraySize(m)), show) >= MARGIN
  }

  /** The document `d` with a value written behind it. */
  function Styled(d: string, ind: string, v: Value, show: Printer): string
    decreases Weight(v), 0
  {
    if Simple(v) then d + Single(v, show)
    else if v.Array? then
      if MultiLine(v.a, show) then
        Indented(StyledItems(Indented(d, ind) + "[", ind + INDENT, v.a, 0, show), ind) + "]"
      else d + "[ " + InLine(v.a, 0, show) + " ]"
    else
      Indented(StyledMembers(Indented(d, ind) + "{", ind + INDENT, v.o, show), ind) + "}"
  }

  function StyledItems(d: string, ind: string, m: Entries, i: nat, show: Printer): string
    decreases WeightOf(m), ArraySize(m) - i
  {
    if i >= ArraySize(m) then d
    else
      assert Weight(Find(m, Index(i))) < WeightOf(m) by { FindWeight(m, Index(i)); }
      var e := Styled(Indented(d, ind), ind, Find(m, Index(i)), show);
      StyledItems(if i + 1 == ArraySize(m) then e else e + ",", ind, m, i + 1, show)
  }

  /** The elements from `i` on, on one line. */
  function InLine(m: Entries, i: nat, show: Printer): string
    decreases ArraySize(m) - i
  {
    if i >= ArraySize(m) then ""
    else (if i > 0 then ", " else "") + (Single(Find(m, Index(i)), show) + InLine(m, i + 1, show))
  }

  function StyledMembers(d: string, ind: string, m: Entries, show: Printer): string
    decreases WeightOf(m), 0
  {
    if m.Nil? || !m.key.Name? then d
    else
      var e := Styled(Indented(d, ind) + Quote(m.key.s) + " : ", ind, m.value, show);
      StyledMembers(if m.rest.Nil? then e else e + ",", ind, m.rest, show)
  }

  // ---- Layouts

  predicate Spaces(s: string) { forall k :: 0 <= k < |s| ==> s[k] in SPACE }

  /** `e` is `d` with the tokens `l` behind it, in some layout. */
  ghost predicate Extends(d: string, e: string, l: seq<string>) {
    |d| <= |e| && e[..|d|] == d && forall x: string :: After(e[|d|..] + x, l) == Some(x)
  }

  lemma SkipRun(ws: string, t: string)
    requires Spaces(ws)
    ensures Run(ws + t, SPACE) == |ws| + Run(t, SPACE)
  {
    var n := Run(t, SPACE);
    assert forall k :: |ws| <= k < |ws| + n ==> (ws + t)[k] == t[k - |ws|];
    RunIs(ws + t, SPACE, |ws| + n);
  }

  /** White space in front of a token does not matter. */
  lemma AfterSpaces(ws: string, t: string, l: seq<string>)
    requires Spaces(ws) && l != []
    ensures After(ws + t, l) == After(t, l)
  {
    hide Run, Starts, After, Spaces;
    SkipRun(ws, t);
    AfterOnce(ws + t, l);
    AfterOnce(t, l);
    var k := Run(t, SPACE);
    assert (ws + t)[|ws| + k..] == t[k..];
    if Starts(t[k..], l[0]) {
      StartsWidth(t[k..], l[0]);
      assert (ws + t)[|ws| + k + |l[0]|..] == t[k + |l[0]|..];
    }
  }

  lemma ExtendsSpaces(d: string, ws: string, e: string, l: seq<string>)
    requires Spaces(ws) && l != [] && Extends(d + ws, e, l)
    ensures Extends(d, e, l)
  {
    hide After, Spaces;
    assert e[..|d|] == e[..|d + ws|][..|d|] == d;
    var w := e[|d + ws|..];
    assert e[|d|..] == ws + w by { assert e == (d + ws) + w; }
    forall x: string
      ensures After(e[|d|..] + x, l) == Some(x)
    {
      assert (ws + w) + x == ws + (w + x);
      AfterSpaces(ws, w + x, l);
    }
  }

  lemma ExtendsOne(d: string, s: string)
    requires s != "" && s[0] !in SPACE
    ensures Extends(d, d + s, [s])
  {
    hide After;
    assert (d + s)[|d|..] == s;
    forall x: string
      ensures After(s + x, [s]) == Some(x)
    {
      RunIs(s + x, SPACE, 0);
      assert (s + x)[0..] == s + x && (s + x)[..|s|] == s && (s + x)[|s|..] == x;
      AfterOne(s + x, 0, s);
    }
  }

  lemma ExtendsNothing(d: string)
    ensures Extends(d, d, [])
  {
    forall x: string
      ensures After(d[|d|..] + x, []) == Some(x)
    {
      assert d[|d|..] + x == x;
    }
  }

  lemma ExtendsJoin(d: string, e: string, f: string, a: seq<string>, b: seq<string>)
    requires Extends(d, e, a) && Extends(e, f, b)
    ensures Extends(d, f, a + b)
  {
    hide After;
    assert f[..|d|] == f[..|e|][..|d|] == d;
    forall x: string
      ensures After(f[|d|..] + x, a + b) == Some(x)
    {
      var y := f[|e|..] + x;
      assert f[|d|..] + x == e[|d|..] + y by { assert f == e + f[|e|..]; assert f[|d|..] == e[|d|..] + f[|e|..]; }
      AfterJoin(e[|d|..] + y, a, b);
    }
  }

  lemma IndentedIs(d: string, ind: string) returns (ws: string)
    requires Spaces(ind)
    ensures Spaces(ws) && Indented(d, ind) == d + ws
  {
    ws := if d != "" && d[|d| - 1] == ' ' then "" else (if d != "" && d[|d| - 1] != '\n' then "\n" else "") + ind;
  }

  /** A token after writeIndent. */
  lemma ExtendsIndented(d: string, ind: string, s: string)
    requires Spaces(ind) && s != "" && s[0] !in SPACE
    ensures Extends(d, Indented(d, ind) + s, [s])
  {
    hide Extends, Indented;
    var ws := IndentedIs(d, ind);
    ExtendsOne(d + ws, s);
    ExtendsSpaces(d, ws, d + ws + s, [s]);
  }

  // ---- Both writers print a layout of the tokens

  lemma LexemeStarts(v: Value, show: Printer)
    requires Simple(v) && Printable(v)
    ensures !v.Array? && !v.Object? ==> Lexemes(v, show) == [Single(v, show)]
    ensures v.Array? ==> Lexemes(v, show) == ["["] + ["]"]
    ensures v.Object? ==> Lexemes(v, show) == ["{"] + ["}"]
    ensures Single(v, show) != "" && Single(v, show)[0] !in SPACE
  {
    hide Digits;
    match v
    case Int(i) => IntTextDigits(i); NumberStarts(IntText(i));
    case UInt(u) => IntTextDigits(u); NumberStarts(IntText(u));
    case Real(x) => NumberStarts(show(x));
    case Array(a) => assert ItemLexemes(a, 0, show) == []; assert [] + ["]"] == ["]"];
    case Object(o) => assert MemberLexemes(o, true, show) == []; assert [] + ["}"] == ["}"];
    case _ =>
  }

  lemma NumberStarts(x: string)
    requires NumberText(x)
    ensures x[0] !in SPACE
  {
  }

  lemma SimpleExtends(d: string, v: Value, show: Printer)
    requires Simple(v) && Printable(v)
    ensures Extends(d, d + Single(v, show), Lexemes(v, show))
  {
    hide Extends, Lexemes;
    LexemeStarts(v, show);
    if v.Array? || v.Object? {
      var a, b := if v.Array? then "[" else "{", if v.Array? then "]" else "}";
      ExtendsOne(d, a);
      ExtendsOne(d + a, b);
      assert d + a + b == d + Single(v, show);
      ExtendsJoin(d, d + a, d + a + b, [a], [b]);
    } else {
      ExtendsOne(d, Single(v, show));
    }
  }

  lemma {:induction false} FastExtends(v: Value, d: string, yaml: bool, show: Printer)
    requires Valid(v) && Printable(v)
    ensures Extends(d, d + FastText(v, yaml, show), Lexemes(v, show))
    decreases Weight(v), 0
  {
    hide Extends, Lexemes, FastItems, FastMembers;
    LexemesOf(v, show);
    if v.Array? {
      ExtendsOne(d, "[");
      FastItemsExtend(v.a, 0, d + "[", yaml, show);
      var e := d + "[" + FastItems(v.a, 0, yaml, show);
      ExtendsOne(e, "]");
      ExtendsJoin(d + "[", e, e + "]", ItemLexemes(v.a, 0, show), ["]"]);
      ExtendsJoin(d, d + "[", e + "]", ["["], ItemLexemes(v.a, 0, show) + ["]"]);
      assert e + "]" == d + ("[" + (FastItems(v.a, 0, yaml, show) + "]"));
    } else if v.Object? {
      ExtendsOne(d, "{");
      FastMembersExtend(v.o, true, d + "{", yaml, show);
      var e := d + "{" + FastMembers(v.o, true, yaml, show);
      ExtendsOne(e, "}");
      ExtendsJoin(d + "{", e, e + "}", MemberLexemes(v.o, true, show), ["}"]);
      ExtendsJoin(d, d + "{", e + "}", ["{"], MemberLexemes(v.o, true, show) + ["}"]);
      assert e + "}" == d + ("{" + (FastMembers(v.o, true, yaml, show) + "}"));
    } else {
      SimpleExtends(d, v, show);
    }
  }

  /** A separator, unless it is the first one. */
  lemma SeparatorExtends(d: string, first: bool)
    ensures Extends(d, d + (if first then "" else ","), if first then [] else [","])
  {
    hide Extends;
    if first {
      ExtendsNothing(d);
      assert d + "" == d;
    } else {
      ExtendsOne(d, ",");
    }
  }

  lemma {:induction false} FastItemsExtend(m: Entries, i: nat, d: string, yaml: bool, show: Printer)
    requires ValidEntries(m, true) && PrintableEntries(m)
    ensures Extends(d, d + FastItems(m, i, yaml, show), ItemLexemes(m, i, show))
    decreases WeightOf(m), ArraySize(m) - i
  {
    hide Extends, Lexemes, FastText, ItemLexemes;
    ItemsOnce(m, i, show);
    if i >= ArraySize(m) {
      ExtendsNothing(d);
      assert d + "" == d;
    } else {
      var v := Find(m, Index(i));
      FindWeight(m, Index(i));
      FoundIsFine(m, Index(i), true);
      var p := if i > 0 then "," else "";
      var t, r := FastText(v, yaml, show), FastItems(m, i + 1, yaml, show);
      SeparatorExtends(d, i == 0);
      FastExtends(v, d + p, yaml, show);
      FastItemsExtend(m, i + 1, d + p + t, yaml, show);
      ExtendsJoin(d + p, d + p + t, d + p + t + r, Lexemes(v, show), ItemLexemes(m, i + 1, show));
      ExtendsJoin(d, d + p, d + p + t + r, if i > 0 then [","] else [], Lexemes(v, show) + ItemLexemes(m, i + 1, show));
      assert d + p + t + r == d + (p + (t + r));
    }
  }

  lemma MemberLexemesOnce(m: Entries, first: bool, show: Printer)
    ensures m.Nil? ==> MemberLexemes(m, first, show) == []
    ensures m.Entry? && m.key.Name? ==>
      MemberLexemes(m, first, show) == (if first then [] else [","]) + ([Quote(m.key.s), ":"] + (Lexemes(m.value, show) + MemberLexemes(m.rest, false, show)))
  {
    hide Lexemes;
  }

  lemma {:induction false} FastMembersExtend(m: Entries, first: bool, d: string, yaml: bool, show: Printer)
    requires ValidEntries(m, false) && PrintableEntries(m)
    ensures Extends(d, d + FastMembers(m, first, yaml, show), MemberLexemes(m, first, show))
    decreases WeightOf(m), 0
  {
    hide Extends, Lexemes, FastText, MemberLexemes, Quote;
    MemberLexemesOnce(m, first, show);
    if m.Nil? {
      ExtendsNothing(d);
      assert d + "" == d;
    } else {
      var p, q, c := if first then "" else ",", Quote(m.key.s), if yaml then ": " else ":";
      var t, r := FastText(m.value, yaml, show), FastMembers(m.rest, false, yaml, show);
      var e := d + p + q + c;
      SeparatorExtends(d, first);
      QuoteStarts(m.key.s);
      ExtendsOne(d + p, q);
      ExtendsOne(d + p + q, ":");
      FastExtends(m.value, e, yaml, show);
      FastMembersExtend(m.rest, false, e + t, yaml, show);
      ExtendsJoin(e, e + t, e + t + r, Lexemes(m.value, show), MemberLexemes(m.rest, false, show));
      ColonSpace(d + p + q, c, e + t + r, Lexemes(m.value, show) + MemberLexemes(m.rest, false, show)) by { LexemesSome(m.value, show); }
      NameColon(d + p, q, e + t + r, Lexemes(m.value, show) + MemberLexemes(m.rest, false, show));
      ExtendsJoin(d, d + p, e + t + r, if first then [] else [","], [q, ":"] + (Lexemes(m.value, show) + MemberLexemes(m.rest, false, show)));
      assert e + t + r == d + (p + (q + (c + (t + r))));
    }
  }

  lemma QuoteStarts(s: string)
    ensures Quote(s) != "" && Quote(s)[0] !in SPACE
  {
    hide Escaped;
  }

  lemma LexemesSome(v: Value, show: Printer)
    requires Printable(v)
    ensures Lexemes(v, show) != []
  {
    hide Lexemes;
    LexemesStart(v, show);
  }

  /** The blank behind a ':' belongs to the value. */
  lemma ColonSpace(d: string, c: string, e: string, l: seq<string>)
    requires (c == ":" || c == ": ") && l != [] && Extends(d + c, e, l)
    ensures Extends(d + ":", e, l)
  {
    hide Extends;
    if c == ": " {
      assert d + c == d + ":" + " ";
      ExtendsSpaces(d + ":", " ", e, l);
    }
  }

  lemma NameColon(d: string, q: string, e: string, l: seq<string>)
    requires q != "" && q[0] !in SPACE && Extends(d + q + ":", e, l)
    ensures Extends(d, e, [q, ":"] + l)
  {
    hide Extends;
    ExtendsOne(d, q);
    ExtendsOne(d + q, ":");
    ExtendsJoin(d, d + q, d + q + ":", [q], [":"]);
    assert [q] + [":"] == [q, ":"];
    ExtendsJoin(d, d + q + ":", e, [q, ":"], l);
  }

  lemma {:induction false} StyledExtends(v: Value, d: string, ind: string, show: Printer)
    requires Valid(v) && Printable(v) && Spaces(ind)
    ensures Extends(d, Styled(d, ind, v, show), Lexemes(v, show))
    decreases Weight(v), 1
  {
    hide Extends, Lexemes, StyledItems, StyledMembers, InLine, Indented, MultiLine, Spaces;
    LexemesOf(v, show);
    DeeperSpaces(ind);
    if Simple(v) {
      SimpleExtends(d, v, show);
    } else if v.Array? && MultiLine(v.a, show) {
      var e := Indented(d, ind) + "[";
      ExtendsIndented(d, ind, "[");
      StyledItemsExtend(v.a, 0, e, ind + INDENT, show);
      var f := StyledItems(e, ind + INDENT, v.a, 0, show);
      ExtendsIndented(f, ind, "]");
      var g := Indented(f, ind) + "]";
      ExtendsJoin(e, f, g, ItemLexemes(v.a, 0, show), ["]"]);
      ExtendsJoin(d, e, g, ["["], ItemLexemes(v.a, 0, show) + ["]"]);
    } else if v.Array? {
      InLineWhole(v.a, d, show);
    } else {
      var e := Indented(d, ind) + "{";
      ExtendsIndented(d, ind, "{");
      StyledMembersExtend(v.o, e, ind + INDENT, show);
      var f := StyledMembers(e, ind + INDENT, v.o, show);
      ExtendsIndented(f, ind, "}");
      var g := Indented(f, ind) + "}";
      ExtendsJoin(e, f, g, MemberLexemes(v.o, true, show), ["}"]);
      ExtendsJoin(d, e, g, ["{"], MemberLexemes(v.o, true, show) + ["}"]);
    }
  }

  lemma DeeperSpaces(ind: string)
    requires Spaces(ind)
    ensures Spaces(ind + INDENT)
  {
  }

  lemma StyledItemsOnce(d: string, ind: string, m: Entries, i: nat, show: Printer)
    ensures i >= ArraySize(m) ==> StyledItems(d, ind, m, i, show) == d
    ensures i < ArraySize(m) ==>
      var e := Styled(Indented(d, ind), ind, Find(m, Index(i)), show);
      StyledItems(d, ind, m, i, show) == StyledItems(if i + 1 == ArraySize(m) then e else e + ",", ind, m, i + 1, show)
  {
    hide Styled, Indented;
  }

  lemma {:induction false} StyledItemsExtend(m: Entries, i: nat, d: string, ind: string, show: Printer)
    requires ValidEntries(m, true) && PrintableEntries(m) && Spaces(ind) && i <= ArraySize(m)
    ensures Extends(d, StyledItems(d, ind, m, i, show), AfterComma(ItemLexemes(m, i, show), i))
    decreases WeightOf(m), ArraySize(m) - i
  {
    hide Extends, Lexemes, StyledItems, Styled, Indented, ItemLexemes, Spaces;
    ItemsOnce(m, i, show);
    StyledItemsOnce(d, ind, m, i, show);
    if i >= ArraySize(m) {
      ExtendsNothing(d);
      assert AfterComma([], i) == [];
    } else {
      var v := Find(m, Index(i));
      FindWeight(m, Index(i));
      FoundIsFine(m, Index(i), true);
      LexemesSome(v, show);
      var e := Styled(Indented(d, ind), ind, v, show);
      StyledExtends(v, Indented(d, ind), ind, show);
      IndentSkipped(d, ind, e, Lexemes(v, show));
      var l := ItemLexemes(m, i + 1, show);
      ItemsOnce(m, i + 1, show);
      NoComma(m, i, show);
      if i + 1 == ArraySize(m) {
        StyledItemsOnce(e, ind, m, i + 1, show);
        assert Lexemes(v, show) + l == Lexemes(v, show);
      } else {
        var f := StyledItems(e + ",", ind, m, i + 1, show);
        ExtendsOne(e, ",");
        StyledItemsExtend(m, i + 1, e + ",", ind, show);
        ExtendsJoin(e, e + ",", f, [","], AfterComma(l, i + 1));
        assert [","] + AfterComma(l, i + 1) == l;
        ExtendsJoin(d, e, f, Lexemes(v, show), l);
      }
    }
  }

  /** The tokens without the separator in front of the `i`-th element. */
  function AfterComma(l: seq<string>, i: nat): seq<string> {
    if i > 0 && l != [] && l[0] == "," then l[1..] else l
  }

  lemma NoComma(m: Entries, i: nat, show: Printer)
    requires i < ArraySize(m)
    ensures AfterComma(ItemLexemes(m, i, show), i) == Lexemes(Find(m, Index(i)), show) + ItemLexemes(m, i + 1, show)
    ensures i + 1 < ArraySize(m) ==> ItemLexemes(m, i + 1, show) != [] && ItemLexemes(m, i + 1, show)[0] == ","
  {
    hide Lexemes, ItemLexemes;
    ItemsOnce(m, i, show);
    ItemsOnce(m, i + 1, show);
    var l := Lexemes(Find(m, Index(i)), show) + ItemLexemes(m, i + 1, show);
    assert ([","] + l)[1..] == l;
    assert [] + l == l;
  }

  lemma IndentSkipped(d: string, ind: string, e: string, l: seq<string>)
    requires Spaces(ind) && l != [] && Extends(Indented(d, ind), e, l)
    ensures Extends(d, e, l)
  {
    hide Extends, Indented;
    var ws := IndentedIs(d, ind);
    ExtendsSpaces(d, ws, e, l);
  }

  lemma {:induction false} StyledMembersExtend(m: Entries, d: string, ind: string, show: Printer)
    requires ValidEntries(m, false) && PrintableEntries(m) && Spaces(ind)
    ensures Extends(d, StyledMembers(d, ind, m, show), MemberLexemes(m, true, show))
    decreases WeightOf(m), 0
  {
    hide Extends, Lexemes, StyledMembers, Styled, Indented, MemberLexemes, Spaces, Quote;
    MemberLexemesOnce(m, true, show);
    StyledMembersOnce(d, ind, m, show);
    if m.Nil? {
      ExtendsNothing(d);
    } else {
      var q, v := Quote(m.key.s), m.value;
      var h := Indented(d, ind) + q;
      QuoteStarts(m.key.s);
      ExtendsIndented(d, ind, q);
      LexemesSome(v, show);
      var e := Styled(h + " : ", ind, v, show);
      StyledExtends(v, h + " : ", ind, show);
      ColonAround(h, e, Lexemes(v, show));
      ExtendsJoin(d, h, e, [q], [":"] + Lexemes(v, show));
      MemberLexemesOnce(m.rest, true, show);
      MemberLexemesOnce(m.rest, false, show);
      var l := MemberLexemes(m.rest, false, show);
      assert [q] + ([":"] + Lexemes(v, show)) == [q, ":"] + Lexemes(v, show);
      if m.rest.Nil? {
        StyledMembersOnce(e, ind, m.rest, show);
        assert [] + ([q, ":"] + (Lexemes(v, show) + [])) == [q, ":"] + Lexemes(v, show);
      } else {
        var f := StyledMembers(e + ",", ind, m.rest, show);
        ExtendsOne(e, ",");
        StyledMembersExtend(m.rest, e + ",", ind, show);
        ExtendsJoin(e, e + ",", f, [","], MemberLexemes(m.rest, true, show));
        MoreMembers(m.rest, show);
        ExtendsJoin(d, e, f, [q, ":"] + Lexemes(v, show), l);
        assert [] + ([q, ":"] + (Lexemes(v, show) + l)) == ([q, ":"] + Lexemes(v, show)) + l;
      }
    }
  }

  lemma MoreMembers(m: Entries, show: Printer)
    requires m.Entry? && m.key.Name?
    ensures [","] + MemberLexemes(m, true, show) == MemberLexemes(m, false, show)
  {
    hide Lexemes, MemberLexemes, Quote;
    MemberLexemesOnce(m, true, show);
    MemberLexemesOnce(m, false, show);
  }

  lemma StyledMembersOnce(d: string, ind: string, m: Entries, show: Printer)
    ensures m.Nil? ==> StyledMembers(d, ind, m, show) == d
    ensures m.Entry? && m.key.Name? ==>
      var e := Styled(Indented(d, ind) + Quote(m.key.s) + " : ", ind, m.value, show);
      StyledMembers(d, ind, m, show) == StyledMembers(if m.rest.Nil? then e else e + ",", ind, m.rest, show)
  {
    hide Styled, Indented, Quote;
  }

  /** The " : " between a name and its value. */
  lemma ColonAround(h: string, e: string, l: seq<string>)
    requires l != [] && Extends(h + " : ", e, l)
    ensures Extends(h, e, [":"] + l)
  {
    hide Extends;
    assert h + " : " == h + " " + ":" + " ";
    ExtendsSpaces(h + " " + ":", " ", e, l);
    ExtendsOne(h + " ", ":");
    ExtendsJoin(h + " ", h + " " + ":", e, [":"], l);
    ExtendsSpaces(h, " ", e, [":"] + l);
  }

  lemma InLineOnce(m: Entries, i: nat, show: Printer)
    ensures InLine(m, i, show) == if i >= ArraySize(m) then ""
      else (if i > 0 then ", " else "") + (Single(Find(m, Index(i)), show) + InLine(m, i + 1, show))
  {
  }

  /** On one line every element is simple. */
  lemma InLineSimple(m: Entries, i: nat, show: Printer)
    requires !MultiLine(m, show) && i < ArraySize(m)
    ensures Simple(Find(m, Index(i)))
  {
    assert Items(m, ArraySize(m))[i] == Find(m, Index(i));
  }

  lemma {:induction false} InLineExtends(m: Entries, i: nat, d: string, show: Printer)
    requires ValidEntries(m, true) && PrintableEntries(m) && !MultiLine(m, show) && 0 < i <= ArraySize(m)
    ensures Extends(d, d + InLine(m, i, show), ItemLexemes(m, i, show))
    decreases ArraySize(m) - i
  {
    hide Extends, Lexemes, ItemLexemes, InLine, MultiLine, ValidEntries, PrintableEntries, Single, ArraySize, Find;
    ItemsOnce(m, i, show);
    InLineOnce(m, i, show);
    if i >= ArraySize(m) {
      ExtendsNothing(d);
      assert d + "" == d;
    } else {
      var v := Find(m, Index(i));
      FoundIsFine(m, Index(i), true);
      InLineSimple(m, i, show);
      LexemesSome(v, show);
      var t, r := Single(v, show), InLine(m, i + 1, show);
      var e := d + ", " + t;
      SimpleExtends(d + ", ", v, show);
      InLineExtends(m, i + 1, e, show);
      ExtendsJoin(d + ", ", e, e + r, Lexemes(v, show), ItemLexemes(m, i + 1, show));
      assert d + ", " == d + "," + " ";
      ExtendsSpaces(d + ",", " ", e + r, Lexemes(v, show) + ItemLexemes(m, i + 1, show));
      ExtendsOne(d, ",");
      ExtendsJoin(d, d + ",", e + r, [","], Lexemes(v, show) + ItemLexemes(m, i + 1, show));
      assert e + r == d + (", " + (t + r));
    }
  }

  /** An array on one line. */
  lemma InLineWhole(m: Entries, d: string, show: Printer)
    requires Valid(Array(m)) && PrintableEntries(m) && m.Entry? && !MultiLine(m, show)
    ensures Extends(d, d + "[ " + InLine(m, 0, show) + " ]", ["["] + (ItemLexemes(m, 0, show) + ["]"]))
  {
    hide Extends, Lexemes, ItemLexemes, InLine, MultiLine;
    SizeOfSome(m);
    ItemsOnce(m, 0, show);
    InLineOnce(m, 0, show);
    var v := Find(m, Index(0));
    FoundIsFine(m, Index(0), true);
    InLineSimple(m, 0, show);
    LexemesSome(v, show);
    var t, r := Single(v, show), InLine(m, 1, show);
    var e := d + "[ " + t;
    SimpleExtends(d + "[ ", v, show);
    InLineExtends(m, 1, e, show);
    ExtendsJoin(d + "[ ", e, e + r, Lexemes(v, show), ItemLexemes(m, 1, show));
    var l := Lexemes(v, show) + ItemLexemes(m, 1, show);
    assert ItemLexemes(m, 0, show) == l by { assert [] + l == l; }
    ExtendsOne(e + r + " ", "]");
    ExtendsSpaces(e + r, " ", e + r + " " + "]", ["]"]);
    ExtendsJoin(d + "[ ", e + r, e + r + " " + "]", l, ["]"]);
    assert d + "[ " == d + "[" + " ";
    ExtendsSpaces(d + "[", " ", e + r + " " + "]", l + ["]"]);
    ExtendsOne(d, "[");
    ExtendsJoin(d, d + "[", e + r + " " + "]", ["["], l + ["]"]);
    assert InLine(m, 0, show) == t + r by { assert "" + (t + r) == t + r; }
    assert d + "[ " + (t + r) + " ]" == e + r + " " + "]";
  }

  // ---- Round trips

  /** FastWriter::write. */
  function FastDocument(v: Value, yaml: bool, show: Printer): string {
    FastText(v, yaml, show) + "\n"
  }

  /** StyledWriter::write of a value without comments. */
  function StyledDocument(v: Value, show: Printer): string {
    Styled("", "", v, show) + "\n"
  }

  lemma LayoutReads(v: Value, e: string, show: Printer, scan: Scanner)
    requires Valid(v) && Printable(v) && Extends("", e, Lexemes(v, show))
    ensures After(e + "\n", Lexemes(v, show)) == Some("\n")
    ensures ReadValue(e + "\n", scan) == (if Back(v, show, scan).Some? then Ok(Back(v, show, scan).value, |e|) else Fail)
  {
    hide After, ReadValue, Lexemes, Back;
    assert e[|""|..] + "\n" == e + "\n";
    Reads(v, e + "\n", scan, show);
  }

  /** Reader::parse of what FastWriter::write printed: for a value in the range of the reader it
      is the value that was written, and for any value what its numbers are read as. */
  lemma FastRoundTrip(v: Value, yaml: bool, show: Printer, scan: Scanner)
    requires Valid(v) && Printable(v)
    ensures var r := ReadValue(FastDocument(v, yaml, show), scan);
      && r == (if Back(v, show, scan).Some? then Ok(Back(v, show, scan).value, |FastText(v, yaml, show)|) else Fail)
      && (Writable(v) ==> r == Ok(Normal(v), |FastText(v, yaml, show)|))
  {
    hide Extends, Lexemes, FastText, ReadValue, Normal, Back, Writable;
    FastExtends(v, "", yaml, show);
    assert "" + FastText(v, yaml, show) == FastText(v, yaml, show);
    LayoutReads(v, FastText(v, yaml, show), show, scan);
    if Writable(v) { BackIsNormal(v, show, scan); }
  }

  /** Both writers print the same tokens, for every value that can be printed, so that both texts
      are read as the same value or both are refused. */
  lemma StyledMeansFast(v: Value, yaml: bool, show: Printer, scan: Scanner)
    requires Valid(v) && Printable(v)
    ensures After(StyledDocument(v, show), Lexemes(v, show)) == Some("\n") == After(FastDocument(v, yaml, show), Lexemes(v, show))
    ensures var s, f := ReadValue(StyledDocument(v, show), scan), ReadValue(FastDocument(v, yaml, show), scan);
      && (s.Ok? <==> f.Ok?) && (s.Ok? ==> s.v == f.v)
      && (Writable(v) ==> s.Ok? && s.v == Normal(v))
  {
    hide After, Extends, Lexemes, FastText, Styled, ReadValue, Normal, Back, Writable;
    StyledExtends(v, "", "", show);
    FastExtends(v, "", yaml, show);
    var s, f := Styled("", "", v, show), FastText(v, yaml, show);
    assert "" + f == f;
    LayoutReads(v, s, show, scan);
    LayoutReads(v, f, show, scan);
    if Writable(v) { BackIsNormal(v, show, scan); }
  }
}
