/** What Json::Reader accepts and what it reads, as a function from text to value; what a
    value looks like as a sequence of tokens; and that every layout of those tokens is read
    back as the value. */
module JsonParse {
  import opened JsonValue
  import opened JsonLex

  /** decodeDouble: sscanf on the text of a number, which is not part of this model. */
  type Scanner = string -> Option<real>

  /** The text of a number: a digit or a minus sign, then characters of numbers. */
  ghost predicate NumberText(x: string) {
    x != "" && (IsDigit(x[0]) || x[0] == '-') && forall j :: 0 <= j < |x| ==> x[j] in NUMBER
  }

  /** sprintf on a double, which is not part of this model but for what a number looks like. */
  type Printer = p: real -> string | forall x :: NumberText(p(x)) witness (x => "0")

  datatype Read = Ok(v: Value, used: nat) | Fail {
    function Shift(n: nat): Read { if Ok? then Ok(v, used + n) else Fail }
  }

  function Slice(s: string, t: Tok): string
    requires t.start <= t.end <= |s|
  {
    s[t.start..t.end]
  }

  /** decodeNumber. */
  function NumberOf(text: string, scan: Scanner): Option<Value> {
    match WholeOf(text)
    case Whole(v) => Some(v)
    case Double => if scan(text).Some? then Some(Real(scan(text).value)) else None
    case NoNumber => None
  }

  /** decodeString. */
  function StringOf(text: string): Option<string>
    requires |text| >= 2
  {
    Unescape(text[1..|text| - 1])
  }

  /** readValue. */
  function ReadValue(s: string, scan: Scanner): (r: Read)
    ensures r.Ok? ==> 0 < r.used <= |s|
    decreases |s|, 2
  {
    var t := NextToken(s);
    var rest := s[t.end..];
    match t.kind
    case ObjectBegin => ReadMembers(rest, "", Nil, scan).Shift(t.end)
    case ArrayBegin => ReadArray(rest, scan).Shift(t.end)
    case NumberToken =>
      var n := NumberOf(Slice(s, t), scan);
      if n.Some? then Ok(n.value, t.end) else Fail
    case StringToken =>
      var x := StringOf(Slice(s, t));
      if x.Some? then Ok(Text(CStr(x.value)), t.end) else Fail
    case TrueToken => Ok(Bool(true), t.end)
    case FalseToken => Ok(Bool(false), t.end)
    case NullToken => Ok(Null, t.end)
    case _ => Fail
  }

  /** readArray after the bracket. */
  function ReadArray(s: string, scan: Scanner): (r: Read)
    ensures r.Ok? ==> r.used <= |s|
    decreases |s|, 4
  {
    var k := Run(s, SPACE);
    if k < |s| && s[k] == ']' then Ok(Array(Nil), k + 1) else ReadItems(s[k..], 0, Nil, scan).Shift(k)
  }

  /** The loop of readArray. */
  function ReadItems(s: string, index: nat, m: Entries, scan: Scanner): (r: Read)
    ensures r.Ok? ==> r.used <= |s|
    decreases |s|, 3
  {
    var v := ReadValue(s, scan);
    if v.Fail? then Fail
    else
      var t := Lex(s[v.used..]);
      var n := Insert(m, Index(index), v.v);
      if t.kind == ArrayEnd then Ok(Array(n), v.used + t.end)
      else if t.kind == Comma then ReadItems(s[v.used + t.end..], index + 1, n, scan).Shift(v.used + t.end)
      else Fail
  }

  /** The loop of readObject; `name` is the name of the member read last. */
  function ReadMembers(s: string, name: string, m: Entries, scan: Scanner): (r: Read)
    ensures r.Ok? ==> r.used <= |s|
    decreases |s|, 3
  {
    var t := NextToken(s);
    if t.kind == ObjectEnd && name == "" then Ok(Object(m), t.end)
    else if t.kind != StringToken then Fail
    else
      var x := StringOf(Slice(s, t));
      if x.None? then Fail
      else ReadMember(s[t.end..], x.value, m, scan).Shift(t.end)
  }

  /** readObject from the ':' of a member on. */
  function ReadMember(s: string, name: string, m: Entries, scan: Scanner): (r: Read)
    ensures r.Ok? ==> r.used <= |s|
    decreases |s|, 2
  {
    var colon := Lex(s);
    if colon.kind != Colon then Fail
    else
      var v := ReadValue(s[colon.end..], scan);
      if v.Fail? then Fail
      else
        var at := colon.end + v.used;
        ReadOn(s[at..], name, Insert(m, Name(CStr(name)), v.v), scan).Shift(at)
  }

  /** readObject behind the value of a member. */
  function ReadOn(s: string, name: string, m: Entries, scan: Scanner): (r: Read)
    ensures r.Ok? ==> r.used <= |s|
    decreases |s|, 0
  {
    var comma := Lex(s);
    if comma.kind !in {ObjectEnd, Comma, Comment} then Fail
    else
      var next := if comma.kind == Comment then NextToken(s[comma.end..]).Shift(comma.end) else comma;
      if next.kind == ObjectEnd then Ok(Object(m), next.end)
      else ReadMembers(s[next.end..], name, m, scan).Shift(next.end)
  }

  // ---- A value as a sequence of tokens

  /** The texts of the tokens of a value. */
  function Lexemes(v: Value, show: Printer): seq<string>
    decreases Weight(v), 0
  {
    match v
    case Null => ["null"]
    case Int(i) => [IntText(i)]
    case UInt(u) => [IntText(u)]
    case Real(x) => [show(x)]
    case NullText => []
    case Text(s) => [Quote(s)]
    case Bool(b) => [if b then "true" else "false"]
    case Array(a) => ["["] + (ItemLexemes(a, 0, show) + ["]"])
    case Object(o) => ["{"] + (MemberLexemes(o, true, show) + ["}"])
  }

  /** The elements of an array from index `i` on; a hole is a null. */
  function ItemLexemes(m: Entries, i: nat, show: Printer): seq<string>
    decreases WeightOf(m), ArraySize(m) - i
  {
    if i >= ArraySize(m) then []
    else
      assert Weight(Find(m, Index(i))) < WeightOf(m) by { FindWeight(m, Index(i)); }
      (if i > 0 then [","] else []) + (Lexemes(Find(m, Index(i)), show) + ItemLexemes(m, i + 1, show))
  }

  function MemberLexemes(m: Entries, first: bool, show: Printer): seq<string>
    decreases WeightOf(m), 0
  {
    if m.Nil? || !m.key.Name? then []
    else
      (if first then [] else [","]) + ([Quote(m.key.s), ":"] + (Lexemes(m.value, show) + MemberLexemes(m.rest, false, show)))
  }

  lemma FindWeight(m: Entries, k: Key)
    requires m.Entry?
    ensures Weight(Find(m, k)) < WeightOf(m)
  {
    if m.key != k && m.rest.Entry? {
      FindWeight(m.rest, k);
    }
  }

  /** What follows the tokens `l`, each after any white space, at the start of `t`. */
  function After(t: string, l: seq<string>): (r: Option<string>)
    ensures r.Some? ==> |r.value| <= |t|
  {
    if l == [] then Some(t)
    else
      var k := Run(t, SPACE);
      if Starts(t[k..], l[0]) then After(t[k + |l[0]|..], l[1..]) else None
  }

  lemma AfterOnce(t: string, l: seq<string>)
    requires l != []
    ensures var k := Run(t, SPACE);
      After(t, l) == if Starts(t[k..], l[0]) then After(t[k + |l[0]|..], l[1..]) else None
  {
    hide Run;
  }

  lemma {:induction false} AfterJoin(t: string, a: seq<string>, b: seq<string>)
    ensures After(t, a + b) == (if After(t, a).Some? then After(After(t, a).value, b) else None)
    decreases |a|
  {
    hide Run, After, Starts;
    if a == [] {
      assert a + b == b;
      AfterNothing(t);
    } else {
      var c := a + b;
      assert c[1..] == a[1..] + b && c[0] == a[0];
      AfterOnce(t, a);
      AfterOnce(t, c);
      var k := Run(t, SPACE);
      if Starts(t[k..], a[0]) {
        assert k + |a[0]| <= |t| by { StartsWidth(t[k..], a[0]); }
        AfterJoin(t[k + |a[0]|..], a[1..], b);
      }
    }
  }

  lemma StartsWidth(s: string, x: string)
    requires Starts(s, x)
    ensures |x| <= |s|
  {
  }

  lemma AfterNothing(t: string)
    ensures After(t, []) == Some(t)
  {
  }

  lemma AfterOne(t: string, k: nat, x: string)
    requires k == Run(t, SPACE)
    ensures Starts(t[k..], x) ==> k + |x| <= |t| && After(t, [x]) == Some(t[k + |x|..])
    ensures !Starts(t[k..], x) ==> After(t, [x]) == None
  {
    hide Run;
    assert [x][1..] == [];
  }

  /** What is left is the end of the text. */
  lemma {:induction false} AfterSuffix(t: string, l: seq<string>)
    requires After(t, l).Some?
    ensures var r := After(t, l).value; |r| <= |t| && t[|t| - |r|..] == r
    decreases |l|
  {
    hide Run, After, Starts;
    if l == [] {
      AfterNothing(t);
      assert t[0..] == t;
    } else {
      AfterOnce(t, l);
      var k := Run(t, SPACE);
      StartsWidth(t[k..], l[0]);
      AfterSuffix(t[k + |l[0]|..], l[1..]);
      var u, r := t[k + |l[0]|..], After(t, l).value;
      assert t[|t| - |r|..] == u[|u| - |r|..];
    }
  }

  /** A number may be followed by this text. */
  predicate Clean(r: string) { r == "" || r[0] !in NUMBER }

  /** No default-constructed string, which holds a null pointer. */
  predicate Printable(v: Value) {
    match v
    case NullText => false
    case Text(s) => NulFree(s)
    case Int(i) => MIN_INT <= i <= MAX_INT
    case UInt(u) => 0 <= u <= MAX_UINT
    case Array(a) => PrintableEntries(a)
    case Object(o) => PrintableEntries(o)
    case _ => true
  }

  predicate PrintableEntries(m: Entries) {
    m.Nil? || ((m.key.Name? ==> NulFree(m.key.s)) && Printable(m.value) && PrintableEntries(m.rest))
  }

  /** The entries of `b` behind those of `a`. */
  function Joined(a: Entries, b: Entries): Entries {
    if a.Nil? then b else Entry(a.key, a.value, Joined(a.rest, b))
  }

  /** The array or object with these entries behind those read before. */
  function Filled(done: Entries, m: Option<Entries>, indexed: bool): Option<Value> {
    if m.None? then None
    else Some(if indexed then Array(Joined(done, m.value)) else Object(Joined(done, m.value)))
  }

  /** What is read back of a printed value: of a number, what its text is read as, if it is; the
      holes of arrays as nulls. */
  function Back(v: Value, show: Printer, scan: Scanner): Option<Value>
    decreases Weight(v), 0
  {
    match v
    case Int(i) => NumberOf(IntText(i), scan)
    case UInt(u) => NumberOf(IntText(u), scan)
    case Real(x) => NumberOf(show(x), scan)
    case NullText => None
    case Array(a) => Filled(Nil, BackItems(a, 0, show, scan), true)
    case Object(o) => Filled(Nil, BackMembers(o, show, scan), false)
    case _ => Some(v)
  }

  function BackItems(m: Entries, i: nat, show: Printer, scan: Scanner): Option<Entries>
    decreases WeightOf(m), ArraySize(m) - i
  {
    if i >= ArraySize(m) then Some(Nil)
    else
      assert Weight(Find(m, Index(i))) < WeightOf(m) by { FindWeight(m, Index(i)); }
      Consed(Index(i), Back(Find(m, Index(i)), show, scan), BackItems(m, i + 1, show, scan))
  }

  function BackMembers(m: Entries, show: Printer, scan: Scanner): Option<Entries>
    decreases WeightOf(m), 0
  {
    if m.Nil? then Some(Nil) else Consed(m.key, Back(m.value, show, scan), BackMembers(m.rest, show, scan))
  }

  function Consed(k: Key, v: Option<Value>, m: Option<Entries>): Option<Entries> {
    if v.Some? && m.Some? then Some(Entry(k, v.value, m.value)) else None
  }

  /** A value that the reader gives back: integers in the range it reads as such, strings
      without NUL, no doubles. */
  predicate Writable(v: Value) {
    match v
    case Int(i) => -2147483639 <= i <= MAX_INT
    case UInt(u) => 0 <= u <= 4294967289
    case Real(_) => false
    case NullText => false
    case Text(s) => NulFree(s)
    case Array(a) => WritableEntries(a)
    case Object(o) => WritableEntries(o)
    case _ => true
  }

  predicate WritableEntries(m: Entries) {
    m.Nil? || ((m.key.Name? ==> NulFree(m.key.s)) && Writable(m.value) && WritableEntries(m.rest))
  }

  /** The value as it is read back: small unsigned integers as signed ones, the holes of
      arrays as nulls. */
  function Normal(v: Value): Value
    decreases Weight(v), 0
  {
    match v
    case UInt(u) => if u <= MAX_INT then Int(u) else v
    case Array(a) => Array(NormalItems(a, 0))
    case Object(o) => Object(NormalMembers(o))
    case _ => v
  }

  function NormalItems(m: Entries, i: nat): Entries
    decreases WeightOf(m), ArraySize(m) - i
  {
    if i >= ArraySize(m) then Nil
    else
      assert Weight(Find(m, Index(i))) < WeightOf(m) by { FindWeight(m, Index(i)); }
      Entry(Index(i), Normal(Find(m, Index(i))), NormalItems(m, i + 1))
  }

  function NormalMembers(m: Entries): Entries
    decreases WeightOf(m), 0
  {
    if m.Nil? then Nil else Entry(m.key, Normal(m.value), NormalMembers(m.rest))
  }

  // ---- One token

  /** The token at the start of `t`, after white space, when it begins with `x`. */
  lemma LexSplit(t: string, k: nat, x: string)
    requires k == Run(t, SPACE) && x != "" && Starts(t[k..], x)
    ensures k < |t| && k + |x| <= |t| && Lex(t) == LexAt(x + t[k + |x|..]).Shift(k)
  {
    hide LexAt, Run, Lex, Starts;
    SplitStart(t, k, x);
    LexSkips(t);
  }

  lemma LexSkips(t: string)
    requires Run(t, SPACE) < |t|
    ensures Lex(t) == LexAt(t[Run(t, SPACE)..]).Shift(Run(t, SPACE))
  {
    hide Run, LexAt;
  }

  lemma SplitStart(t: string, k: nat, x: string)
    requires k <= |t| && Starts(t[k..], x)
    ensures k + |x| <= |t| && t[k..] == x + t[k + |x|..]
  {
    var u := t[k..];
    assert u == u[..|x|] + u[|x|..];
    assert u[|x|..] == t[k + |x|..];
  }

  lemma SplitText(t: string, k: nat, x: string)
    requires k <= |t| && Starts(t[k..], x)
    ensures k + |x| <= |t| && t[k..k + |x|] == x
  {
    var u := t[k..];
    assert u[..|x|] == t[k..k + |x|];
  }

  /** The text of a token of fixed spelling. */
  function Spelling(kind: Kind): string {
    match kind
    case NullToken => "null"
    case TrueToken => "true"
    case FalseToken => "false"
    case ArrayBegin => "["
    case ArrayEnd => "]"
    case ObjectBegin => "{"
    case ObjectEnd => "}"
    case Comma => ","
    case Colon => ":"
    case _ => ""
  }

  lemma LexWord(t: string, k: nat, kind: Kind)
    requires k == Run(t, SPACE) && Spelling(kind) != "" && Starts(t[k..], Spelling(kind))
    ensures Lex(t) == Tok(kind, k, k + |Spelling(kind)|) && k + |Spelling(kind)| <= |t|
  {
    hide LexAt, Run, Lex, Starts;
    var x := Spelling(kind);
    LexSplit(t, k, x);
    WordAt(kind, t[k + |x|..]);
  }

  lemma WordAt(kind: Kind, r: string)
    requires Spelling(kind) != ""
    ensures LexAt(Spelling(kind) + r) == Tok(kind, 0, |Spelling(kind)|)
  {
    hide Run, StringEnd, CommentEnd, Starts;
    var x := Spelling(kind);
    WordRest(x, r);
  }

  lemma WordRest(x: string, r: string)
    requires x != ""
    ensures (x + r)[0] == x[0] && Starts((x + r)[1..], x[1..])
  {
    assert (x + r)[1..] == x[1..] + r;
    assert (x[1..] + r)[..|x| - 1] == x[1..];
  }

  lemma LexNumber(t: string, k: nat, x: string)
    requires NumberText(x) && k == Run(t, SPACE) && Starts(t[k..], x) && k + |x| <= |t| && Clean(t[k + |x|..])
    ensures Lex(t) == Tok(NumberToken, k, k + |x|) && t[k..k + |x|] == x
  {
    hide LexAt, Run, Lex, Starts;
    LexSplit(t, k, x);
    NumberAt(x, t[k + |x|..]);
    SplitText(t, k, x);
  }

  lemma IntTextDigits(i: int)
    ensures NumberText(IntText(i))
  {
    hide Digits;
  }

  lemma NumberAt(x: string, r: string)
    requires Clean(r) && NumberText(x)
    ensures LexAt(x + r) == Tok(NumberToken, 0, |x|)
  {
    hide StringEnd, CommentEnd, Run;
    var u := x + r;
    assert u[0] == x[0];
    assert u[1..] == x[1..] + r;
    RunIs(u[1..], NUMBER, |x| - 1);
  }

  lemma LexString(t: string, k: nat, s: string)
    requires k == Run(t, SPACE) && Starts(t[k..], Quote(s))
    ensures k + |Quote(s)| <= |t| && Lex(t) == Tok(StringToken, k, k + |Quote(s)|) && t[k..k + |Quote(s)|] == Quote(s)
  {
    hide LexAt, Run, Lex, Quote, Starts;
    QuoteReads(s);
    LexSplit(t, k, Quote(s));
    StringAt(s, t[k + |Quote(s)|..]);
    SplitText(t, k, Quote(s));
  }

  lemma QuoteReads(s: string)
    ensures |Quote(s)| >= 2 && StringOf(Quote(s)) == Some(s)
  {
    hide Escaped, Unescape;
    UnescapeEscaped(s);
    assert Quote(s)[1..|Quote(s)| - 1] == Escaped(s);
  }

  lemma StringAt(s: string, r: string)
    ensures LexAt(Quote(s) + r) == Tok(StringToken, 0, |Quote(s)|)
  {
    hide StringEnd, CommentEnd, Run, Escaped;
    var u := Quote(s) + r;
    assert u[1..] == Escaped(s) + ("\"" + r);
    StringEndEscaped(s, r);
  }

  lemma NextIsLex(s: string)
    requires Lex(s).kind != Comment
    ensures NextToken(s) == Lex(s)
  {
    hide Lex;
  }

  // ---- Every layout of the tokens of a value is read as the value

  predicate AllBelow(m: Entries, k: Key) {
    m.Nil? || (KeyLess(m.key, k) && AllBelow(m.rest, k))
  }

  lemma {:induction false} InsertLast(m: Entries, k: Key, v: Value)
    requires AllBelow(m, k)
    ensures Insert(m, k, v) == Joined(m, Entry(k, v, Nil))
  {
    hide KeyLess;
    if m.Entry? {
      KeyIsOrder(m.key, k, k);
      InsertLast(m.rest, k, v);
    }
  }

  lemma InsertBelow(m: Entries, k: Key, v: Value, l: Key)
    requires AllBelow(m, k) && KeyLess(k, l)
    ensures AllBelow(Insert(m, k, v), l)
  {
    hide KeyLess, Insert;
    InsertLast(m, k, v);
    JoinedBelow(m, k, v, l);
  }

  lemma {:induction false} JoinedBelow(m: Entries, k: Key, v: Value, l: Key)
    requires AllBelow(m, k) && KeyLess(k, l)
    ensures AllBelow(Joined(m, Entry(k, v, Nil)), l)
  {
    hide KeyLess;
    if m.Entry? {
      KeyIsOrder(m.key, k, l);
      JoinedBelow(m.rest, k, v, l);
    }
  }

  lemma CleanBefore(r: string, x: string)
    requires x != "" && x[0] !in NUMBER && Starts(r[Run(r, SPACE)..], x)
    ensures Clean(r)
  {
    var k := Run(r, SPACE);
    if k == 0 {
      assert r[0..] == r;
      assert r[..|x|][0] == x[0];
    } else {
      assert r[0] in SPACE;
    }
  }

  lemma {:induction false} FoundIsFine(m: Entries, k: Key, indexed: bool)
    requires ValidEntries(m, indexed) && PrintableEntries(m)
    ensures Valid(Find(m, k)) && Printable(Find(m, k))
  {
    if m.Entry? && m.key != k {
      FoundIsFine(m.rest, k, indexed);
    }
  }

  /** No value begins with a closing bracket. */
  lemma LexemesStart(v: Value, show: Printer)
    requires Printable(v)
    ensures Lexemes(v, show) != [] && Lexemes(v, show)[0] != "" && Lexemes(v, show)[0][0] != ']'
  {
    hide Digits;
    match v
    case Int(i) => IntTextDigits(i);
    case UInt(u) => IntTextDigits(u);
    case Real(x) => assert NumberText(show(x));
    case _ =>
  }

  lemma LexemesOf(v: Value, show: Printer)
    ensures v.Array? ==> Lexemes(v, show) == ["["] + (ItemLexemes(v.a, 0, show) + ["]"])
    ensures v.Object? ==> Lexemes(v, show) == ["{"] + (MemberLexemes(v.o, true, show) + ["}"])
  {
  }

  lemma ItemsOnce(m: Entries, i: nat, show: Printer)
    ensures i >= ArraySize(m) ==> ItemLexemes(m, i, show) == []
    ensures i < ArraySize(m) ==>
      ItemLexemes(m, i, show) == (if i > 0 then [","] else []) + (Lexemes(Find(m, Index(i)), show) + ItemLexemes(m, i + 1, show))
  {
    hide Lexemes;
  }

  lemma BackOnce(m: Entries, i: nat, show: Printer, scan: Scanner)
    ensures BackItems(m, i, show, scan) ==
            (if i >= ArraySize(m) then Some(Nil)
             else Consed(Index(i), Back(Find(m, Index(i)), show, scan), BackItems(m, i + 1, show, scan)))
  {
    hide Back, Consed;
  }

  /** The result of reading that leaves the text `r` of `t`. */
  function Got(v: Option<Value>, t: string, r: Option<string>): Read {
    if v.Some? && r.Some? && |r.value| <= |t| then Ok(v.value, |t| - |r.value|) else Fail
  }

  lemma ReadValueCases(s: string, scan: Scanner)
    ensures var t, r := NextToken(s), ReadValue(s, scan);
      var rest := s[t.end..];
      && (t.kind == ObjectBegin ==> r == ReadMembers(rest, "", Nil, scan).Shift(t.end))
      && (t.kind == ArrayBegin ==> r == ReadArray(rest, scan).Shift(t.end))
      && (t.kind == NumberToken ==>
            var n := NumberOf(Slice(s, t), scan); r == (if n.Some? then Ok(n.value, t.end) else Fail))
      && (t.kind == StringToken ==>
            var x := StringOf(Slice(s, t)); r == (if x.Some? then Ok(Text(CStr(x.value)), t.end) else Fail))
      && (t.kind == TrueToken ==> r == Ok(Bool(true), t.end))
      && (t.kind == FalseToken ==> r == Ok(Bool(false), t.end))
      && (t.kind == NullToken ==> r == Ok(Null, t.end))
      && (t.kind !in {ObjectBegin, ArrayBegin, NumberToken, StringToken, TrueToken, FalseToken, NullToken} ==> r == Fail)
  {
    hide NextToken, ReadMembers, ReadArray, NumberOf, StringOf;
  }

  /** A token of fixed spelling in front of other tokens. */
  lemma ReadWord(t: string, kind: Kind, l: seq<string>)
    requires Spelling(kind) != "" && After(t, [Spelling(kind)] + l).Some?
    ensures var k := Run(t, SPACE);
      && Starts(t[k..], Spelling(kind)) && k + |Spelling(kind)| <= |t|
      && Lex(t) == NextToken(t) == Tok(kind, k, k + |Spelling(kind)|)
      && After(t, [Spelling(kind)] + l) == After(t[k + |Spelling(kind)|..], l)
  {
    hide Run, Lex, Starts, After, NextToken;
    var x, k := Spelling(kind), Run(t, SPACE);
    AfterJoin(t, [x], l);
    AfterOne(t, k, x);
    LexWord(t, k, kind);
    NextIsLex(t);
  }

  /** A value in any layout of its tokens is read back: exactly as its numbers are read. */
  lemma {:induction false} Reads(v: Value, t: string, scan: Scanner, show: Printer)
    requires Valid(v) && Printable(v) && After(t, Lexemes(v, show)).Some? && Clean(After(t, Lexemes(v, show)).value)
    ensures ReadValue(t, scan) == Got(Back(v, show, scan), t, After(t, Lexemes(v, show)))
    decreases Weight(v), 0
  {
    if v.Array? {
      ReadsArray(v.a, t, scan, show);
    } else if v.Object? {
      ReadsObject(v.o, t, scan, show);
    } else {
      ReadsScalar(v, t, scan, show);
    }
  }

  lemma ReadsScalar(v: Value, t: string, scan: Scanner, show: Printer)
    requires !v.Array? && !v.Object? && Printable(v) && After(t, Lexemes(v, show)).Some? && Clean(After(t, Lexemes(v, show)).value)
    ensures ReadValue(t, scan) == Got(Back(v, show, scan), t, After(t, Lexemes(v, show)))
  {
    hide Run, Lex, Starts, After, NextToken, ReadValue, NumberOf, IntText, Quote, StringOf, Clean;
    var k := Run(t, SPACE);
    var x := Lexemes(v, show)[0];
    assert Lexemes(v, show) == [x];
    AfterOne(t, k, x);
    ReadValueCases(t, scan);
    NextIsLex(t) by { ScalarToken(v, t, k, show); }
    ScalarToken(v, t, k, show);
    if v.Text? { QuoteReads(v.s); }
  }

  function ScalarKind(v: Value): Kind {
    match v
    case Null => NullToken
    case Int(_) => NumberToken
    case UInt(_) => NumberToken
    case Real(_) => NumberToken
    case Text(_) => StringToken
    case Bool(b) => if b then TrueToken else FalseToken
    case _ => BadToken
  }

  lemma ScalarToken(v: Value, t: string, k: nat, show: Printer)
    requires !v.Array? && !v.Object? && Printable(v) && k == Run(t, SPACE) && Starts(t[k..], Lexemes(v, show)[0])
    requires k + |Lexemes(v, show)[0]| <= |t| && Clean(t[k + |Lexemes(v, show)[0]|..])
    ensures Lex(t) == Tok(ScalarKind(v), k, k + |Lexemes(v, show)[0]|) && t[k..k + |Lexemes(v, show)[0]|] == Lexemes(v, show)[0]
  {
    hide Run, Lex, Starts, IntText, Quote, Clean;
    var x := Lexemes(v, show)[0];
    SplitText(t, k, x);
    match v
    case Null => LexWord(t, k, NullToken);
    case Int(i) => IntTextDigits(i); LexNumber(t, k, x);
    case UInt(u) => IntTextDigits(u); LexNumber(t, k, x);
    case Real(r) => assert NumberText(show(r)); LexNumber(t, k, x);
    case Text(s) => LexString(t, k, s);
    case Bool(b) => LexWord(t, k, if b then TrueToken else FalseToken);
  }

  lemma GotShift(v: Option<Value>, t: string, n: nat, r: Option<string>)
    requires n <= |t| && r.Some? && |r.value| <= |t| - n
    ensures Got(v, t[n..], r).Shift(n) == Got(v, t, r)
  {
  }

  lemma GotIs(v: Option<Value>, t: string, r: Option<string>)
    ensures v.None? ==> Got(v, t, r) == Fail
    ensures v.Some? && r.Some? && |r.value| <= |t| ==> Got(v, t, r) == Ok(v.value, |t| - |r.value|)
  {
  }

  lemma {:induction false} ReadsArray(m: Entries, t: string, scan: Scanner, show: Printer)
    requires Valid(Array(m)) && PrintableEntries(m) && After(t, Lexemes(Array(m), show)).Some?
    ensures ReadValue(t, scan) == Got(Back(Array(m), show, scan), t, After(t, Lexemes(Array(m), show)))
    decreases WeightOf(m), ArraySize(m) + 2
  {
    hide Run, Lex, Starts, After, NextToken, ReadValue, ReadArray, Clean, Lexemes, ItemLexemes, Back, BackItems, Filled, Got;
    LexemesOf(Array(m), show);
    ReadWord(t, ArrayBegin, ItemLexemes(m, 0, show) + ["]"]);
    var n := Run(t, SPACE) + 1;
    ReadValueCases(t, scan);
    AfterSuffix(t[n..], ItemLexemes(m, 0, show) + ["]"]);
    BackArray(m, show, scan);
    if m.Nil? { ReadsNone(t[n..], scan, show); } else { ReadsSome(m, t[n..], scan, show); }
    GotShift(Back(Array(m), show, scan), t, n, After(t, Lexemes(Array(m), show)));
  }

  /** An array without elements, after its bracket. */
  lemma ReadsNone(u: string, scan: Scanner, show: Printer)
    requires After(u, ItemLexemes(Nil, 0, show) + ["]"]).Some?
    ensures ReadArray(u, scan) == Got(Filled(Nil, BackItems(Nil, 0, show, scan), true), u, After(u, ItemLexemes(Nil, 0, show) + ["]"]))
  {
    hide Run, Lex, Starts, After, NextToken, ReadItems, ItemLexemes, BackItems;
    ItemsOnce(Nil, 0, show);
    BackOnce(Nil, 0, show, scan);
    assert ItemLexemes(Nil, 0, show) + ["]"] == ["]"] + [];
    ReadWord(u, ArrayEnd, []);
    StartsChar(u, Run(u, SPACE), "]");
    AfterNothing(u[Run(u, SPACE) + 1..]);
  }

  /** An array with elements, after its bracket. */
  lemma {:induction false} ReadsSome(m: Entries, u: string, scan: Scanner, show: Printer)
    requires Valid(Array(m)) && PrintableEntries(m) && m.Entry? && After(u, ItemLexemes(m, 0, show) + ["]"]).Some?
    ensures ReadArray(u, scan) == Got(Filled(Nil, BackItems(m, 0, show, scan), true), u, After(u, ItemLexemes(m, 0, show) + ["]"]))
    decreases WeightOf(m), ArraySize(m) + 1
  {
    hide Run, Lex, Starts, After, NextToken, ReadValue, Clean, Lexemes, ItemLexemes, ReadItems, Back, BackItems;
    SizeOfSome(m);
    ItemsOnce(m, 0, show);
    FoundIsFine(m, Index(0), true);
    FirstItem(m, show);
    NotClosed(u, Find(m, Index(0)), ItemLexemes(m, 1, show) + ["]"], show);
    AfterSkip(u, ItemLexemes(m, 0, show) + ["]"]);
    ReadsItems(m, 0, u[Run(u, SPACE)..], Nil, scan, show);
  }

  lemma FirstItem(m: Entries, show: Printer)
    requires ArraySize(m) > 0
    ensures ItemLexemes(m, 0, show) + ["]"] == Lexemes(Find(m, Index(0)), show) + (ItemLexemes(m, 1, show) + ["]"])
  {
    hide ItemLexemes, Lexemes;
    ItemsOnce(m, 0, show);
    var a, b := Lexemes(Find(m, Index(0)), show), ItemLexemes(m, 1, show);
    assert ([] + (a + b)) + ["]"] == a + (b + ["]"]);
  }

  lemma AfterSkip(u: string, l: seq<string>)
    requires l != []
    ensures After(u[Run(u, SPACE)..], l) == After(u, l)
  {
    hide Starts, After;
    var k := Run(u, SPACE);
    RunIs(u[k..], SPACE, 0);
    assert u[k..][0..] == u[k..];
    AfterOnce(u, l);
    AfterOnce(u[k..], l);
    if Starts(u[k..], l[0]) {
      StartsWidth(u[k..], l[0]);
      assert u[k..][|l[0]|..] == u[k + |l[0]|..];
    }
  }

  /** One entry more behind those read before. */
  lemma FilledNext(done: Entries, k: Key, b: Option<Value>, rest: Option<Entries>, indexed: bool)
    requires AllBelow(done, k)
    ensures b.None? ==> Filled(done, Consed(k, b, rest), indexed) == None
    ensures b.Some? ==>
      Filled(done, Consed(k, b, rest), indexed) == Filled(Insert(done, k, b.value), rest, indexed)
  {
    hide KeyLess, Insert;
    if b.Some? {
      InsertLast(done, k, b.value);
      if rest.Some? { JoinedMore(done, k, b.value, rest.value); }
    }
  }

  lemma FilledNone(done: Entries, indexed: bool)
    ensures Filled(done, Some(Nil), indexed) == Some(if indexed then Array(done) else Object(done))
  {
    JoinedNil(done);
  }

  lemma {:induction false} JoinedNil(m: Entries)
    ensures Joined(m, Nil) == m
  {
    if m.Entry? { JoinedNil(m.rest); }
  }

  lemma {:induction false} JoinedMore(m: Entries, k: Key, v: Value, n: Entries)
    ensures Joined(Joined(m, Entry(k, v, Nil)), n) == Joined(m, Entry(k, v, n))
  {
    if m.Entry? { JoinedMore(m.rest, k, v, n); }
  }

  lemma BackArray(m: Entries, show: Printer, scan: Scanner)
    ensures Back(Array(m), show, scan) == Filled(Nil, BackItems(m, 0, show, scan), true)
    ensures Back(Object(m), show, scan) == Filled(Nil, BackMembers(m, show, scan), false)
  {
    hide BackItems, BackMembers, Filled, NumberOf, IntText;
  }

  lemma {:induction false} SizeOfSome(m: Entries)
    requires m.Entry? && ValidEntries(m, true)
    ensures ArraySize(m) > 0
  {
    if m.rest.Entry? { SizeOfSome(m.rest); }
  }

  lemma StartsChar(u: string, k: nat, x: string)
    requires k <= |u| && x != "" && Starts(u[k..], x)
    ensures k < |u| && u[k] == x[0]
  {
    assert u[k..][..|x|][0] == x[0];
  }

  lemma NotClosed(u: string, v: Value, l: seq<string>, show: Printer)
    requires Printable(v) && After(u, Lexemes(v, show) + l).Some?
    ensures var k := Run(u, SPACE); k < |u| && u[k] != ']'
  {
    hide Run, Lexemes, After, Starts;
    LexemesStart(v, show);
    AfterOnce(u, Lexemes(v, show) + l);
    StartsChar(u, Run(u, SPACE), Lexemes(v, show)[0]);
  }

  /** The elements from index `i` on. */
  lemma {:induction false} ReadsItems(m: Entries, i: nat, t: string, done: Entries, scan: Scanner, show: Printer)
    requires Valid(Array(m)) && PrintableEntries(m) && i < ArraySize(m) && AllBelow(done, Index(i))
    requires After(t, Lexemes(Find(m, Index(i)), show) + (ItemLexemes(m, i + 1, show) + ["]"])).Some?
    ensures ReadItems(t, i, done, scan)
      == Got(Filled(done, BackItems(m, i, show, scan), true), t, After(t, Lexemes(Find(m, Index(i)), show) + (ItemLexemes(m, i + 1, show) + ["]"])))
    decreases WeightOf(m), ArraySize(m) - i
  {
    hide *;
    ArrayForm(m, i);
    Spellings();
    var v, l := Find(m, Index(i)), ItemLexemes(m, i + 1, show) + ["]"];
    FoundIsFine(m, Index(i), true);
    FindWeight(m, Index(i));
    ItemsOnce(m, i, show);
    ItemsOnce(m, i + 1, show);
    BackOnce(m, i, show, scan);
    BackOnce(m, i + 1, show, scan);
    ItemEnds(m, i, show);
    ReadsThen(v, t, l, scan, show);
    ReadItemsCases(t, i, done, scan);
    var b, all := Back(v, show, scan), Filled(done, BackItems(m, i, show, scan), true);
    FilledNext(done, Index(i), b, BackItems(m, i + 1, show, scan), true);
    var goal := After(t, Lexemes(v, show) + l);
    GotIs(all, t, goal);
    if b.Some? {
      var at := ReadValue(t, scan).used;
      var r := t[at..];
      var more := Insert(done, Index(i), b.value);
      AfterSuffix(r, l);
      if i + 1 < ArraySize(m) {
        ReadWord(r, Comma, Lexemes(Find(m, Index(i + 1)), show) + (ItemLexemes(m, i + 2, show) + ["]"]));
        IndexGrows(i);
        InsertBelow(done, Index(i), b.value, Index(i + 1));
        var e := at + Lex(r).end;
        assert r[Lex(r).end..] == t[e..];
        AfterSuffix(t[e..], Lexemes(Find(m, Index(i + 1)), show) + (ItemLexemes(m, i + 2, show) + ["]"]));
        ReadsItems(m, i + 1, t[e..], more, scan, show);
        GotShift(all, t, e, goal);
      } else {
        ReadWord(r, ArrayEnd, []);
        AfterNothing(r[Run(r, SPACE) + 1..]);
        FilledNone(more, true);
      }
    }
  }

  lemma ArrayForm(m: Entries, i: nat)
    requires Valid(Array(m)) && i < ArraySize(m)
    ensures m.Entry? && ValidEntries(m, true)
  {
  }

  lemma Spellings()
    ensures Spelling(Comma) == "," && Spelling(ArrayEnd) == "]"
  {
  }

  lemma ItemEnds(m: Entries, i: nat, show: Printer)
    requires i < ArraySize(m)
    ensures var l := ItemLexemes(m, i + 1, show) + ["]"];
      && l != []
      && (i + 1 < ArraySize(m) ==> l[0] == "," && l == [","] + (Lexemes(Find(m, Index(i + 1)), show) + (ItemLexemes(m, i + 2, show) + ["]"])))
      && (i + 1 >= ArraySize(m) ==> l == ["]"] + [])
  {
    hide Lexemes, ItemLexemes;
    ItemsOnce(m, i + 1, show);
    if i + 1 < ArraySize(m) {
      var a, b := Lexemes(Find(m, Index(i + 1)), show), ItemLexemes(m, i + 2, show);
      assert ([","] + (a + b)) + ["]"] == [","] + (a + (b + ["]"]));
    }
  }

  lemma IndexGrows(i: nat)
    ensures KeyLess(Index(i), Index(i + 1))
  {
  }

  lemma ReadItemsCases(s: string, index: nat, m: Entries, scan: Scanner)
    ensures var v, r := ReadValue(s, scan), ReadItems(s, index, m, scan);
      if v.Fail? then r == Fail
      else
        var t := Lex(s[v.used..]);
        var n := Insert(m, Index(index), v.v);
        if t.kind == ArrayEnd then r == Ok(Array(n), v.used + t.end)
        else if t.kind == Comma then r == ReadItems(s[v.used + t.end..], index + 1, n, scan).Shift(v.used + t.end)
        else r == Fail
  {
    hide ReadValue, Lex, Insert;
  }

  lemma {:induction false} ReadsObject(m: Entries, t: string, scan: Scanner, show: Printer)
    requires Valid(Object(m)) && PrintableEntries(m) && After(t, Lexemes(Object(m), show)).Some?
    ensures ReadValue(t, scan) == Got(Back(Object(m), show, scan), t, After(t, Lexemes(Object(m), show)))
    decreases WeightOf(m), 2
  {
    hide Run, Lex, Starts, After, NextToken, ReadValue, Clean, Lexemes, ReadMembers, Back, BackMembers, MemberLexemes, Filled, Got;
    LexemesOf(Object(m), show);
    ReadWord(t, ObjectBegin, MemberLexemes(m, true, show) + ["}"]);
    var n := Run(t, SPACE) + 1;
    ReadValueCases(t, scan);
    AfterSuffix(t[n..], MemberLexemes(m, true, show) + ["}"]);
    BackArray(m, show, scan);
    if m.Nil? {
      ReadsNoMember(t[n..], scan, show);
    } else {
      MembersOnce(m, true, show);
      assert [] + MemberTail(m, show) == MemberTail(m, show);
      ReadsMembers(m, "", t[n..], Nil, scan, show);
    }
    GotShift(Back(Object(m), show, scan), t, n, After(t, Lexemes(Object(m), show)));
  }

  /** An object without members, after its brace. */
  lemma ReadsNoMember(u: string, scan: Scanner, show: Printer)
    requires After(u, MemberLexemes(Nil, true, show) + ["}"]).Some?
    ensures ReadMembers(u, "", Nil, scan) == Got(Filled(Nil, BackMembers(Nil, show, scan), false), u, After(u, MemberLexemes(Nil, true, show) + ["}"]))
  {
    hide Run, Lex, Starts, After, NextToken, ReadMembers, MemberLexemes, BackMembers;
    MembersOnce(Nil, true, show);
    BackMembersOnce(Nil, show, scan);
    assert MemberLexemes(Nil, true, show) + ["}"] == ["}"] + [];
    ReadWord(u, ObjectEnd, []);
    AfterNothing(u[Run(u, SPACE) + 1..]);
    ReadMembersCases(u, "", Nil, scan);
  }

  /** The tokens from the name of the first member on. */
  function MemberTail(m: Entries, show: Printer): seq<string>
    requires m.Entry? && m.key.Name?
  {
    [Quote(m.key.s)] + ([":"] + (Lexemes(m.value, show) + (MemberLexemes(m.rest, false, show) + ["}"])))
  }

  lemma MembersOnce(m: Entries, first: bool, show: Printer)
    ensures m.Nil? ==> MemberLexemes(m, first, show) == []
    ensures m.Entry? && m.key.Name? ==>
      MemberLexemes(m, first, show) + ["}"] == (if first then [] else [","]) + MemberTail(m, show)
  {
    hide Lexemes, Quote;
    if m.Entry? && m.key.Name? {
      Regrouped(if first then [] else [","], Quote(m.key.s), Lexemes(m.value, show), MemberLexemes(m.rest, false, show));
    }
  }

  lemma BackMembersOnce(m: Entries, show: Printer, scan: Scanner)
    ensures BackMembers(m, show, scan) ==
            (if m.Nil? then Some(Nil) else Consed(m.key, Back(m.value, show, scan), BackMembers(m.rest, show, scan)))
  {
    hide Back, Consed;
  }

  lemma Regrouped(p: seq<string>, q: string, l: seq<string>, e: seq<string>)
    ensures (p + ([q, ":"] + (l + e))) + ["}"] == p + ([q] + ([":"] + (l + (e + ["}"]))))
  {
    assert [q, ":"] == [q] + [":"];
    assert (p + ([q, ":"] + (l + e))) + ["}"] == p + (([q] + [":"]) + ((l + e) + ["}"]));
    assert (l + e) + ["}"] == l + (e + ["}"]);
  }

  lemma ReadMembersCases(s: string, name: string, m: Entries, scan: Scanner)
    ensures var t, r := NextToken(s), ReadMembers(s, name, m, scan);
      if t.kind == ObjectEnd && name == "" then r == Ok(Object(m), t.end)
      else if t.kind != StringToken then r == Fail
      else
        var x := StringOf(Slice(s, t));
        if x.None? then r == Fail
        else r == ReadMember(s[t.end..], x.value, m, scan).Shift(t.end)
  {
    hide NextToken, ReadMember, StringOf;
  }

  lemma ReadMemberCases(s: string, name: string, m: Entries, scan: Scanner)
    requires Lex(s).kind == Colon
    ensures var v := ReadValue(s[Lex(s).end..], scan);
      ReadMember(s, name, m, scan) ==
        (if v.Fail? then Fail
         else
           var at := Lex(s).end + v.used;
           ReadOn(s[at..], name, Insert(m, Name(CStr(name)), v.v), scan).Shift(at))
  {
    hide Lex, ReadValue, ReadOn, Insert, CStr;
  }

  lemma ReadOnCases(s: string, name: string, m: Entries, scan: Scanner)
    ensures var comma, r := Lex(s), ReadOn(s, name, m, scan);
      && (comma.kind == ObjectEnd ==> r == Ok(Object(m), comma.end))
      && (comma.kind == Comma ==> r == ReadMembers(s[comma.end..], name, m, scan).Shift(comma.end))
  {
    hide Lex, NextToken, ReadMembers;
  }

  lemma {:induction false} ReadsMembers(m: Entries, name: string, t: string, done: Entries, scan: Scanner, show: Printer)
    requires m.Entry? && m.key.Name? && Valid(Object(m)) && PrintableEntries(m) && AllBelow(done, m.key)
    requires After(t, MemberTail(m, show)).Some?
    ensures ReadMembers(t, name, done, scan) == Got(Filled(done, BackMembers(m, show, scan), false), t, After(t, MemberTail(m, show)))
    decreases WeightOf(m), 1
  {
    hide Run, Lex, Starts, After, NextToken, ReadValue, Clean, Lexemes, ReadMembers, ReadMember, BackMembers, Quote, StringOf;
    var s := m.key.s;
    var l := [":"] + (Lexemes(m.value, show) + (MemberLexemes(m.rest, false, show) + ["}"]));
    AfterJoin(t, [Quote(s)], l);
    var k := Run(t, SPACE);
    AfterOne(t, k, Quote(s));
    LexString(t, k, s);
    NextIsLex(t);
    QuoteReads(s);
    ReadMembersCases(t, name, done, scan);
    ReadsMember(m, t[k + |Quote(s)|..], done, scan, show);
  }

  lemma {:induction false} ReadsMember(m: Entries, t: string, done: Entries, scan: Scanner, show: Printer)
    requires m.Entry? && m.key.Name? && Valid(Object(m)) && PrintableEntries(m) && AllBelow(done, m.key)
    requires After(t, [":"] + (Lexemes(m.value, show) + (MemberLexemes(m.rest, false, show) + ["}"]))).Some?
    ensures ReadMember(t, m.key.s, done, scan)
      == Got(Filled(done, BackMembers(m, show, scan), false), t, After(t, [":"] + (Lexemes(m.value, show) + (MemberLexemes(m.rest, false, show) + ["}"]))))
    decreases WeightOf(m), 0
  {
    hide *;
    var b, goal := Back(m.value, show, scan), After(t, [":"] + (Lexemes(m.value, show) + (MemberLexemes(m.rest, false, show) + ["}"])));
    var all := Filled(done, BackMembers(m, show, scan), false);
    FilledNext(done, m.key, b, BackMembers(m.rest, show, scan), false);
    var v, l := m.value, MemberLexemes(m.rest, false, show) + ["}"];
    MembersOnce(m.rest, false, show);
    BackMembersOnce(m, show, scan);
    MemberValid(m);
    ReadsColon(v, t, l, scan, show);
    ReadMemberCases(t, m.key.s, done, scan);
    GotIs(all, t, goal);
    if b.Some? {
      var at := Lex(t).end + ReadValue(t[Lex(t).end..], scan).used;
      var r := t[at..];
      ReadOnCases(r, m.key.s, Insert(done, m.key, b.value), scan);
      ReadsRest(m, r, done, l, scan, show);
      AfterSuffix(r, l);
      if m.rest.Nil? { GotIs(all, r, goal); } else { GotShift(all, r, Lex(r).end, goal); }
      GotShift(all, t, at, goal);
    }
  }

  /** A ':' and a value: what is left follows the value. */
  lemma {:induction false} ReadsColon(v: Value, t: string, l: seq<string>, scan: Scanner, show: Printer)
    requires Valid(v) && Printable(v) && After(t, [":"] + (Lexemes(v, show) + l)).Some?
    requires l != [] && (l[0] == "," || l[0] == "}" || l[0] == "]")
    ensures Lex(t).kind == Colon
    ensures var w := ReadValue(t[Lex(t).end..], scan);
      if Back(v, show, scan).None? then w == Fail
      else w.Ok? && w.v == Back(v, show, scan).value && After(t[Lex(t).end + w.used..], l) == After(t, [":"] + (Lexemes(v, show) + l))
    decreases Weight(v), 5
  {
    hide Run, Lex, Starts, After, NextToken, ReadValue, Clean, Lexemes, Back;
    ReadWord(t, Colon, Lexemes(v, show) + l);
    ReadsThen(v, t[Run(t, SPACE) + 1..], l, scan, show);
    var w := ReadValue(t[Run(t, SPACE) + 1..], scan);
    if w.Ok? { assert t[Run(t, SPACE) + 1..][w.used..] == t[Run(t, SPACE) + 1 + w.used..]; }
  }

  /** A value in front of other tokens. */
  lemma {:induction false} ReadsThen(v: Value, u: string, l: seq<string>, scan: Scanner, show: Printer)
    requires Valid(v) && Printable(v) && After(u, Lexemes(v, show) + l).Some?
    requires l != [] && (l[0] == "," || l[0] == "}" || l[0] == "]")
    ensures var w := ReadValue(u, scan);
      if Back(v, show, scan).None? then w == Fail
      else w.Ok? && w.v == Back(v, show, scan).value && After(u[w.used..], l) == After(u, Lexemes(v, show) + l)
    decreases Weight(v), 4
  {
    hide Run, Starts, After, ReadValue, Clean, Lexemes, Back;
    AfterJoin(u, Lexemes(v, show), l);
    AfterSuffix(u, Lexemes(v, show));
    Ends(After(u, Lexemes(v, show)).value, l);
    Reads(v, u, scan, show);
  }

  /** A value is followed by a comma or a closing brace. */
  lemma Ends(r: string, l: seq<string>)
    requires After(r, l).Some? && l != [] && (l[0] == "," || l[0] == "}" || l[0] == "]")
    ensures Clean(r)
  {
    hide Run, After, Starts, Clean;
    AfterOnce(r, l);
    CleanBefore(r, l[0]);
  }

  /** The members behind the value of a member. */
  lemma {:induction false} ReadsRest(m: Entries, r: string, done: Entries, l: seq<string>, scan: Scanner, show: Printer)
    requires m.Entry? && m.key.Name? && Valid(Object(m)) && PrintableEntries(m) && AllBelow(done, m.key)
    requires l == MemberLexemes(m.rest, false, show) + ["}"] && After(r, l).Some?
    requires Back(m.value, show, scan).Some?
    ensures var comma := Lex(r);
      var n := Insert(done, m.key, Back(m.value, show, scan).value);
      if m.rest.Nil? then
        && comma.kind == ObjectEnd && comma.end == |r| - |After(r, l).value|
        && Some(Object(n)) == Filled(done, BackMembers(m, show, scan), false)
      else
        && comma == Tok(Comma, Run(r, SPACE), Run(r, SPACE) + 1) && m.rest.key.Name?
        && After(r, l) == After(r[comma.end..], MemberTail(m.rest, show))
        && After(r[comma.end..], MemberTail(m.rest, show)).Some?
        && ReadMembers(r[comma.end..], m.key.s, n, scan)
             == Got(Filled(done, BackMembers(m, show, scan), false), r[comma.end..], After(r, l))
    decreases WeightOf(m.rest), 3
  {
    hide Run, Lex, Starts, After, NextToken, ReadValue, Clean, Lexemes, ReadMembers, Back, BackMembers, Quote, MemberLexemes, Insert, KeyLess, Filled, Consed, AllBelow;
    MembersOnce(m, true, show);
    MembersOnce(m.rest, false, show);
    BackMembersOnce(m, show, scan);
    BackMembersOnce(m.rest, show, scan);
    MemberValid(m);
    var b := Back(m.value, show, scan).value;
    var n := Insert(done, m.key, b);
    FilledNext(done, m.key, Some(b), BackMembers(m.rest, show, scan), false);
    if m.rest.Entry? {
      assert l == [","] + MemberTail(m.rest, show);
      ReadWord(r, Comma, MemberTail(m.rest, show));
      InsertBelow(done, m.key, b, m.rest.key);
      ReadsMembers(m.rest, m.key.s, r[Run(r, SPACE) + 1..], n, scan, show);
    } else {
      assert l == ["}"] + [];
      ReadWord(r, ObjectEnd, []);
      AfterNothing(r[Run(r, SPACE) + 1..]);
      FilledNone(n, false);
    }
  }

  lemma MemberValid(m: Entries)
    requires m.Entry? && Valid(Object(m)) && PrintableEntries(m)
    ensures m.key.Name? && NulFree(m.key.s) && CStr(m.key.s) == m.key.s && Valid(m.value) && Printable(m.value)
    ensures Valid(Object(m.rest)) && PrintableEntries(m.rest) && WeightOf(m.rest) < WeightOf(m) && Weight(m.value) < WeightOf(m)
    ensures m.rest.Entry? ==> m.rest.key.Name? && KeyLess(m.key, m.rest.key)
  {
    hide KeyLess, CStr;
  }

  // ---- Values in the range of the reader

  /** A value in the range of the reader is read back as itself, but for small unsigned integers
      and holes. */
  lemma {:induction false} BackIsNormal(v: Value, show: Printer, scan: Scanner)
    requires Valid(v) && Writable(v)
    ensures Back(v, show, scan) == Some(Normal(v)) && Printable(v)
    decreases Weight(v), 1
  {
    hide WholeOf, IntText, BackItems, BackMembers, NormalItems, NormalMembers;
    match v
    case Int(i) => IntReads(i);
    case UInt(u) => UIntReads(u);
    case Array(a) =>
      BackItemsNormal(a, 0, show, scan);
      WritablePrints(a);
    case Object(o) =>
      BackMembersNormal(o, show, scan);
      WritablePrints(o);
    case _ =>
  }

  lemma {:induction false} WritablePrints(m: Entries)
    requires WritableEntries(m)
    ensures PrintableEntries(m)
    decreases m
  {
    if m.Entry? {
      if m.value.Array? { WritablePrints(m.value.a); }
      if m.value.Object? { WritablePrints(m.value.o); }
      WritablePrints(m.rest);
    }
  }

  lemma {:induction false} FoundWritable(m: Entries, k: Key, indexed: bool)
    requires ValidEntries(m, indexed) && WritableEntries(m)
    ensures Valid(Find(m, k)) && Writable(Find(m, k))
  {
    if m.Entry? && m.key != k {
      FoundWritable(m.rest, k, indexed);
    }
  }

  lemma {:induction false} BackItemsNormal(m: Entries, i: nat, show: Printer, scan: Scanner)
    requires ValidEntries(m, true) && WritableEntries(m)
    ensures BackItems(m, i, show, scan) == Some(NormalItems(m, i))
    decreases WeightOf(m), ArraySize(m) - i
  {
    hide Back, Normal, BackItems;
    BackOnce(m, i, show, scan);
    if i < ArraySize(m) {
      FindWeight(m, Index(i));
      FoundWritable(m, Index(i), true);
      BackIsNormal(Find(m, Index(i)), show, scan);
      BackItemsNormal(m, i + 1, show, scan);
    }
  }

  lemma {:induction false} BackMembersNormal(m: Entries, show: Printer, scan: Scanner)
    requires ValidEntries(m, false) && WritableEntries(m)
    ensures BackMembers(m, show, scan) == Some(NormalMembers(m))
    decreases WeightOf(m), 0
  {
    hide Back, Normal;
    if m.Entry? {
      BackIsNormal(m.value, show, scan);
      BackMembersNormal(m.rest, show, scan);
    }
  }
}
