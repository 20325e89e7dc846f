/** Start tags made of name="value" pairs: what x_SetAttrib, x_GetAttrib and
    x_RemoveAttrib do to the list of the attributes. */
module MarkupAttribs {
  import opened MarkupText
  import opened MarkupGrammar
  import opened MarkupTree
  import opened MarkupEntities
  import opened MarkupTags

  /** An attribute as it is written: the white space before it, its name, the white space
      around the '=', the quote and the escaped value. */
  datatype Attr = Attr(ws: string, name: string, mid1: string, mid2: string, quote: char, raw: string)

  predicate Spaces(s: string) { forall k :: 0 <= k < |s| ==> s[k] in SPACES }

  /** A name that is one token of its own. */
  predicate PlainName(n: string) {
    n != "" && n[0] !in {'\"', '\''} && forall k :: 0 <= k < |n| ==> n[k] !in SPECIALS && n[k] != '['
  }

  predicate ValidAttr(a: Attr) {
    && a.ws != "" && Spaces(a.ws) && PlainName(a.name) && Spaces(a.mid1) && Spaces(a.mid2)
    && a.quote in {'\"', '\''}
    && forall k :: 0 <= k < |a.raw| ==> a.raw[k] != a.quote && a.raw[k] != '>'
  }

  predicate ValidAttrs(list: seq<Attr>) { forall k :: 0 <= k < |list| ==> ValidAttr(list[k]) }

  /** The '=' and the quoted value. */
  function ValueText(a: Attr): string {
    a.mid1 + ("=" + (a.mid2 + ([a.quote] + (a.raw + [a.quote]))))
  }

  function AttrText(a: Attr): string { a.ws + (a.name + ValueText(a)) }

  function AttrsText(list: seq<Attr>): string {
    if list == [] then "" else AttrText(list[0]) + AttrsText(list[1..])
  }

  /** A start tag: its name, attributes and the white space before the end of the tag. */
  datatype Tag = Tag(name: string, list: seq<Attr>, tail: string, empty: bool) {
    predicate Valid() { PlainName(name) && ValidAttrs(list) && Spaces(tail) }

    function Ending(): string { tail + (if empty then "/>" else ">") }

    function Inner(): string { name + (AttrsText(list) + Ending()) }

    function Text(): string { "<" + Inner() }
  }

  // ---- Tokens

  lemma NameToken(ws: string, n: string, x: string)
    requires Spaces(ws) && PlainName(n) && x != "" && x[0] in SPECIALS
    ensures FindToken(ws + (n + x)) == Token(true, false, |ws|, |ws| + |n| - 1, |ws| + |n|)
  {
    var s := ws + (n + x);
    FirstNotOfIs(s, SPACES, |ws|);
    assert s[|ws|..] == n + x;
    FirstOfIs(n + x, SPECIALS, |n|);
  }

  lemma SpecialToken(ws: string, c: char, x: string)
    requires Spaces(ws) && c in SPECIALS && c !in SPACES
    ensures FindToken(ws + ([c] + x)) == Token(true, false, |ws|, |ws|, |ws| + 1)
  {
    var s := ws + ([c] + x);
    FirstNotOfIs(s, SPACES, |ws|);
    assert s[|ws|..] == [c] + x;
    FirstOfIs([c] + x, SPECIALS, 0);
  }

  lemma QuotedToken(ws: string, q: char, raw: string, x: string)
    requires Spaces(ws) && q in {'\"', '\''} && forall k :: 0 <= k < |raw| ==> raw[k] != q
    ensures FindToken(ws + ([q] + (raw + ([q] + x)))) == Token(true, true, |ws| + 1, |ws| + |raw|, |ws| + |raw| + 2)
  {
    var s := ws + ([q] + (raw + ([q] + x)));
    FirstNotOfIs(s, SPACES, |ws|);
    assert s[|ws|] == q;
    assert s[|ws| + 1..] == raw + ([q] + x);
    FirstOfIs(raw + ([q] + x), {q}, |raw|);
  }

  // ---- x_FindAttrib over an attribute

  lemma MatchPlain(w: string, name: string)
    requires PlainName(name)
    ensures Match(w, name) <==> w == name
  {
  }

  function ShiftTo(r: Option<Token>, n: nat): Option<Token> {
    if r.Some? then Some(r.value.Shift(n)) else None
  }

  /** Over '=' and value, with the name read or not. */
  lemma FindOverValue(a: Attr, x: string, name: string, count: nat, attrib: nat)
    requires ValidAttr(a) && (name == "" ==> attrib == 0) && (attrib != 0 ==> attrib + 1 == count)
    ensures FindAttrib(ValueText(a) + x, name, count, attrib)
      == if attrib != 0 then Some(Token(true, true, |ValueText(a)| - |a.raw| - 1, |ValueText(a)| - 2, |ValueText(a)|))
         else ShiftTo(FindAttrib(x, name, count + 2, 0), |ValueText(a)|)
  {
    hide FindToken, FindAttrib;
    var y := a.mid2 + ([a.quote] + (a.raw + ([a.quote] + x)));
    var s := ValueText(a) + x;
    assert s == a.mid1 + (['='] + y);
    SpecialToken(a.mid1, '=', y);
    FindAttribOnce(s, name, count, attrib);
    assert s[|a.mid1| + 1..] == y;
    QuotedToken(a.mid2, a.quote, a.raw, x);
    FindAttribOnce(y, name, count + 1, attrib);
    assert y[|a.mid2| + |a.raw| + 2..] == x;
  }

  /** Over a whole attribute. */
  lemma FindOverAttr(a: Attr, x: string, name: string, count: nat)
    requires ValidAttr(a) && (name == "" || PlainName(name)) && count > 0
    ensures FindAttrib(AttrText(a) + x, name, count, 0)
      == if name == "" then Some(Token(true, false, |a.ws|, |a.ws| + |a.name| - 1, |a.ws| + |a.name|))
         else if a.name == name then
           Some(Token(true, true, |AttrText(a)| - |a.raw| - 1, |AttrText(a)| - 2, |AttrText(a)|))
         else ShiftTo(FindAttrib(x, name, count + 3, 0), |AttrText(a)|)
  {
    hide FindToken, FindAttrib, ValueText, Match;
    var y := ValueText(a) + x;
    var s := AttrText(a) + x;
    assert s == a.ws + (a.name + y);
    ValueStarts(a, x);
    NameToken(a.ws, a.name, y);
    FindAttribOnce(s, name, count, 0);
    assert s[|a.ws|..|a.ws| + |a.name|] == a.name;
    assert s[|a.ws|] == a.name[0];
    assert s[|a.ws| + |a.name|..] == y;
    if name != "" {
      MatchPlain(a.name, name);
      FindOverValue(a, x, name, count + 1, if a.name == name then count else 0);
    }
  }

  lemma ValueStarts(a: Attr, x: string)
    requires ValidAttr(a)
    ensures ValueText(a) + x != "" && (ValueText(a) + x)[0] in SPECIALS && |ValueText(a)| >= 3 + |a.raw|
  {
  }

  lemma FindAtEnding(t: Tag, x: string, name: string, count: nat, attrib: nat)
    requires Spaces(t.tail)
    ensures FindAttrib(t.Ending() + x, name, count, attrib) == None
  {
    hide FindToken, FindAttrib;
    var c := if t.empty then '/' else '>';
    var y := (if t.empty then ">" else "") + x;
    assert t.Ending() + x == t.tail + ([c] + y);
    SpecialToken(t.tail, c, y);
    FindAttribOnce(t.Ending() + x, name, count, attrib);
  }

  /** The first attribute of that name, or the number of attributes. */
  function IndexOf(list: seq<Attr>, name: string): (i: nat)
    ensures i <= |list|
    ensures i < |list| ==> list[i].name == name
    ensures forall k :: 0 <= k < i ==> list[k].name != name
  {
    if list == [] || list[0].name == name then 0 else 1 + IndexOf(list[1..], name)
  }

  lemma IndexOfIs(list: seq<Attr>, name: string, i: nat)
    requires i <= |list| && (i < |list| ==> list[i].name == name) && forall k :: 0 <= k < i ==> list[k].name != name
    ensures IndexOf(list, name) == i
  {
  }

  /** x_FindAttrib over a list of attributes finds the value of the first of that name. */
  lemma {:induction false} FindInAttrs(list: seq<Attr>, t: Tag, x: string, name: string, count: nat)
    requires ValidAttrs(list) && Spaces(t.tail) && PlainName(name) && count > 0
    ensures var i := IndexOf(list, name);
      FindAttrib(AttrsText(list) + (t.Ending() + x), name, count, 0)
      == if i == |list| then None
         else
           var n := |AttrsText(list[..i])| + |AttrText(list[i])|;
           Some(Token(true, true, n - |list[i].raw| - 1, n - 2, n))
    decreases |list|
  {
    hide FindAttrib, AttrText, Tag.Ending;
    if list == [] {
      assert AttrsText(list) + (t.Ending() + x) == t.Ending() + x;
      FindAtEnding(t, x, name, count, 0);
    } else {
      var y := AttrsText(list[1..]) + (t.Ending() + x);
      assert AttrsText(list) + (t.Ending() + x) == AttrText(list[0]) + y;
      FindOverAttr(list[0], y, name, count);
      if list[0].name != name {
        FindInAttrs(list[1..], t, x, name, count + 3);
        var i := IndexOf(list, name);
        if i < |list| {
          assert list[..i][1..] == list[1..][..i - 1] && list[..i][0] == list[0];
          assert list[1..][i - 1] == list[i];
        }
      } else {
        assert list[..0] == [];
      }
    }
  }

  /** x_FindAttrib over a start tag. */
  lemma FindInTag(t: Tag, x: string, name: string)
    requires t.Valid() && PlainName(name)
    ensures var i := IndexOf(t.list, name);
      FindAttrib(t.Inner() + x, name, 0, 0)
      == if i == |t.list| then None
         else
           var n := |t.name| + |AttrsText(t.list[..i])| + |AttrText(t.list[i])|;
           Some(Token(true, true, n - |t.list[i].raw| - 1, n - 2, n))
  {
    hide FindToken, FindAttrib, AttrsText, AttrText, IndexOf;
    var y := AttrsText(t.list) + (t.Ending() + x);
    assert t.Inner() + x == "" + (t.name + y);
    AttrsStart(t, x);
    NameToken("", t.name, y);
    FindAttribOnce(t.Inner() + x, name, 0, 0);
    assert (t.Inner() + x)[|t.name|..] == y;
    assert (t.Inner() + x)[0] == t.name[0];
    FindInAttrs(t.list, t, x, name, 1);
  }

  lemma AttrsStart(t: Tag, x: string)
    requires ValidAttrs(t.list) && Spaces(t.tail)
    ensures var y := AttrsText(t.list) + (t.Ending() + x); y != "" && y[0] in SPECIALS
  {
    if t.list != [] {
      assert t.list[0].ws[0] in SPACES;
    } else if t.tail != "" {
      assert t.tail[0] in SPACES;
    }
  }

  // ---- x_GetAttrib and x_SetAttrib

  function Value(list: seq<Attr>, name: string): string {
    var i := IndexOf(list, name);
    if i < |list| then FromDoc(list[i].raw) else ""
  }

  /** The tag with the attribute set: in place, or as its last attribute. */
  function WithAttr(t: Tag, name: string, value: string): Tag {
    var i := IndexOf(t.list, name);
    var raw := ToDoc(value, true);
    if i < |t.list| then t.(list := t.list[i := t.list[i].(raw := raw)])
    else Tag(t.name, t.list + [Attr(t.tail + " ", name, "", "", '\"', raw)], "", t.empty)
  }

  lemma AttrTextSplit(a: Attr)
    ensures var n := |AttrText(a)|;
      && n >= |a.raw| + 1
      && AttrText(a)[n - |a.raw| - 1..n - 1] == a.raw
  {
    var p := a.ws + a.name + a.mid1 + "=" + a.mid2 + [a.quote];
    assert AttrText(a) == p + (a.raw + [a.quote]);
    assert |AttrText(a)| == |p| + |a.raw| + 1;
    assert AttrText(a)[|p|..|p| + |a.raw|] == a.raw;
  }

  lemma {:induction false} AttrsTextJoin(p: seq<Attr>, q: seq<Attr>)
    ensures AttrsText(p + q) == AttrsText(p) + AttrsText(q)
  {
    if p == [] {
      assert p + q == q;
    } else {
      assert (p + q)[1..] == p[1..] + q;
      AttrsTextJoin(p[1..], q);
      assert AttrText(p[0]) + (AttrsText(p[1..]) + AttrsText(q)) == AttrText(p[0]) + AttrsText(p[1..]) + AttrsText(q);
    }
  }

  lemma AttrsTextAt(list: seq<Attr>, i: nat)
    requires i < |list|
    ensures AttrsText(list) == AttrsText(list[..i]) + (AttrText(list[i]) + AttrsText(list[i + 1..]))
  {
    hide AttrText;
    assert list == list[..i] + list[i..];
    AttrsTextJoin(list[..i], list[i..]);
    assert list[i..][0] == list[i] && list[i..][1..] == list[i + 1..];
  }

  /** The tag around its i-th attribute. */
  function UpTo(t: Tag, i: nat): string
    requires i < |t.list|
  {
    "<" + (t.name + AttrsText(t.list[..i]))
  }

  function From(t: Tag, i: nat): string
    requires i < |t.list|
  {
    AttrsText(t.list[i + 1..]) + t.Ending()
  }

  lemma TagAround(t: Tag, i: nat)
    requires i < |t.list|
    ensures t.Text() == UpTo(t, i) + (AttrText(t.list[i]) + From(t, i))
    ensures |UpTo(t, i)| == 1 + |t.name| + |AttrsText(t.list[..i])|
  {
    hide AttrText, AttrsText, Tag.Ending;
    AttrsTextAt(t.list, i);
    var a, p, q, e := AttrText(t.list[i]), AttrsText(t.list[..i]), AttrsText(t.list[i + 1..]), t.Ending();
    assert t.Text() == "<" + (t.name + ((p + (a + q)) + e));
    assert "<" + (t.name + ((p + (a + q)) + e)) == ("<" + (t.name + p)) + (a + (q + e));
  }

  lemma FindInText(t: Tag, name: string)
    requires t.Valid() && PlainName(name)
    ensures t.Text()[1..] == t.Inner() && |t.Text()| >= 2
    ensures var i := IndexOf(t.list, name);
      FindAttrib(t.Text()[1..], name, 0, 0)
      == if i == |t.list| then None
         else
           var n := |UpTo(t, i)| - 1 + |AttrText(t.list[i])|;
           Some(Token(true, true, n - |t.list[i].raw| - 1, n - 2, n))
  {
    hide FindAttrib, AttrText, AttrsText, Tag.Ending, IndexOf;
    FindInTag(t, "", name);
    assert t.Inner() + "" == t.Inner() == t.Text()[1..];
    var i := IndexOf(t.list, name);
    if i < |t.list| { TagAround(t, i); }
    assert |t.Ending()| >= 1 by { EndingWidth(t); }
  }

  lemma EndingWidth(t: Tag)
    ensures |t.Ending()| == |t.tail| + (if t.empty then 2 else 1)
  {
  }

  lemma {:induction false} AttribOfTag(t: Tag, name: string)
    requires t.Valid() && PlainName(name)
    ensures t.Text() != "" && AttribOf(t.Text(), name) == Value(t.list, name)
  {
    hide FindAttrib, AttrText, AttrsText, Tag.Ending, Tag.Inner, IndexOf, FromDoc, UpTo, From;
    FindInText(t, name);
    var i := IndexOf(t.list, name);
    if i < |t.list| {
      var a := t.list[i];
      TagAround(t, i);
      AttrTextSplit(a);
      var u, n := |UpTo(t, i)|, |AttrText(a)|;
      assert u >= 1 by { assert |UpTo(t, i)| == 1 + |t.name| + |AttrsText(t.list[..i])|; }
      var k := FindAttrib(t.Text()[1..], name, 0, 0).value;
      assert t.Text()[u..u + n] == AttrText(a);
      SliceOfSlice(t.Text(), u, u + n, n - |a.raw| - 1, n - 1);
      SliceOfSlice(t.Text(), 1, |t.Text()|, k.l, k.r + 1);
      assert t.Text()[1..] == t.Text()[1..|t.Text()|];
    }
  }

  /** What x_SetAttrib makes of the text of the tag is the tag with the attribute set. */
  lemma SetTagIs(t: Tag, name: string, value: string)
    requires t.Valid() && PlainName(name)
    ensures |t.Text()| >= 2 && SetTag(t.Text(), t.empty, name, value) == WithAttr(t, name, value).Text()
  {
    hide FindAttrib, SetTag, Tag.Text, ToDoc;
    if IndexOf(t.list, name) < |t.list| {
      SetTagReplaces(t, name, value);
    } else {
      SetTagAppends(t, name, value);
    }
  }

  lemma SetTagReplaces(t: Tag, name: string, value: string)
    requires t.Valid() && PlainName(name) && IndexOf(t.list, name) < |t.list|
    ensures |t.Text()| >= 2 && SetTag(t.Text(), t.empty, name, value) == WithAttr(t, name, value).Text()
  {
    hide FindAttrib, AttrText, AttrsText, Tag.Ending, Tag.Inner, Tag.Text, Tag.Valid, IndexOf, ToDoc, UpTo, From, SetTag, PlainName;
    FindInText(t, name);
    var i, raw := IndexOf(t.list, name), ToDoc(value, true);
    var a, w := t.list[i], WithAttr(t, name, value);
    TagAround(t, i);
    TagAround(w, i);
    SameAround(t, w, i);
    RawReplaced(a, raw);
    var n := |AttrText(a)|;
    SetTagCases(t.Text(), t.empty, name, value);
    ReplacedInside(UpTo(t, i), AttrText(a), From(t, i), n - |a.raw| - 1, n - 1, raw);
  }

  lemma ReplacedInside(p: string, a: string, q: string, i: nat, j: nat, raw: string)
    requires i <= j <= |a|
    ensures var s := p + (a + q);
      s[..|p| + i] + raw + s[|p| + j..] == p + ((a[..i] + raw + a[j..]) + q)
  {
    var s := p + (a + q);
    assert s[..|p| + i] == p + a[..i];
    assert s[|p| + j..] == a[j..] + q;
    assert p + ((a[..i] + raw + a[j..]) + q) == (p + a[..i]) + raw + (a[j..] + q);
  }

  lemma SameAround(t: Tag, w: Tag, i: nat)
    requires i < |t.list| == |w.list| && w.list[..i] == t.list[..i] && w.list[i + 1..] == t.list[i + 1..]
    requires w.name == t.name && w.tail == t.tail && w.empty == t.empty
    ensures UpTo(w, i) == UpTo(t, i) && From(w, i) == From(t, i)
  {
  }

  lemma RawReplaced(a: Attr, raw: string)
    ensures var n := |AttrText(a)|;
      && n >= |a.raw| + 1
      && AttrText(a.(raw := raw)) == AttrText(a)[..n - |a.raw| - 1] + raw + AttrText(a)[n - 1..]
  {
    var p := a.ws + a.name + a.mid1 + "=" + a.mid2 + [a.quote];
    assert AttrText(a) == p + (a.raw + [a.quote]);
    assert AttrText(a.(raw := raw)) == p + (raw + [a.quote]);
    assert AttrText(a)[..|p|] == p && AttrText(a)[|p| + |a.raw|..] == [a.quote];
  }

  lemma SetTagAppends(t: Tag, name: string, value: string)
    requires t.Valid() && PlainName(name) && IndexOf(t.list, name) == |t.list|
    ensures |t.Text()| >= 2 && SetTag(t.Text(), t.empty, name, value) == WithAttr(t, name, value).Text()
  {
    hide FindAttrib, AttrsText, IndexOf, ToDoc, AttrText;
    FindInText(t, name);
    var raw := ToDoc(value, true);
    var b := Attr(t.tail + " ", name, "", "", '\"', raw);
    var pair := Pair(name, value);
    var end := if t.empty then "/>" else ">";
    var body := "<" + (t.name + AttrsText(t.list));
    var head := body + t.tail;
    assert t.Text() == head + end;
    assert t.Text()[..|head|] == head && t.Text()[|head|..] == end;
    AttrsTextJoin(t.list, [b]);
    AttrsTextOne(b);
    NewAttrText(t.tail, name, value);
    TextOfAppended(t, b, t.tail + pair, end);
    assert body + (t.tail + pair) + end == head + pair + end;
  }

  lemma TextOfAppended(t: Tag, b: Attr, btext: string, end: string)
    requires AttrsText(t.list + [b]) == AttrsText(t.list) + btext && end == (if t.empty then "/>" else ">")
    ensures Tag(t.name, t.list + [b], "", t.empty).Text() == "<" + (t.name + AttrsText(t.list)) + btext + end
  {
    hide AttrsText;
  }

  lemma AttrsTextOne(b: Attr)
    ensures AttrsText([b]) == AttrText(b)
  {
    assert [b][1..] == [];
  }

  lemma NewAttrText(tail: string, name: string, value: string)
    ensures AttrText(Attr(tail + " ", name, "", "", '\"', ToDoc(value, true))) == tail + Pair(name, value)
  {
    hide ToDoc;
    var raw := ToDoc(value, true);
    assert tail + " " + (name + ("" + ("=" + ("" + (['\"'] + (raw + ['\"'])))))) == tail + (" " + name + "=\"" + raw + "\"");
  }

  lemma WithAttrValid(t: Tag, name: string, value: string)
    requires t.Valid() && PlainName(name)
    ensures WithAttr(t, name, value).Valid()
  {
    hide ToDoc;
    ToDocClean(value, true);
  }

  /** x_GetAttrib after x_SetAttrib: the attribute reads as the value that was set, and
      every other attribute as before. */
  lemma SetThenGet(t: Tag, name: string, value: string, other: string)
    requires t.Valid() && PlainName(name) && PlainName(other)
    ensures |t.Text()| >= 2
    ensures var s := SetTag(t.Text(), t.empty, name, value);
      && s != ""
      && AttribOf(s, name) == value
      && (other != name ==> AttribOf(s, other) == AttribOf(t.Text(), other))
  {
    hide ToDoc, FromDoc, SetTag, AttribOf, AttrsText, AttrText, Tag.Text;
    var w := WithAttr(t, name, value);
    SetTagIs(t, name, value);
    WithAttrValid(t, name, value);
    AttribOfTag(w, name); AttribOfTag(w, other); AttribOfTag(t, other);
    FromDocInverts(value, true);
    var i := IndexOf(t.list, name);
    IndexOfIs(w.list, name, i);
    IndexAfterSet(t, w, name, other, i);
  }

  lemma IndexAfterSet(t: Tag, w: Tag, name: string, other: string, i: nat)
    requires i == IndexOf(t.list, name)
    requires i < |t.list| ==> |w.list| == |t.list| && w.list[i].name == name
    requires i < |t.list| ==> forall k :: 0 <= k < |t.list| && k != i ==> w.list[k] == t.list[k]
    requires i == |t.list| ==> |w.list| == i + 1 && w.list[..i] == t.list && w.list[i].name == name
    ensures other != name ==> Value(w.list, other) == Value(t.list, other)
  {
    hide FromDoc;
    if other != name {
      var j := IndexOf(t.list, other);
      if i == |t.list| {
        assert forall k :: 0 <= k < i ==> w.list[k] == w.list[..i][k];
      }
      IndexOfIs(w.list, other, if j == |t.list| then |w.list| else j);
    }
  }

  // ---- x_RemoveAttrib

  /** The text from an attribute list on. */
  function Remains(list: seq<Attr>, t: Tag, x: string): string {
    AttrsText(list) + (t.Ending() + x)
  }

  lemma NextName(list: seq<Attr>, t: Tag, x: string, count: nat)
    requires ValidAttrs(list) && Spaces(t.tail) && count > 0
    ensures FindAttrib(Remains(list, t, x), "", count, 0)
      == if list == [] then None
         else Some(Token(true, false, |list[0].ws|, |list[0].ws| + |list[0].name| - 1, |list[0].ws| + |list[0].name|))
  {
    hide FindAttrib, AttrText, Tag.Ending;
    if list == [] {
      assert Remains(list, t, x) == t.Ending() + x;
      FindAtEnding(t, x, "", count, 0);
    } else {
      var y := Remains(list[1..], t, x);
      assert Remains(list, t, x) == AttrText(list[0]) + y;
      FindOverAttr(list[0], y, "", count);
    }
  }

  /** The part of the text that is taken out for the attribute `name` of a list that
      starts at `n`: its last preceding blank up to its closing quote. */
  function CutIn(list: seq<Attr>, name: string, n: nat): Cut {
    var i := IndexOf(list, name);
    if i == |list| || list[i].ws == "" then NoCut
    else
      var at := n + |AttrsText(list[..i])|;
      Cut(at + |list[i].ws| - 1, at + |AttrText(list[i])|)
  }

  /** The tokens of '=' and value. */
  lemma ValueTokens(a: Attr, u: string, y: string)
    requires ValidAttr(a) && u == ValueText(a) + y
    ensures |a.mid1| < |u| && u[|a.mid1|] == '='
    ensures FindToken(u) == Token(true, false, |a.mid1|, |a.mid1|, |a.mid1| + 1)
    ensures var t2 := FindToken(u[|a.mid1| + 1..]); t2.found && t2.isString && |a.mid1| + 1 + t2.r + 2 == |ValueText(a)|
  {
    hide FindToken;
    var z := a.mid2 + ([a.quote] + (a.raw + ([a.quote] + y)));
    assert u == a.mid1 + (['='] + z);
    SpecialToken(a.mid1, '=', z);
    assert u[|a.mid1| + 1..] == z;
    QuotedToken(a.mid2, a.quote, a.raw, y);
  }

  lemma CutAtHit(s: string, k: Token, name: string, u: string, i: nat)
    requires 0 < k.l <= k.next <= |s| && Match(s[k.l..k.next], name)
    requires u == s[k.next..] && i < |u| && u[i] == '=' && FindToken(u) == Token(true, false, i, i, i + 1)
    requires FindToken(u[i + 1..]).found && FindToken(u[i + 1..]).isString
    ensures CutAt(s, k, name) == Cut(k.l - 1, k.next + i + 1 + FindToken(u[i + 1..]).r + 2)
  {
    hide FindToken, Match, FindCut;
    assert s[k.next + i] == u[i];
    assert s[k.next + (i + 1)..] == u[i + 1..];
  }

  lemma CutHere(a: Attr, s: string, y: string, n: nat, name: string)
    requires ValidAttr(a) && n + |a.ws| + |a.name| <= |s| && s[n..] == AttrText(a) + y && a.name == name && PlainName(name)
    ensures 0 < n + |a.ws|
    ensures CutAt(s, Token(true, false, n + |a.ws|, n + |a.ws| + |a.name| - 1, n + |a.ws| + |a.name|), name)
      == Cut(n + |a.ws| - 1, n + |AttrText(a)|)
  {
    hide FindToken, Match, FindCut, CutAt, AttrText, ValueText;
    AttrWidth(a);
    AfterName(a, s, y, n);
    MatchPlain(a.name, name);
    var k := Token(true, false, n + |a.ws|, n + |a.ws| + |a.name| - 1, n + |a.ws| + |a.name|);
    ValueTokens(a, s[k.next..], y);
    CutAtHit(s, k, name, s[k.next..], |a.mid1|);
  }

  lemma {:induction false} FindCutInAttrs(list: seq<Attr>, t: Tag, x: string, name: string, s: string, n: nat, count: nat)
    requires ValidAttrs(list) && Spaces(t.tail) && PlainName(name) && count > 0
    requires n <= |s| && s[n..] == Remains(list, t, x)
    requires FindAttrib(s, "", 0, 0) == ShiftTo(FindAttrib(Remains(list, t, x), "", count, 0), n)
    ensures FindCut(s, name) == CutIn(list, name, n)
    decreases |list|
  {
    hide FindAttrib, AttrText, Tag.Ending, Match, FindToken, FindCut, CutAt;
    NextName(list, t, x, count);
    FindCutOnce(s, name);
    if list != [] {
      var a, y := list[0], Remains(list[1..], t, x);
      assert s[n..] == AttrText(a) + y;
      AttrWidth(a);
      var k := Token(true, false, n + |a.ws|, n + |a.ws| + |a.name| - 1, n + |a.ws| + |a.name|);
      if a.name == name {
        CutHere(a, s, y, n, name);
        assert list[..0] == [];
      } else {
        assert s[k.next..] == ValueText(a) + y by { AfterName(a, s, y, n); }
        assert s[k.l..k.next] == a.name by { AfterName(a, s, y, n); }
        MatchPlain(a.name, name);
        CutAtOther(s, k, name);
        FindOverValue(a, y, "", 0, 0);
        assert s[k.next..][|ValueText(a)|..] == y;
        FindCutInAttrs(list[1..], t, x, name, s[k.next..], |ValueText(a)|, 2);
        CutInTail(list, name, n);
      }
    }
  }

  lemma AttrWidth(a: Attr)
    ensures |AttrText(a)| == |a.ws| + |a.name| + |ValueText(a)|
  {
  }

  lemma AfterName(a: Attr, s: string, y: string, n: nat)
    requires n <= |s| && s[n..] == AttrText(a) + y
    ensures n + |a.ws| + |a.name| <= |s| && s[n + |a.ws| + |a.name|..] == ValueText(a) + y
    ensures s[n + |a.ws|..n + |a.ws| + |a.name|] == a.name
  {
    hide ValueText;
    var u := s[n..];
    assert u == a.ws + (a.name + (ValueText(a) + y));
    assert s[n + |a.ws| + |a.name|..] == u[|a.ws| + |a.name|..];
    assert s[n + |a.ws|..n + |a.ws| + |a.name|] == u[|a.ws|..|a.ws| + |a.name|];
  }

  lemma CutAtOther(s: string, k: Token, name: string)
    requires 0 < k.l <= k.next <= |s| && !Match(s[k.l..k.next], name)
    ensures CutAt(s, k, name) == FindCut(s[k.next..], name).Shift(k.next)
  {
    hide FindCut;
  }

  lemma CutInTail(list: seq<Attr>, name: string, n: nat)
    requires ValidAttrs(list) && list != [] && list[0].name != name
    ensures var a := list[0];
      CutIn(list[1..], name, |ValueText(a)|).Shift(n + |a.ws| + |a.name|) == CutIn(list, name, n)
  {
    hide AttrText;
    var i := IndexOf(list, name);
    AttrWidth(list[0]);
    if i < |list| {
      assert list[..i][1..] == list[1..][..i - 1] && list[..i][0] == list[0];
    }
  }

  lemma FindCutInTag(t: Tag, x: string, name: string)
    requires t.Valid() && PlainName(name)
    ensures FindCut(t.Inner() + x, name) == CutIn(t.list, name, |t.name|)
  {
    hide FindToken, FindAttrib, AttrsText, IndexOf, FindCut;
    var y := Remains(t.list, t, x);
    var s := t.Inner() + x;
    assert s == "" + (t.name + y);
    AttrsStart(t, x);
    NameToken("", t.name, y);
    FindAttribOnce(s, "", 0, 0);
    assert s[|t.name|..] == y;
    assert s[0] == t.name[0];
    FindCutInAttrs(t.list, t, x, name, s, |t.name|, 1);
  }

  /** The tag without its first attribute of that name; of the white space in front of it
      only the last character goes. */
  function WithoutAttr(t: Tag, name: string): Tag {
    var i := IndexOf(t.list, name);
    if i == |t.list| || t.list[i].ws == "" then t
    else
      var blank := t.list[i].ws[..|t.list[i].ws| - 1];
      if i + 1 < |t.list| then
        var next := t.list[i + 1];
        t.(list := t.list[..i] + [next.(ws := blank + next.ws)] + t.list[i + 2..])
      else t.(list := t.list[..i], tail := blank + t.tail)
  }

  lemma WithoutAttrText(t: Tag, name: string)
    requires IndexOf(t.list, name) < |t.list| && t.list[IndexOf(t.list, name)].ws != ""
    ensures var i := IndexOf(t.list, name);
      var blank := t.list[i].ws[..|t.list[i].ws| - 1];
      WithoutAttr(t, name).Text() == UpTo(t, i) + (blank + From(t, i))
  {
    hide AttrsText, AttrText, IndexOf;
    var i := IndexOf(t.list, name);
    var blank := t.list[i].ws[..|t.list[i].ws| - 1];
    var w := WithoutAttr(t, name);
    var end := if t.empty then "/>" else ">";
    if i + 1 < |t.list| {
      var next := t.list[i + 1];
      var b := next.(ws := blank + next.ws);
      var rest := t.list[i + 2..];
      assert w.list == t.list[..i] + ([b] + rest);
      AttrsTextJoin(t.list[..i], [b] + rest);
      AttrsTextJoin([b], rest);
      AttrsTextOne(b);
      WiderAttr(next, blank);
      assert t.list[i + 1..] == [next] + rest;
      AttrsTextJoin([next], rest);
      AttrsTextOne(next);
      var p, q, r := AttrsText(t.list[..i]), AttrText(next), AttrsText(rest);
      assert "<" + (t.name + ((p + ((blank + q) + r)) + (t.tail + end)))
        == ("<" + (t.name + p)) + (blank + ((q + r) + (t.tail + end)));
    } else {
      assert t.list[i + 1..] == [];
      assert AttrsText([]) == "" by { AttrsTextNone(); }
      var p := AttrsText(t.list[..i]);
      assert "<" + (t.name + (p + ((blank + t.tail) + end))) == ("<" + (t.name + p)) + (blank + ("" + (t.tail + end)));
    }
  }

  lemma AttrsTextNone()
    ensures AttrsText([]) == ""
  {
  }

  lemma WiderAttr(a: Attr, blank: string)
    ensures AttrText(a.(ws := blank + a.ws)) == blank + AttrText(a)
  {
    hide ValueText;
    var b := a.(ws := blank + a.ws);
    assert ValueText(b) == ValueText(a) by { SameValueText(a, b); }
    assert blank + a.ws + (a.name + ValueText(a)) == blank + (a.ws + (a.name + ValueText(a)));
  }

  lemma SameValueText(a: Attr, b: Attr)
    requires b.mid1 == a.mid1 && b.mid2 == a.mid2 && b.quote == a.quote && b.raw == a.raw
    ensures ValueText(b) == ValueText(a)
  {
  }

  /** What x_RemoveAttrib makes of the text of a tag. */
  lemma CutTagIs(t: Tag, x: string, name: string)
    requires t.Valid() && PlainName(name)
    ensures t.Text() != "" && FindCut(t.Text()[1..] + x, name) == FindCut(t.Text()[1..], name)
    ensures var c := FindCut(t.Text()[1..], name);
      && (c.NoCut? <==> IndexOf(t.list, name) == |t.list|)
      && (c.Cut? ==> 0 <= c.at <= c.end && 1 + c.end < |t.Text()|)
    ensures CutTag(t.Text(), name) == WithoutAttr(t, name).Text()
  {
    hide FindCut, AttrsText, AttrText, IndexOf, Tag.Inner, UpTo, From, WithoutAttr;
    FindCutInTag(t, "", name);
    FindCutInTag(t, x, name);
    assert t.Text()[1..] == t.Inner() == t.Inner() + "";
    var i := IndexOf(t.list, name);
    if i < |t.list| {
      var a := t.list[i];
      assert ValidAttr(a);
      TagAround(t, i);
      FromWidth(t, i);
      WithoutAttrText(t, name);
      CutAttr(a, UpTo(t, i), From(t, i));
    } else {
      assert WithoutAttr(t, name) == t by { NothingToRemove(t, name); }
    }
  }

  lemma NothingToRemove(t: Tag, name: string)
    requires IndexOf(t.list, name) == |t.list|
    ensures WithoutAttr(t, name) == t
  {
  }

  lemma FromWidth(t: Tag, i: nat)
    requires i < |t.list|
    ensures |From(t, i)| >= 1
  {
  }

  lemma CutAttr(a: Attr, p: string, q: string)
    requires a.ws != ""
    ensures var s := p + (AttrText(a) + q);
      && |a.ws| <= |AttrText(a)|
      && s[..|p| + |a.ws| - 1] + s[|p| + |AttrText(a)|..] == p + (a.ws[..|a.ws| - 1] + q)
  {
    hide ValueText;
    var rest := a.name + ValueText(a);
    var s := p + (AttrText(a) + q);
    assert s == p + (a.ws + rest + q);
    assert s[..|p| + |a.ws| - 1] == p + a.ws[..|a.ws| - 1];
    assert s[|p| + |AttrText(a)|..] == q;
  }

  lemma WithoutAttrValid(t: Tag, name: string)
    requires t.Valid()
    ensures WithoutAttr(t, name).Valid() && WithoutAttr(t, name).name == t.name && WithoutAttr(t, name).empty == t.empty
  {
    var i := IndexOf(t.list, name);
    if i < |t.list| {
      assert ValidAttr(t.list[i]);
      if i + 1 < |t.list| { assert ValidAttr(t.list[i + 1]); }
    }
  }

  lemma IndexOfAppend(list: seq<Attr>, b: Attr, name: string)
    requires IndexOf(list, name) == |list| && b.name == name
    ensures IndexOf(list + [b], name) == |list|
  {
    IndexOfIs(list + [b], name, |list|);
  }

  /** Removing an attribute that was absent before it was set restores the tag. */
  lemma SetThenRemove(t: Tag, name: string, value: string)
    requires t.Valid() && PlainName(name) && IndexOf(t.list, name) == |t.list|
    ensures |t.Text()| >= 2
    ensures var s := SetTag(t.Text(), t.empty, name, value); s != "" && CutTag(s, name) == t.Text()
  {
    hide SetTag, CutTag, ToDoc, AttrsText, AttrText, Tag.Text, IndexOf, FindCut;
    SetTagIs(t, name, value);
    WithAttrValid(t, name, value);
    var b := Attr(t.tail + " ", name, "", "", '\"', ToDoc(value, true));
    var w := WithAttr(t, name, value);
    assert w == Tag(t.name, t.list + [b], "", t.empty);
    IndexOfAppend(t.list, b, name);
    CutTagIs(w, "", name);
    assert b.ws[..|b.ws| - 1] + "" == t.tail;
    assert w.list[..|t.list|] == t.list;
    assert WithoutAttr(w, name) == t;
  }
}
