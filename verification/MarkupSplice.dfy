/** What a replacement in the document text does to the document read as a tree. */
module MarkupSplice {
  import opened MarkupText
  import opened MarkupGrammar
  import opened MarkupTree
  import opened MarkupAdjust
  import opened MarkupEdits

  /** m_strDoc.replace( at, n, ins ). */
  function Splice(s: string, at: nat, n: nat, ins: string): string
    requires at + n <= |s|
  {
    s[..at] + ins + s[at + n..]
  }

  lemma SpliceMid(p: string, s: string, q: string, at: nat, n: nat, ins: string)
    requires at + n <= |s|
    ensures Splice(p + s + q, |p| + at, n, ins) == p + Splice(s, at, n, ins) + q
  {
    var d := p + s + q;
    assert d[..|p| + at] == p + s[..at];
    assert d[|p| + at + n..] == s[at + n..] + q;
    assert p + Splice(s, at, n, ins) + q == (p + s[..at]) + ins + (s[at + n..] + q);
  }

  /** The text of `x` behind its start tag. */
  function Tail(x: Forest): string
    requires !x.End?
  {
    match x
    case EmptyElem(_, _, _, rest) => Text(rest)
    case FullElem(_, _, _, kids, close, rest) => Text(kids) + (close + Text(rest))
  }

  lemma ElemText(c: Ctx, x: Forest)
    requires !x.End?
    ensures Text(Plug(c, x)) == (Pre(c) + x.gap) + x.start + (Tail(x) + Post(c))
    ensures Text(x) == x.gap + x.start + Tail(x)
  {
    hide *;
    PlugText(c, x);
    HeadAndTail(x);
    Regroup(Pre(c), x.gap, x.start, Tail(x), Post(c));
  }

  lemma HeadAndTail(x: Forest)
    requires !x.End?
    ensures Text(x) == x.gap + x.start + Tail(x)
  {
    if x.FullElem? {
      hide Text;
      FullWhole(x);
      assert x.gap + x.start + Text(x.kids) + (x.close + Text(x.rest)) == x.gap + x.start + (Text(x.kids) + (x.close + Text(x.rest)));
    }
  }

  lemma FullWhole(x: Forest)
    requires x.FullElem?
    ensures Text(x) == x.gap + x.start + Text(x.kids) + (x.close + Text(x.rest))
  {
  }

  lemma Regroup(p: string, gap: string, start: string, tail: string, q: string)
    ensures p + (gap + start + tail) + q == (p + gap) + start + (tail + q)
  {
  }

  /** The document from a start tag on. */
  lemma StartText(c: Ctx, x: Forest, doc: string, at: nat)
    requires !x.End? && doc == Text(Plug(c, x)) && at == |Pre(c)| + |x.gap|
    ensures at + |x.start| <= |doc| && doc[at..] == x.start + (Tail(x) + Post(c)) && doc[at..at + |x.start|] == x.start
    ensures x.start != "" ==> doc[at + 1..] == x.start[1..] + (Tail(x) + Post(c))
  {
    hide Plug, Pre, Post, Tail;
    ElemText(c, x);
    var p := Pre(c) + x.gap;
    assert |p| == at;
    assert doc[at..] == x.start + (Tail(x) + Post(c));
    if x.start != "" {
      assert doc[at + 1..] == doc[at..][1..];
    }
  }

  /** A replacement inside a start tag. */
  lemma SpliceStart(c: Ctx, x: Forest, doc: string, i: nat, n: nat, ins: string)
    requires !x.End? && doc == Text(Plug(c, x)) && i + n <= |x.start|
    ensures |Pre(c)| + |x.gap| + i + n <= |doc|
    ensures Text(Plug(c, WithStart(x, Splice(x.start, i, n, ins)))) == Splice(doc, |Pre(c)| + |x.gap| + i, n, ins)
  {
    hide Plug, Pre, Post;
    var y := WithStart(x, Splice(x.start, i, n, ins));
    ElemText(c, x);
    ElemText(c, y);
    SpliceMid(Pre(c) + x.gap, x.start, Tail(x) + Post(c), i, n, ins);
  }

  /** A replacement of the text between the tags of an element without children. */
  lemma SpliceBody(c: Ctx, x: Forest, doc: string, data: string)
    requires x.FullElem? && x.kids.End? && doc == Text(Plug(c, x))
    ensures var at := |Pre(c)| + |x.gap| + |x.start|;
      && at + |x.kids.gap| <= |doc|
      && Text(Plug(c, WithBody(x, x.start, data, x.close))) == Splice(doc, at, |x.kids.gap|, data)
  {
    hide Plug, Pre, Post, Text, Tail, Splice;
    var y := WithBody(x, x.start, data, x.close);
    ElemText(c, x);
    ElemText(c, y);
    BodyTail(x);
    BodyTail(y);
    var p, r := Pre(c) + x.gap, x.close + Text(x.rest);
    AroundBody(p, x.start, x.kids.gap, r, Post(c));
    AroundBody(p, x.start, data, r, Post(c));
    SpliceMid(p + x.start, x.kids.gap, r + Post(c), 0, |x.kids.gap|, data);
    SpliceAll(x.kids.gap, data);
  }

  lemma BodyTail(x: Forest)
    requires x.FullElem? && x.kids.End?
    ensures Tail(x) == x.kids.gap + (x.close + Text(x.rest))
  {
  }

  lemma AroundBody(p: string, start: string, body: string, r: string, q: string)
    ensures p + start + (body + r + q) == (p + start) + body + (r + q)
  {
  }

  lemma SpliceAll(s: string, ins: string)
    ensures Splice(s, 0, |s|, ins) == ins
  {
  }

  /** The start tag of an empty element without its '/'. */
  function OpenTag(start: string): string
    requires |start| >= 2
  {
    start[..|start| - 2] + ">"
  }

  function CloseTag(name: string): string { "</" + name + ">" }

  /** The '/' of an empty element replaced by ">...</NAME": its new body and end tag. */
  lemma SpliceEmpty(c: Ctx, x: Forest, doc: string, inner: Forest, name: string)
    requires x.EmptyElem? && TagText(x.start) && EmptyTag(x.start) && doc == Text(Plug(c, x))
    ensures var at := |Pre(c)| + |x.gap| + |x.start| - 2;
      && at + 1 <= |doc|
      && Text(Plug(c, Split(x, OpenTag(x.start), inner, CloseTag(name)))) == Splice(doc, at, 1, ">" + Text(inner) + "</" + name)
  {
    hide Plug, Pre, Post, Text, Tail;
    var y := Split(x, OpenTag(x.start), inner, CloseTag(name));
    var n := |x.start| - 2;
    var ins := ">" + Text(inner) + "</" + name;
    ElemText(c, x);
    ElemText(c, y);
    SpliceMid(Pre(c) + x.gap, x.start, Tail(x) + Post(c), n, 1, ins);
    SplitTag(x, y, inner, name);
    Joined(Pre(c) + x.gap, y.start + Text(inner) + CloseTag(name), Tail(x), Post(c), y.start, Tail(y));
  }

  lemma SplitTag(x: Forest, y: Forest, inner: Forest, name: string)
    requires x.EmptyElem? && TagText(x.start) && y == Split(x, OpenTag(x.start), inner, CloseTag(name))
    ensures Splice(x.start, |x.start| - 2, 1, ">" + Text(inner) + "</" + name) == y.start + Text(inner) + CloseTag(name)
    ensures y.start + Tail(y) == y.start + Text(inner) + CloseTag(name) + Tail(x)
  {
    hide Text;
    var n := |x.start| - 2;
    assert x.start[n + 1..] == ">";
    assert x.start[..n] + (">" + Text(inner) + "</" + name) + ">" == x.start[..n] + ">" + Text(inner) + ("</" + name + ">");
    assert Text(inner) + (CloseTag(name) + Text(x.rest)) == Text(inner) + CloseTag(name) + Text(x.rest);
  }

  lemma Joined(p: string, e: string, t: string, q: string, s: string, u: string)
    requires s + u == e + t
    ensures p + s + (u + q) == p + e + (t + q)
  {
    assert p + s + (u + q) == p + (s + u) + q;
    assert p + e + (t + q) == p + (e + t) + q;
  }

  /** Text put in front of the siblings `f`, inside the gap before them. */
  lemma SpliceInsert(c: Ctx, f: Forest, x: Forest, doc: string, k: nat, tag: string, sep: string)
    requires doc == Text(Plug(c, f)) && k <= |f.gap| && !x.End?
    requires x.gap == f.gap[..k] && x.rest == WithGap(f, sep + f.gap[k..]) && Text(x) == x.gap + tag + Text(x.rest)
    ensures |Pre(c)| + k <= |doc| && Text(Plug(c, x)) == Splice(doc, |Pre(c)| + k, 0, tag + sep)
  {
    hide Plug, Pre, Post, Text;
    PlugText(c, f);
    PlugText(c, x);
    RegapText(f, sep + f.gap[k..]);
    var t := Text(f)[|f.gap|..];
    assert Text(f) == f.gap + t;
    SpliceMid(Pre(c), Text(f), Post(c), k, 0, tag + sep);
    assert Splice(Text(f), k, 0, tag + sep) == Text(x) by {
      assert Text(f)[..k] == f.gap[..k];
      assert Text(f)[k..] == f.gap[k..] + t;
      assert Text(x) == f.gap[..k] + tag + (sep + f.gap[k..] + t);
      assert f.gap[..k] + tag + (sep + f.gap[k..] + t) == f.gap[..k] + (tag + sep) + (f.gap[k..] + t);
    }
  }

  /** An element and the first `k` characters behind it taken out. */
  lemma SpliceRemove(c: Ctx, x: Forest, doc: string, k: nat)
    requires !x.End? && doc == Text(Plug(c, x)) && k <= |x.rest.gap|
    ensures var n := |Text(x)| - |x.gap| - |Text(x.rest)| + k;
      && 0 <= n && |Pre(c)| + |x.gap| + n <= |doc|
      && Text(Plug(c, Without(x, k))) == Splice(doc, |Pre(c)| + |x.gap|, n, "")
  {
    hide Plug, Pre, Post, Text, Splice;
    PlugText(c, x);
    PlugText(c, Without(x, k));
    RegapText(x.rest, x.gap + x.rest.gap[k..]);
    ElemParts(x);
    var s, r := Text(x), Text(x.rest);
    var e, t := s[|x.gap|..|s| - |r|], r[|x.rest.gap|..];
    assert s == x.gap + e + (x.rest.gap + t) && |s| == |x.gap| + |e| + |r|;
    CutOut(x.gap, e, x.rest.gap, k, t);
    SpliceMid(Pre(c), s, Post(c), |x.gap|, |e| + k, "");
  }

  lemma CutOut(gap: string, e: string, g: string, k: nat, t: string)
    requires k <= |g|
    ensures Splice(gap + e + (g + t), |gap|, |e| + k, "") == gap + g[k..] + t
  {
    var s := gap + e + (g + t);
    assert s[..|gap|] == gap;
    assert s[|gap| + |e| + k..] == g[k..] + t;
  }

  lemma ElemParts(x: Forest)
    requires !x.End?
    ensures |x.gap| + |Text(x.rest)| <= |Text(x)|
    ensures Text(x) == x.gap + Text(x)[|x.gap|..|Text(x)| - |Text(x.rest)|] + Text(x.rest)
  {
    match x
    case EmptyElem(_, gap, start, rest) =>
      assert Text(x) == gap + start + Text(rest);
    case FullElem(_, gap, start, kids, close, rest) =>
      assert Text(x) == gap + (start + Text(kids) + close) + Text(rest);
  }
}
