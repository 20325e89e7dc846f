/** The scanning primitives of CMarkupSTL: character search, tokens and non-element
    nodes.  Every function works on the text from the current position on, so a result
    is an offset into that suffix; a C string ends where the sequence ends. */
module MarkupText {

  datatype Option<T> = None | Some(value: T)

  const SPACES := {' ', '\t', '\n', '\r'}
  const SPECIALS := SPACES + {'<', '>', '=', '\\', '/', '?', '!'}

  /** The number of leading characters of `s` that are not in `stops`. */
  function FirstOf(s: string, stops: set<char>): (n: nat)
    ensures n <= |s|
    ensures forall k :: 0 <= k < n ==> s[k] !in stops
    ensures n < |s| ==> s[n] in stops
  {
    if s == [] || s[0] in stops then 0
    else
      var n := FirstOf(s[1..], stops);
      assert forall k :: 0 < k <= n ==> s[k] == s[1..][k - 1];
      n + 1
  }

  /** The number of leading characters of `s` that are in `cs`. */
  function FirstNotOf(s: string, cs: set<char>): (n: nat)
    ensures n <= |s|
    ensures forall k :: 0 <= k < n ==> s[k] in cs
    ensures n < |s| ==> s[n] !in cs
  {
    if s == [] || s[0] !in cs then 0
    else
      var n := FirstNotOf(s[1..], cs);
      assert forall k :: 0 < k <= n ==> s[k] == s[1..][k - 1];
      n + 1
  }

  /** `pat` occurs in `s` at `k`. */
  predicate OccursAt(s: string, pat: string, k: nat) {
    k + |pat| <= |s| && s[k..k + |pat|] == pat
  }

  /** strstr: the first occurrence of `pat`, or -1. */
  function FindStr(s: string, pat: string): (n: int)
    ensures -1 <= n
    ensures n >= 0 ==> OccursAt(s, pat, n)
    ensures forall k: nat :: (n == -1 || k < n) ==> !OccursAt(s, pat, k)
  {
    if |s| < |pat| then -1
    else if s[..|pat|] == pat then
      assert s[0..0 + |pat|] == s[..|pat|];
      0
    else if s == [] then -1
    else
      var n := FindStr(s[1..], pat);
      assert forall k: nat :: k > 0 ==> (OccursAt(s, pat, k) <==> OccursAt(s[1..], pat, k - 1));
      assert !OccursAt(s, pat, 0);
      if n < 0 then -1 else n + 1
  }

  /** TokenPos: `l` and `r` are the first and last character of the token (without its
      quotes when it is a string) and `next` is where scanning goes on. */
  datatype Token = Token(found: bool, isString: bool, l: nat, r: int, next: nat) {
    function Shift(n: nat): Token { Token(found, isString, l + n, r + n, next + n) }
  }

  /** x_FindToken. */
  function FindToken(s: string): (t: Token)
    ensures t.next <= |s| && t.l <= |s|
    ensures t.found ==> t.next > 0
    ensures t.found && !t.isString ==> t.l <= t.r < t.next <= |s| && t.r == t.next - 1
  {
    var k := FirstNotOf(s, SPACES);
    if k == |s| then Token(false, false, k, k, k)
    else if s[k] == '\"' || s[k] == '\'' then
      var e := k + 1 + FirstOf(s[k + 1..], {s[k]});
      Token(true, true, k + 1, e - 1, if e < |s| then e + 1 else e)
    else
      var n := FirstOf(s[k..], SPECIALS);
      var e := if n == 0 then k + 1 else k + n;
      Token(true, false, k, e - 1, e)
  }

  /** TokenPos::Match: the token `w` against `name`. */
  predicate Match(w: string, name: string) {
    |w| <= |name| && name[..|w|] == w && (|w| == |name| || name[|w|] in {' ', '=', '/', '['})
  }

  datatype NodeKind = ElementNode | TextNode | WhitespaceNode | CDataNode | InstructionNode | CommentNode | DocTypeNode

  /** The loop of x_ParseNode that looks for the '>' closing a document type. */
  function DocTypeEnd(s: string, brackets: int): (e: Option<nat>)
    ensures e.Some? ==> 0 < e.value <= |s|
    decreases |s|
  {
    var t := FindToken(s);
    if !t.found then None
    else if !t.isString && brackets == 0 && s[t.l] == '>' then Some(t.next)
    else
      var b := if t.isString then brackets
               else if s[t.l] == '[' then brackets + 1
               else if s[t.l] == ']' then brackets - 1 else brackets;
      match DocTypeEnd(s[t.next..], b)
      case None => None
      case Some(e) => Some(t.next + e)
  }

  datatype Node = Node(kind: NodeKind, next: nat)

  /** x_ParseNode: the node that starts `s` and the offset after it. */
  function ParseNode(s: string): (n: Option<Node>)
    ensures n.Some? ==> n.value.next <= |s|
  {
    if s == [] then None
    else if s[0] != '<' then
      var t := FindToken(s);
      if !t.found then Some(Node(WhitespaceNode, t.next))
      else if t.l < |s| && s[t.l] == '<' then Some(Node(WhitespaceNode, t.l))
      else Some(Node(TextNode, t.next + FirstOf(s[t.next..], {'<'})))
    else if |s| < 3 then None
    else if s[1] == '?' then Terminated(s, InstructionNode, "?>")
    else if s[1] == '!' then
      if s[2] == '[' then Terminated(s, CDataNode, "]]>")
      else if s[2] == '-' then Terminated(s, CommentNode, "-->")
      else match DocTypeEnd(s, 0)
        case None => None
        case Some(e) => Some(Node(DocTypeNode, e))
    else if s[1] == '/' then None
    else Some(Node(ElementNode, 0))
  }

  function Terminated(s: string, kind: NodeKind, end: string): (n: Option<Node>)
    ensures n.Some? ==> n.value.next <= |s| && n.value.next >= |end|
  {
    var k := FindStr(s, end);
    if k < 0 then None else Some(Node(kind, k + |end|))
  }

  lemma SliceOfRest(s: string, from: nat, i: nat, j: nat)
    requires i <= j && from + j <= |s|
    ensures s[from..][i..j] == s[from + i..from + j] && s[from..][j..] == s[from + j..] && s[from..][..j] == s[from..from + j]
  {
  }

  lemma SliceOfSlice(s: string, from: nat, to: nat, i: nat, j: nat)
    requires from <= to <= |s| && i <= j <= to - from
    ensures s[from..to][i..j] == s[from + i..from + j]
  {
    var t, u := s[from..to][i..j], s[from + i..from + j];
    assert |t| == |u|;
    forall k | 0 <= k < |t|
      ensures t[k] == u[k]
    {
      assert t[k] == s[from..to][i + k] == s[from + i + k];
    }
  }
}
