/** How the parser of CMarkupSTL reads the pieces of a document: what it skips before a
    tag, a start tag, an end tag; and why such a piece reads the same whatever text
    follows it. */
module MarkupGrammar {
  import opened MarkupText

  datatype Fault =
    | ElementTagNotFound | TagStartsWithQuote | InvalidNode | EndOfTagNotFound | AbruptEnd
    | EndTagNotFound(name: string) | ExpectingEndTag(name: string)
    | EndTagMismatch(name: string) | EndTagNotCompleted(name: string)

  /** One round of the loop of x_ParseElem that looks for a start tag.  Offsets are from
      the start of the round: of the '<' for `Open` and `Close`, of the next round for
      `Again`. */
  datatype Step = Again(next: nat) | Open(at: nat) | Close(at: nat) | Fail(at: nat, fault: Fault) {
    function Shift(n: nat): Step {
      match this
      case Again(next) => Again(next + n)
      case Open(at) => Open(at + n)
      case Close(at) => Close(at + n)
      case Fail(at, fault) => Fail(at + n, fault)
    }
  }

  function HeadStep(s: string): (r: Step)
    ensures r.Again? ==> r.next <= |s|
    ensures !r.Again? ==> r.at <= |s|
    ensures r.Open? || r.Close? ==> r.at < |s| && s[r.at] == '<'
  {
    var j := FirstOf(s, {'<'});
    if j == |s| then Fail(j, ElementTagNotFound) else TagStep(s[j..]).Shift(j)
  }

  /** What the '<' that starts `s` begins. */
  function TagStep(s: string): (r: Step)
    requires s != "" && s[0] == '<'
    ensures r.Again? ==> r.next <= |s|
    ensures !r.Again? ==> r.at == 0
  {
    var t := FindToken(s[1..]);
    if !t.found then Fail(0, AbruptEnd)
    else if t.isString then Fail(0, TagStartsWithQuote)
    else
      var c := s[1..][t.l];
      if c == '?' || c == '!' then
        match ParseNode(s)
        case None => Fail(0, InvalidNode)
        case Some(n) => Again(n.next)
      else if c == '/' then Close(0)
      else Open(0)
  }

  /** Where the loop ends up.  `Stuck`: a round that starts where the one before it
      started, so that the loop never ends. */
  datatype ScanResult = Opens(at: nat) | Closes(at: nat) | Fails(at: nat, fault: Fault) | Stuck {
    function Shift(n: nat): ScanResult {
      match this
      case Opens(at) => Opens(at + n)
      case Closes(at) => Closes(at + n)
      case Fails(at, fault) => Fails(at + n, fault)
      case Stuck => Stuck
    }
  }

  function Scan(s: string): (h: ScanResult)
    ensures !h.Stuck? ==> h.at <= |s|
    ensures h.Opens? || h.Closes? ==> h.at < |s|
    decreases |s|
  {
    match HeadStep(s)
    case Fail(at, fault) => Fails(at, fault)
    case Open(at) => Opens(at)
    case Close(at) => Closes(at)
    case Again(next) =>
      if next == 0 then Stuck
      else
        Scan(s[next..]).Shift(next)
  }

  /** Text that the search for a tag passes over: characters other than '<', and
      complete comments, instructions, CDATA sections and document types. */
  predicate ValidGap(g: string)
    decreases |g|
  {
    var j := FirstOf(g, {'<'});
    j == |g| ||
    match ParseNode(g[j..])
    case None => false
    case Some(n) => n.kind != ElementNode && ValidGap(g[j + n.next..])
  }

  /** A start tag from its '<' to its '>': the first '>' after the name ends it. */
  predicate ValidStart(t: string) {
    t != "" && t[0] == '<' &&
    var k := FindToken(t[1..]);
    k.found && !k.isString && t[1..][k.l] !in {'?', '!', '/'} &&
    1 + k.next < |t| && FirstOf(t[1 + k.next..], {'>'}) == |t| - 2 - k.next
  }

  /** The token after the '<'. */
  function TagName(t: string): string {
    var k := if t == "" then FindToken("") else FindToken(t[1..]);
    if k.found && !k.isString then t[1..][k.l..k.next] else ""
  }

  predicate EmptyTag(t: string) {
    |t| >= 2 && t[|t| - 2] == '/'
  }

  datatype TagEnd = TagEnd(at: nat) | TagFault(fault: Fault)

  /** The loop of x_ParseElem over the tokens of an end tag; `count` tokens were read. */
  function EndTagScan(s: string, count: nat, name: string): (e: TagEnd)
    ensures e.TagEnd? ==> e.at < |s| && s[e.at] == '>'
    decreases |s|
  {
    var t := FindToken(s);
    if !t.found then TagFault(EndTagNotCompleted(name))
    else if t.isString then EndTagRest(s, t, count + 1, name)
    else if count == 0 && s[t.l] != '/' then TagFault(ExpectingEndTag(name))
    else if count == 1 && !Match(s[t.l..t.next], name) then TagFault(EndTagMismatch(name))
    else if s[t.l] == '>' then TagEnd(t.l)
    else EndTagRest(s, t, count + 1, name)
  }

  function EndTagRest(s: string, t: Token, count: nat, name: string): (e: TagEnd)
    requires t == FindToken(s) && t.found
    ensures e.TagEnd? ==> e.at < |s| && s[e.at] == '>'
    decreases |s|, 0
  {
    match EndTagScan(s[t.next..], count, name)
    case TagEnd(at) => TagEnd(t.next + at)
    case TagFault(fault) => TagFault(fault)
  }

  /** An end tag from its '<' to its '>'. */
  predicate ValidClose(c: string, name: string) {
    |c| >= 2 && c[0] == '<' && TagStep(c) == Close(0) && EndTagScan(c[1..], 0, name) == TagEnd(|c| - 2)
  }

  // ---- Longer text: what was read stays as it was read

  lemma FirstOfIs(s: string, stops: set<char>, n: nat)
    requires n <= |s| && (forall k :: 0 <= k < n ==> s[k] !in stops) && (n < |s| ==> s[n] in stops)
    ensures FirstOf(s, stops) == n
  {
  }

  lemma FirstNotOfIs(s: string, cs: set<char>, n: nat)
    requires n <= |s| && (forall k :: 0 <= k < n ==> s[k] in cs) && (n < |s| ==> s[n] !in cs)
    ensures FirstNotOf(s, cs) == n
  {
  }

  lemma FirstOfExtends(s: string, x: string, stops: set<char>)
    requires FirstOf(s, stops) < |s|
    ensures FirstOf(s + x, stops) == FirstOf(s, stops)
  {
    FirstOfIs(s + x, stops, FirstOf(s, stops));
  }

  lemma FirstOfAppend(s: string, x: string, stops: set<char>)
    requires FirstOf(s, stops) == |s|
    ensures FirstOf(s + x, stops) == |s| + FirstOf(x, stops)
  {
    var n := FirstOf(x, stops);
    assert forall k :: |s| <= k < |s| + n ==> (s + x)[k] == x[k - |s|];
    FirstOfIs(s + x, stops, |s| + n);
  }

  lemma FindStrIs(s: string, pat: string, n: nat)
    requires OccursAt(s, pat, n) && forall k: nat :: k < n ==> !OccursAt(s, pat, k)
    ensures FindStr(s, pat) == n
  {
  }

  lemma OccursExtends(s: string, x: string, pat: string, k: nat)
    requires k + |pat| <= |s|
    ensures OccursAt(s + x, pat, k) <==> OccursAt(s, pat, k)
  {
    assert (s + x)[k..k + |pat|] == s[k..k + |pat|];
  }

  lemma FindStrExtends(s: string, x: string, pat: string)
    requires FindStr(s, pat) >= 0
    ensures FindStr(s + x, pat) == FindStr(s, pat)
  {
    var n := FindStr(s, pat);
    assert OccursAt(s, pat, n);
    forall k: nat | k < n
      ensures !OccursAt(s + x, pat, k)
    {
      OccursExtends(s, x, pat, k);
    }
    OccursExtends(s, x, pat, n);
    FindStrIs(s + x, pat, n);
  }

  /** A token reads the same when more text follows, unless it was cut off by the end. */
  lemma FindTokenExtends(s: string, x: string)
    requires var t := FindToken(s); t.found && (t.next < |s| || (!t.isString && s[t.l] in SPECIALS))
    ensures FindToken(s + x) == FindToken(s)
  {
    hide FirstOf, FirstNotOf;
    var k := FirstNotOf(s, SPACES);
    FirstNotOfIs(s + x, SPACES, k);
    assert (s + x)[k] == s[k];
    if s[k] == '\"' || s[k] == '\'' {
      assert (s + x)[k + 1..] == s[k + 1..] + x;
      FirstOfExtends(s[k + 1..], x, {s[k]});
    } else {
      assert (s + x)[k..] == s[k..] + x;
      var n := FirstOf(s[k..], SPECIALS);
      assert n < |s[k..]| ==> s[k..][n] == s[k + n];
      FirstOfExtends(s[k..], x, SPECIALS);
    }
  }

  lemma DocTypeCases(u: string, brackets: int)
    ensures var t, e := FindToken(u), DocTypeEnd(u, brackets);
      if !t.found then e == None
      else if !t.isString && brackets == 0 && u[t.l] == '>' then e == Some(t.next)
      else
        var b := if t.isString then brackets
                 else if u[t.l] == '[' then brackets + 1
                 else if u[t.l] == ']' then brackets - 1 else brackets;
        var r := DocTypeEnd(u[t.next..], b);
        e == (if r.Some? then Some(t.next + r.value) else None)
  {
    hide FindToken;
  }

  lemma {:induction false} DocTypeEndExtends(s: string, x: string, brackets: int)
    requires DocTypeEnd(s, brackets).Some?
    ensures DocTypeEnd(s + x, brackets) == DocTypeEnd(s, brackets)
    decreases |s|
  {
    hide FindToken, DocTypeEnd;
    var t := FindToken(s);
    DocTypeCases(s, brackets);
    DocTypeCases(s + x, brackets);
    FindTokenExtends(s, x);
    assert !t.isString ==> (s + x)[t.l] == s[t.l];
    if !(!t.isString && brackets == 0 && s[t.l] == '>') {
      assert (s + x)[t.next..] == s[t.next..] + x;
      var b := if t.isString then brackets
               else if s[t.l] == '[' then brackets + 1
               else if s[t.l] == ']' then brackets - 1 else brackets;
      DocTypeEndExtends(s[t.next..], x, b);
    }
  }

  lemma ParseNodeExtends(s: string, x: string)
    requires s != "" && s[0] == '<' && ParseNode(s).Some?
    ensures ParseNode(s + x) == ParseNode(s)
  {
    if s[1] == '?' {
      FindStrExtends(s, x, "?>");
    } else if s[1] == '!' {
      if s[2] == '[' {
        FindStrExtends(s, x, "]]>");
      } else if s[2] == '-' {
        FindStrExtends(s, x, "-->");
      } else {
        DocTypeEndExtends(s, x, 0);
      }
    }
  }

  lemma NodeStarts(s: string)
    requires s != "" && s[0] == '<' && ParseNode(s).Some? && ParseNode(s).value.kind != ElementNode
    ensures |s| >= 3 && s[1] in {'?', '!'} && 0 < ParseNode(s).value.next
  {
    hide FindToken, FirstOf, FirstNotOf, FindStr;
  }

  /** The round that passes over a node. */
  lemma TagStepPassesNode(m: string, x: string)
    requires m != "" && m[0] == '<' && ParseNode(m).Some? && ParseNode(m).value.kind != ElementNode
    ensures TagStep(m + x) == Again(ParseNode(m).value.next)
  {
    hide FindToken, FirstOf, FirstNotOf, ParseNode;
    NodeStarts(m);
    ParseNodeExtends(m, x);
    assert (m + x)[1..][0] == m[1];
    FindTokenSpecial((m + x)[1..]);
  }

  lemma FindTokenSpecial(y: string)
    requires y != "" && y[0] in SPECIALS && y[0] !in SPACES
    ensures FindToken(y) == Token(true, false, 0, 0, 1)
  {
    FirstNotOfIs(y, SPACES, 0);
    FirstOfIs(y, SPECIALS, 0);
    assert y[0..] == y;
  }

  lemma SpecialWidth(s: string)
    ensures var t := FindToken(s); t.found && !t.isString && s[t.l] in SPECIALS ==> t.next == t.l + 1
  {
    hide FirstNotOf;
  }

  /** Characters other than '<' in front of a '<' move the round. */
  lemma HeadStepAfterPlain(s: string, j: nat, x: string)
    requires j <= |s| && s[j..] == x && FirstOf(s, {'<'}) == j
    requires x != "" && x[0] == '<'
    ensures HeadStep(s) == TagStep(x).Shift(j) && HeadStep(x) == TagStep(x)
  {
    hide FirstOf, TagStep;
    FirstOfIs(x, {'<'}, 0);
    assert x[0..] == x;
  }

  /** The scan stops at a '<' that begins a start tag or an end tag. */
  lemma {:induction false} ScanStops(s: string)
    ensures var h := Scan(s);
      && (h.Opens? || h.Closes? ==> s[h.at] == '<' && s[h.at..][0] == '<')
      && (h.Opens? ==> TagStep(s[h.at..]) == Open(0))
      && (h.Closes? ==> TagStep(s[h.at..]) == Close(0))
    decreases |s|
  {
    hide TagStep, FirstOf;
    var r := HeadStep(s);
    if r.Again? && r.next > 0 {
      ScanStops(s[r.next..]);
      var h := Scan(s[r.next..]);
      if h.Opens? || h.Closes? {
        assert s[r.next..][h.at..] == s[r.next + h.at..];
      }
    }
  }

  lemma ScanAgain(s: string, n: nat)
    requires HeadStep(s) == Again(n) && n > 0
    ensures Scan(s) == Scan(s[n..]).Shift(n)
  {
    hide HeadStep;
  }

  lemma ScanMoves(s: string, j: nat, x: string)
    requires j <= |s| && s[j..] == x && HeadStep(x) != Again(0) && HeadStep(s) == HeadStep(x).Shift(j)
    ensures Scan(s) == Scan(x).Shift(j)
  {
    hide HeadStep;
    if HeadStep(x).Again? {
      var n := HeadStep(x).next;
      assert s[j + n..] == x[n..];
    }
  }

  lemma GapStartsWithNode(g: string)
    requires ValidGap(g) && FirstOf(g, {'<'}) < |g|
    ensures var m := g[FirstOf(g, {'<'})..];
      && ParseNode(m).Some? && ParseNode(m).value.kind != ElementNode && 0 < ParseNode(m).value.next
      && ValidGap(m[ParseNode(m).value.next..])
  {
    hide FirstOf, ParseNode;
    var j := FirstOf(g, {'<'});
    NodeStarts(g[j..]);
    assert g[j + ParseNode(g[j..]).value.next..] == g[j..][ParseNode(g[j..]).value.next..];
  }

  /** The scan passes over a gap and goes on after it. */
  lemma {:induction false} ScanPassesGap(g: string, x: string)
    requires ValidGap(g) && x != "" && x[0] == '<' && HeadStep(x) != Again(0)
    ensures Scan(g + x) == Scan(x).Shift(|g|)
    decreases |g|
  {
    hide HeadStep, FirstOf, ParseNode, ValidGap, Scan, TagStep;
    var j := FirstOf(g, {'<'});
    if j == |g| {
      var s := g + x;
      FirstOfAppend(g, x, {'<'});
      FirstOfIs(x, {'<'}, 0);
      assert s[j..] == x;
      HeadStepAfterPlain(s, j, x);
      ScanMoves(s, j, x);
    } else {
      var s, m := g + x, g[j..];
      GapStartsWithNode(g);
      FirstOfExtends(g, x, {'<'});
      TagStepPassesNode(m, x);
      assert s[j..] == m + x;
      HeadStepAfterPlain(s, j, m + x);
      var n := ParseNode(m).value.next;
      assert s[j + n..] == m[n..] + x;
      ScanAgain(s, j + n);
      ScanPassesGap(m[n..], x);
    }
  }

  // ---- Tags in front of more text

  lemma {:induction false} EndTagExtends(s: string, x: string, count: nat, name: string)
    requires EndTagScan(s, count, name).TagEnd?
    ensures EndTagScan(s + x, count, name) == EndTagScan(s, count, name)
    decreases |s|
  {
    hide FindToken, FirstOf, FirstNotOf, Match;
    var t := FindToken(s);
    FindTokenExtends(s, x);
    if t.isString || s[t.l] != '>' {
      assert (s + x)[t.next..] == s[t.next..] + x;
      EndTagExtends(s[t.next..], x, count + 1, name);
    }
    if !t.isString {
      assert (s + x)[t.l..t.next] == s[t.l..t.next];
    }
  }

  lemma CloseExtends(c: string, x: string, name: string)
    requires ValidClose(c, name)
    ensures EndTagScan((c + x)[1..], 0, name) == TagEnd(|c| - 2)
  {
    hide EndTagScan, TagStep;
    assert (c + x)[1..] == c[1..] + x;
    EndTagExtends(c[1..], x, 0, name);
  }

  /** An end tag is what the search for a child stops at. */
  lemma CloseStopsScan(c: string, x: string, name: string)
    requires ValidClose(c, name)
    ensures HeadStep(c + x) == Close(0) && Scan(c + x) == Closes(0)
  {
    hide FindToken, FirstOf, FirstNotOf, EndTagScan, ParseNode;
    var s := c + x;
    assert s[1..] == c[1..] + x;
    FindTokenExtends(c[1..], x);
    var t := FindToken(c[1..]);
    assert s[1..][t.l] == c[1..][t.l];
    HeadStepAfterPlain(s, 0, s) by { FirstOfIs(s, {'<'}, 0); }
  }

  /** A start tag is found, named and ended the same whatever follows it. */
  lemma StartExtends(t: string, x: string)
    requires ValidStart(t)
    ensures var k := FindToken(t[1..]);
      && TagStep(t + x) == Open(0)
      && FindToken((t + x)[1..]) == k
      && 1 + k.next < |t|
      && FirstOf((t + x)[1 + k.next..], {'>'}) == |t| - 2 - k.next
  {
    hide FindToken, FirstOf, FirstNotOf;
    var k := FindToken(t[1..]);
    assert (t + x)[1..] == t[1..] + x;
    FindTokenExtends(t[1..], x);
    assert (t + x)[1 + k.next..] == t[1 + k.next..] + x;
    FirstOfExtends(t[1 + k.next..], x, {'>'});
    assert (t + x)[1..][k.l] == t[1..][k.l];
  }
}
