/** The scanning loops of CMarkupSTL over absolute offsets, proved against the functions
    of MarkupText. */
module MarkupScan {
  import opened MarkupText
  import opened MarkupGrammar

  /** x_FindChar. */
  method FindChar(szDoc: string, start: nat, c: char) returns (found: bool, nChar: nat)
    requires start <= |szDoc|
    ensures nChar == start + FirstOf(szDoc[start..], {c}) && nChar <= |szDoc|
    ensures found <==> nChar < |szDoc|
    ensures found ==> szDoc[nChar] == c
  {
    nChar := start;
    while nChar < |szDoc| && szDoc[nChar] != c
      invariant start <= nChar <= |szDoc|
      invariant forall k :: start <= k < nChar ==> szDoc[k] != c
    {
      nChar := nChar + 1;
    }
    FirstOfIs(szDoc[start..], {c}, nChar - start);
    found := nChar < |szDoc|;
  }

  /** The loop of x_FindToken that passes over white space. */
  method SkipSpaces(szDoc: string, start: nat) returns (nChar: nat)
    requires start <= |szDoc|
    ensures nChar == start + FirstNotOf(szDoc[start..], SPACES) && nChar <= |szDoc|
  {
    nChar := start;
    while nChar < |szDoc| && szDoc[nChar] in SPACES
      invariant start <= nChar <= |szDoc|
      invariant forall k :: start <= k < nChar ==> szDoc[k] in SPACES
    {
      nChar := nChar + 1;
    }
    FirstNotOfIs(szDoc[start..], SPACES, nChar - start);
  }

  /** The loop of x_FindToken that goes to the next special character. */
  method FindSpecial(szDoc: string, start: nat) returns (nChar: nat)
    requires start <= |szDoc|
    ensures nChar == start + FirstOf(szDoc[start..], SPECIALS) && nChar <= |szDoc|
  {
    nChar := start;
    while nChar < |szDoc| && szDoc[nChar] !in SPECIALS
      invariant start <= nChar <= |szDoc|
      invariant forall k :: start <= k < nChar ==> szDoc[k] !in SPECIALS
    {
      nChar := nChar + 1;
    }
    FirstOfIs(szDoc[start..], SPECIALS, nChar - start);
  }

  /** x_FindToken: `start` is token.nNext. */
  method ScanToken(szDoc: string, start: nat) returns (token: Token)
    requires start <= |szDoc|
    ensures token == FindToken(szDoc[start..]).Shift(start)
    ensures token.l <= |szDoc| && token.next <= |szDoc|
    ensures token.found && !token.isString ==> token.l < |szDoc|
  {
    hide FirstOf, FirstNotOf;
    ghost var s := szDoc[start..];
    var nChar := SkipSpaces(szDoc, start);
    if nChar == |szDoc| {
      return Token(false, false, nChar, nChar, nChar);
    }
    var cFirstChar := szDoc[nChar];
    ghost var k := nChar - start;
    assert s[k..] == szDoc[nChar..] && s[k + 1..] == szDoc[nChar + 1..];
    if cFirstChar == '\"' || cFirstChar == '\'' {
      var nL := nChar + 1;
      var found, n := FindChar(szDoc, nL, cFirstChar);
      nChar := n;
      var nR := nChar - 1;
      if nChar < |szDoc| {
        nChar := nChar + 1;
      }
      token := Token(true, true, nL, nR, nChar);
    } else {
      var nL := nChar;
      nChar := FindSpecial(szDoc, nChar);
      if nChar == nL {
        nChar := nChar + 1;
      }
      token := Token(true, false, nL, nChar - 1, nChar);
    }
  }

  /** The loop of x_ParseNode over a document type that starts at `start`. */
  method ScanDocType(szDoc: string, start: nat) returns (found: bool, next: nat)
    requires start <= |szDoc|
    ensures var e := DocTypeEnd(szDoc[start..], 0);
      (found <==> e.Some?) && (found ==> next == start + e.value)
  {
    hide FindToken, DocTypeEnd;
    var nBrackets := 0;
    next := start;
    ghost var goal := DocTypeEnd(szDoc[start..], 0);
    while true
      invariant start <= next <= |szDoc|
      invariant var r := DocTypeEnd(szDoc[next..], nBrackets);
        (goal.Some? <==> r.Some?) && (goal.Some? ==> start + goal.value == next + r.value)
      decreases |szDoc| - next
    {
      DocTypeOnce(szDoc, next, nBrackets);
      var token := ScanToken(szDoc, next);
      if !token.found {
        return false, next;
      }
      if !token.isString {
        var cChar := szDoc[token.l];
        if cChar == '[' {
          nBrackets := nBrackets + 1;
        } else if cChar == ']' {
          nBrackets := nBrackets - 1;
        } else if nBrackets == 0 && cChar == '>' {
          return true, token.next;
        }
      }
      next := token.next;
    }
  }

  lemma DocTypeOnce(szDoc: string, at: nat, brackets: int)
    requires at <= |szDoc|
    ensures var t := FindToken(szDoc[at..]).Shift(at);
      var e := DocTypeEnd(szDoc[at..], brackets);
      if !t.found then e == None
      else if !t.isString && brackets == 0 && szDoc[t.l] == '>' then e == Some(t.next - at)
      else
        var b := if t.isString then brackets
                 else if szDoc[t.l] == '[' then brackets + 1
                 else if szDoc[t.l] == ']' then brackets - 1 else brackets;
        var r := DocTypeEnd(szDoc[t.next..], b);
        e == (if r.Some? then Some(t.next - at + r.value) else None)
  {
    hide FindToken;
    var s := szDoc[at..];
    var t := FindToken(s);
    assert s[t.next..] == szDoc[at + t.next..];
    if t.found && !t.isString { assert s[t.l] == szDoc[at + t.l]; }
  }

  /** x_ParseNode: the node at `start`; `next` is token.nNext after it. */
  method ScanNode(szDoc: string, start: nat) returns (found: bool, kind: NodeKind, next: nat)
    requires start <= |szDoc|
    ensures var n := ParseNode(szDoc[start..]);
      (found <==> n.Some?) && (found ==> kind == n.value.kind && next == start + n.value.next)
  {
    hide FindToken, FirstOf, FindStr, DocTypeEnd;
    ghost var s := szDoc[start..];
    found, kind, next := false, ElementNode, start;
    if start == |szDoc| {
      return;
    }
    if szDoc[start] == '<' {
      if |szDoc| < start + 3 {
        return;
      }
      var cFirstChar := szDoc[start + 1];
      assert s[1] == cFirstChar && s[2] == szDoc[start + 2];
      if cFirstChar == '?' {
        found, next := ScanTerminated(szDoc, start, InstructionNode, "?>");
        kind := InstructionNode;
      } else if cFirstChar == '!' {
        if szDoc[start + 2] == '[' {
          found, next := ScanTerminated(szDoc, start, CDataNode, "]]>");
          kind := CDataNode;
        } else if szDoc[start + 2] == '-' {
          found, next := ScanTerminated(szDoc, start, CommentNode, "-->");
          kind := CommentNode;
        } else {
          found, next := ScanDocType(szDoc, start);
          kind := DocTypeNode;
        }
      } else {
        found := cFirstChar != '/';
      }
    } else {
      found, kind := true, WhitespaceNode;
      var token := ScanToken(szDoc, start);
      next := token.next;
      if token.found {
        if token.l < |szDoc| && szDoc[token.l] == '<' {
          next := token.l;
        } else {
          kind := TextNode;
          assert s[token.next - start..] == szDoc[token.next..];
          var b, n := FindChar(szDoc, token.next, '<');
          next := n;
        }
      }
    }
  }

  /** The end of x_ParseNode: strstr for the mark that closes the node. */
  method ScanTerminated(szDoc: string, start: nat, ghost kind: NodeKind, szEndOfNode: string) returns (found: bool, next: nat)
    requires start <= |szDoc|
    ensures var n := Terminated(szDoc[start..], kind, szEndOfNode);
      (found <==> n.Some?) && (found ==> next == start + n.value.next && n.value.kind == kind)
  {
    hide FindStr;
    var nEnd := FindStr(szDoc[start..], szEndOfNode);
    found := nEnd >= 0;
    next := if found then start + nEnd + |szEndOfNode| else start;
  }

  /** x_GetToken. */
  function GetToken(szDoc: string, token: Token): string
    requires token.l <= |szDoc|
  {
    if token.l > token.r then ""
    else if token.r < |szDoc| then szDoc[token.l..token.r + 1]
    else szDoc[token.l..]
  }
}
