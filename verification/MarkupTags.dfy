/** Attributes: how x_FindAttrib walks over a start tag, and what x_SetAttrib and
    x_RemoveAttrib make of the tag. */
module MarkupTags {
  import opened MarkupText
  import opened MarkupGrammar
  import opened MarkupTree
  import opened MarkupEntities
  import opened MarkupScan

  /** What x_FindAttrib does with one token: it ends without or with a find, or goes on,
      having read the attribute's name at token `attrib` (0: not yet). */
  datatype AttribStep = Miss | Hit | Go(attrib: nat)

  function StepAttrib(s: string, t: Token, name: string, count: nat, attrib: nat): AttribStep
    requires t == FindToken(s) && t.found
  {
    if t.isString then
      if attrib != 0 && count == attrib + 2 then Hit else Go(attrib)
    else if s[t.l] == '>' || s[t.l] == '/' then Miss
    else if s[t.l] == '=' then Go(attrib)
    else if attrib == 0 && count != 0 then
      if name == "" then Hit
      else Go(if Match(s[t.l..t.next], name) then count else 0)
    else Go(attrib)
  }

  /** x_FindAttrib from token `count` on; an empty `name` asks for the next attribute's
      name instead of the value of a named one. */
  function FindAttrib(s: string, name: string, count: nat, attrib: nat): (r: Option<Token>)
    ensures r.Some? ==> r.value.found && r.value.l <= r.value.next <= |s|
    decreases |s|
  {
    var t := FindToken(s);
    if !t.found then None
    else match StepAttrib(s, t, name, count, attrib)
      case Miss => None
      case Hit => Some(t)
      case Go(attrib') =>
        match FindAttrib(s[t.next..], name, count + 1, attrib')
        case None => None
        case Some(u) => Some(u.Shift(t.next))
  }

  /** From here on the tokens of the tag end with its '>', the last character of `u`; in
      particular every quote is closed. */
  predicate Closed(u: string)
    decreases |u|
  {
    var t := FindToken(u);
    t.found &&
    if !t.isString && u[t.l] == '>' then t.next == |u| else t.next < |u| && Closed(u[t.next..])
  }

  predicate ClosedTag(t: string) { t != "" && Closed(t[1..]) }

  lemma ClosedToken(u: string, x: string)
    requires Closed(u)
    ensures FindToken(u + x) == FindToken(u)
  {
    hide Closed;
    ClosedHead(u);
    FindTokenExtends(u, x);
  }

  lemma ClosedHead(u: string)
    requires Closed(u)
    ensures var t := FindToken(u);
      t.found && (if !t.isString && u[t.l] == '>' then t.next == |u| else t.next < |u| && Closed(u[t.next..]))
  {
    hide FindToken;
  }

  lemma StepExtends(u: string, x: string, name: string, count: nat, attrib: nat)
    requires FindToken(u + x) == FindToken(u) && FindToken(u).found
    ensures StepAttrib(u + x, FindToken(u), name, count, attrib) == StepAttrib(u, FindToken(u), name, count, attrib)
  {
    hide FindToken, Match;
    var t := FindToken(u);
    if !t.isString {
      assert (u + x)[t.l..t.next] == u[t.l..t.next];
    }
  }

  /** The attributes found in a tag do not depend on what follows it, and lie in it. */
  lemma {:induction false} FindAttribExtends(u: string, x: string, name: string, count: nat, attrib: nat)
    requires Closed(u)
    ensures FindAttrib(u + x, name, count, attrib) == FindAttrib(u, name, count, attrib)
    ensures var r := FindAttrib(u, name, count, attrib); r.Some? ==> r.value.next < |u|
    decreases |u|
  {
    hide FindToken, Closed, StepAttrib;
    var t := FindToken(u);
    ClosedHead(u);
    ClosedToken(u, x);
    StepExtends(u, x, name, count, attrib);
    if t.next < |u| {
      assert (u + x)[t.next..] == u[t.next..] + x;
      var st := StepAttrib(u, t, name, count, attrib);
      if st.Go? { FindAttribExtends(u[t.next..], x, name, count + 1, st.attrib); }
    } else {
      assert StepAttrib(u, t, name, count, attrib) == Miss by { StepAtEnd(u, t, name, count, attrib); }
    }
  }

  lemma StepAtEnd(u: string, t: Token, name: string, count: nat, attrib: nat)
    requires t == FindToken(u) && t.found && !t.isString && u[t.l] == '>'
    ensures StepAttrib(u, t, name, count, attrib) == Miss
  {
  }

  lemma StringToken(s: string)
    requires FindToken(s).isString
    ensures var t := FindToken(s); t.l <= t.r + 1 <= t.next && t.r < |s|
  {
    hide FirstOf, FirstNotOf;
  }

  /** What x_FindAttrib finds for a name is a string; what it finds as a name is not. */
  lemma {:induction false} FindAttribKind(s: string, name: string, count: nat, attrib: nat)
    requires name == "" ==> attrib == 0
    ensures var r := FindAttrib(s, name, count, attrib);
      r.Some? ==>
        && r.value.isString == (name != "") && r.value.l <= r.value.r + 1 <= r.value.next && r.value.r < |s|
        && (count == 0 && attrib == 0 ==> 0 < r.value.l)
    decreases |s|
  {
    hide FindToken, Match, FindAttrib;
    FindAttribOnce(s, name, count, attrib);
    var t := FindToken(s);
    if t.found {
      var st := StepAttrib(s, t, name, count, attrib);
      if st.Go? {
        FindAttribKind(s[t.next..], name, count + 1, st.attrib);
      } else if t.isString {
        StringToken(s);
      }
    }
  }

  lemma FindAttribOnce(s: string, name: string, count: nat, attrib: nat)
    ensures var t, r := FindToken(s), FindAttrib(s, name, count, attrib);
      if !t.found then r == None
      else match StepAttrib(s, t, name, count, attrib)
        case Miss => r == None
        case Hit => r == Some(t)
        case Go(n) =>
          var v := FindAttrib(s[t.next..], name, count + 1, n);
          r == (if v.Some? then Some(v.value.Shift(t.next)) else None)
  {
    hide FindToken, StepAttrib;
  }

  // ---- The start tag after x_SetAttrib and x_RemoveAttrib

  function Pair(name: string, value: string): string {
    " " + name + "=\"" + ToDoc(value, true) + "\""
  }

  /** Where a new attribute goes: before the "/>" or the ">". */
  function TagTail(t: string, empty: bool): nat
    requires |t| >= 2
  {
    |t| - (if empty then 2 else 1)
  }

  function SetTag(t: string, empty: bool, name: string, value: string): string
    requires |t| >= 2
  {
    FindAttribKind(t[1..], name, 0, 0);
    match FindAttrib(t[1..], name, 0, 0)
    case Some(k) => t[..1 + k.l] + ToDoc(value, true) + t[1 + k.r + 1..]
    case None => t[..TagTail(t, empty)] + Pair(name, value) + t[TagTail(t, empty)..]
  }

  lemma SetTagCases(t: string, empty: bool, name: string, value: string)
    requires |t| >= 2
    ensures match FindAttrib(t[1..], name, 0, 0)
      case Some(k) =>
        && k.l <= k.r + 1 && 1 + k.r + 1 <= |t|
        && SetTag(t, empty, name, value) == t[..1 + k.l] + ToDoc(value, true) + t[2 + k.r..]
      case None =>
        SetTag(t, empty, name, value) == t[..TagTail(t, empty)] + Pair(name, value) + t[TagTail(t, empty)..]
  {
    hide FindAttrib, ToDoc, Pair;
    FindAttribKind(t[1..], name, 0, 0);
  }

  /** x_GetAttrib. */
  function AttribOf(t: string, name: string): string
    requires t != ""
  {
    FindAttribKind(t[1..], name, 0, 0);
    match FindAttrib(t[1..], name, 0, 0)
    case Some(k) => FromDoc(t[1..][k.l..k.r + 1])
    case None => ""
  }

  /** The attribute of a tag read off the whole document. */
  lemma AttribInDoc(doc: string, at: nat, t: string, x: string, name: string)
    requires ClosedTag(t) && at + |t| <= |doc| && doc[at..at + |t|] == t && doc[at + 1..] == t[1..] + x
    ensures var r := FindAttrib(doc[at + 1..], name, 0, 0);
      && (r.None? ==> AttribOf(t, name) == "")
      && (r.Some? ==>
            && at + 1 + r.value.l <= at + 1 + r.value.r + 1 <= |doc|
            && AttribOf(t, name) == FromDoc(doc[at + 1 + r.value.l..at + 1 + r.value.r + 1]))
  {
    hide FindAttrib, Closed, FromDoc;
    FindAttribExtends(t[1..], x, name, 0, 0);
    FindAttribKind(t[1..], name, 0, 0);
    var r := FindAttrib(t[1..], name, 0, 0);
    if r.Some? {
      var k := r.value;
      SliceOfSlice(t, 1, |t|, k.l, k.r + 1);
      SliceOfSlice(doc, at, at + |t|, 1 + k.l, 1 + k.r + 1);
      assert t[1..] == t[1..|t|];
    }
  }

  /** What x_RemoveAttrib takes out of the text after the '<'. */
  datatype Cut = NoCut | Cut(at: nat, end: int) {
    function Shift(n: nat): Cut { if Cut? then Cut(at + n, end + n) else NoCut }
  }

  function FindCut(s: string, name: string): (c: Cut)
    decreases |s|
  {
    FindAttribKind(s, "", 0, 0);
    match FindAttrib(s, "", 0, 0)
    case None => NoCut
    case Some(t) => CutAt(s, t, name)
  }

  /** x_RemoveAttrib at the attribute name `t`. */
  function CutAt(s: string, t: Token, name: string): (c: Cut)
    requires 0 < t.l <= t.next <= |s|
    decreases |s|, 0
  {
    if !Match(s[t.l..t.next], name) then FindCut(s[t.next..], name).Shift(t.next)
    else
      var t1 := FindToken(s[t.next..]).Shift(t.next);
      if !t1.found || t1.l == |s| || s[t1.l] != '=' then FindCut(s[t1.next..], name).Shift(t1.next)
      else
        var t2 := FindToken(s[t1.next..]).Shift(t1.next);
        if t2.found && t2.isString then Cut(t.l - 1, t2.r + 2)
        else FindCut(s[t2.next..], name).Shift(t2.next)
  }

  function CutTag(t: string, name: string): string
    requires t != ""
  {
    match FindCut(t[1..], name)
    case NoCut => t
    case Cut(at, end) => if at + 1 <= end + 1 <= |t| then t[..1 + at] + t[1 + end..] else t
  }

  /** The loop of x_FindAttrib from `start`; the token it stops at, and whether it is the
      one asked for. */
  method ScanAttrib(szDoc: string, start: nat, szAttrib: string) returns (found: bool, token: Token)
    requires start <= |szDoc|
    ensures var r := FindAttrib(szDoc[start..], szAttrib, 0, 0);
      (found <==> r.Some?) && (found ==> token == r.value.Shift(start))
    ensures token.l <= |szDoc| && token.next <= |szDoc|
  {
    hide FindToken, FindAttrib, StepAttrib, Match;
    var nAttrib, nCount := 0, 0;
    var next := start;
    ghost var goal := FindAttrib(szDoc[start..], szAttrib, 0, 0);
    while true
      invariant start <= next <= |szDoc|
      invariant var r := FindAttrib(szDoc[next..], szAttrib, nCount, nAttrib);
        (goal.Some? <==> r.Some?) && (goal.Some? ==> goal.value.Shift(start) == r.value.Shift(next))
      decreases |szDoc| - next
    {
      ghost var s := szDoc[next..];
      FindAttribOnce(s, szAttrib, nCount, nAttrib);
      token := ScanToken(szDoc, next);
      if !token.found {
        return false, token;
      }
      ghost var t := FindToken(s);
      assert s[t.next..] == szDoc[token.next..];
      SameStep(szDoc, next, t, szAttrib, nCount, nAttrib);
      if !token.isString {
        var c := szDoc[token.l];
        if c == '>' || c == '/' {
          return false, token;
        }
        if c != '=' && nAttrib == 0 && nCount != 0 {
          if szAttrib == "" {
            return true, token;
          }
          if Match(szDoc[token.l..token.next], szAttrib) {
            nAttrib := nCount;
          }
        }
      } else if nAttrib != 0 && nCount == nAttrib + 2 {
        return true, token;
      }
      next := token.next;
      nCount := nCount + 1;
    }
  }

  /** The step at a token, read off the whole document. */
  lemma SameStep(szDoc: string, start: nat, t: Token, name: string, count: nat, attrib: nat)
    requires start <= |szDoc| && t == FindToken(szDoc[start..]) && t.found
    ensures StepAttrib(szDoc[start..], t, name, count, attrib)
      == if t.isString then (if attrib != 0 && count == attrib + 2 then Hit else Go(attrib))
         else if szDoc[start + t.l] == '>' || szDoc[start + t.l] == '/' then Miss
         else if szDoc[start + t.l] == '=' || attrib != 0 || count == 0 then Go(attrib)
         else if name == "" then Hit
         else Go(if Match(szDoc[start + t.l..start + t.next], name) then count else 0)
  {
    hide FindToken, Match;
    if !t.isString {
      assert szDoc[start..][t.l] == szDoc[start + t.l];
      assert szDoc[start..][t.l..t.next] == szDoc[start + t.l..start + t.next];
    }
  }

  // ---- The new tag still begins and ends as it did

  /** The last character of a token that x_FindAttrib stops at is no '/' and no '>'. */
  lemma {:induction false} FindAttribEnd(u: string, name: string, count: nat, attrib: nat)
    requires Closed(u) && FindAttrib(u, name, count, attrib).Some?
    ensures var k := FindAttrib(u, name, count, attrib).value;
      && k.next < |u| && 0 < k.next && u[k.next - 1] !in {'/', '>'}
      && k.next == (if k.isString then k.r + 2 else k.r + 1)
    decreases |u|
  {
    hide FindToken, Closed, StepAttrib, FindAttrib;
    var t := FindToken(u);
    ClosedHead(u);
    FindAttribOnce(u, name, count, attrib);
    var st := StepAttrib(u, t, name, count, attrib);
    if t.next == |u| {
      StepAtEnd(u, t, name, count, attrib);
    }
    if st.Go? {
      FindAttribEnd(u[t.next..], name, count + 1, st.attrib);
      var k := FindAttrib(u[t.next..], name, count + 1, st.attrib).value;
      assert u[t.next..][k.next - 1] == u[t.next + k.next - 1];
    } else {
      HitToken(u, t, name, count, attrib);
    }
  }

  lemma HitToken(u: string, t: Token, name: string, count: nat, attrib: nat)
    requires t == FindToken(u) && t.found && StepAttrib(u, t, name, count, attrib) == Hit
    ensures 0 < t.next <= |u|
    ensures t.next < |u| ==> u[t.next - 1] !in {'/', '>'} && t.next == (if t.isString then t.r + 2 else t.r + 1)
    ensures !t.isString ==> t.next == t.r + 1 && u[t.next - 1] !in {'/', '>'}
  {
  }

  // ---- x_RemoveAttrib's search

  lemma CutSteps(s: string, k: Token, name: string)
    requires 0 < k.l <= k.next <= |s|
    ensures var t1 := FindToken(s[k.next..]).Shift(k.next);
      && t1.next <= |s| && t1.l <= |s|
      && var t2 := FindToken(s[t1.next..]).Shift(t1.next);
         && t2.next <= |s|
         && CutAt(s, k, name) ==
           (if !Match(s[k.l..k.next], name) then FindCut(s[k.next..], name).Shift(k.next)
            else if !t1.found || t1.l == |s| || s[t1.l] != '=' then FindCut(s[t1.next..], name).Shift(t1.next)
            else if t2.found && t2.isString then Cut(k.l - 1, t2.r + 2)
            else FindCut(s[t2.next..], name).Shift(t2.next))
  {
    hide FindToken, FindCut, Match;
  }

  lemma FindCutOnce(s: string, name: string)
    ensures FindAttrib(s, "", 0, 0) == None ==> FindCut(s, name) == NoCut
    ensures FindAttrib(s, "", 0, 0).Some? ==>
      var k := FindAttrib(s, "", 0, 0).value; 0 < k.l <= k.next <= |s| && FindCut(s, name) == CutAt(s, k, name)
  {
    hide FindAttrib, CutAt;
    FindAttribKind(s, "", 0, 0);
  }

  /** What the loop of x_RemoveAttrib does when it has found the name of an attribute: it
      stops with a replacement, or goes on from `next`. */
  method ScanCutAt(szDoc: string, start: nat, token: Token, szAttrib: string) returns (done: bool, nInsertAt: nat, nReplace: int, next: nat)
    requires start <= |szDoc| && start < token.l <= token.next <= |szDoc|
    ensures start < next <= |szDoc|
    ensures var c := CutAt(szDoc[start..], Token(token.found, token.isString, token.l - start, token.r - start, token.next - start), szAttrib);
      if done then nInsertAt >= start && c == Cut(nInsertAt - start, nInsertAt - start + nReplace)
      else c == FindCut(szDoc[next..], szAttrib).Shift(next - start)
  {
    hide FindToken, FindCut, Match, CutAt;
    ghost var s := szDoc[start..];
    ghost var k := Token(token.found, token.isString, token.l - start, token.r - start, token.next - start);
    done, nInsertAt, nReplace, next := false, start, 0, token.next;
    SliceOfSlice(szDoc, start, |szDoc|, k.l, k.next);
    assert s == szDoc[start..|szDoc|];
    if Match(szDoc[token.l..token.next], szAttrib) {
      var value: Token;
      done, value, next := ScanValue(szDoc, start, token.next);
      CutAfterName(s, k, szAttrib);
      if done {
        nInsertAt := token.l - 1;
        nReplace := value.r - nInsertAt + 2;
      }
    } else {
      CutSteps(s, k, szAttrib);
      assert s[k.next..] == szDoc[token.next..];
    }
  }

  /** What comes behind the name of an attribute: '=' and a string, and where to go on if not. */
  function ValueAt(s: string, from: nat): (r: (bool, Token, nat))
    requires from <= |s|
    ensures from <= r.2 <= |s|
  {
    var t1 := FindToken(s[from..]).Shift(from);
    if !t1.found || t1.l == |s| || s[t1.l] != '=' then (false, t1, t1.next)
    else
      var t2 := FindToken(s[t1.next..]).Shift(t1.next);
      (t2.found && t2.isString, t2, t2.next)
  }

  lemma CutAfterName(s: string, k: Token, name: string)
    requires 0 < k.l <= k.next <= |s| && Match(s[k.l..k.next], name)
    ensures var v := ValueAt(s, k.next);
      CutAt(s, k, name) == (if v.0 then Cut(k.l - 1, v.1.r + 2) else FindCut(s[v.2..], name).Shift(v.2))
  {
    hide FindToken, FindCut, Match, CutAt;
    CutSteps(s, k, name);
  }

  /** The part of that loop that looks for '=' and a string behind the name. */
  method ScanValue(szDoc: string, ghost start: nat, from: nat) returns (found: bool, value: Token, next: nat)
    requires start < from <= |szDoc|
    ensures start < next <= |szDoc|
    ensures var v := ValueAt(szDoc[start..], from - start);
      && found == v.0 && next == start + v.2 && (found ==> value == v.1.Shift(start))
      && szDoc[next..] == szDoc[start..][v.2..]
  {
    hide FindToken;
    ghost var s := szDoc[start..];
    assert s[from - start..] == szDoc[from..];
    var token1 := ScanToken(szDoc, from);
    ghost var t1 := FindToken(s[from - start..]).Shift(from - start);
    assert s[t1.next..] == szDoc[token1.next..];
    assert t1.l < |s| ==> s[t1.l] == szDoc[token1.l];
    found, value, next := false, token1, token1.next;
    if token1.found && token1.l < |szDoc| && szDoc[token1.l] == '=' {
      value := ScanToken(szDoc, token1.next);
      ghost var t2 := FindToken(s[t1.next..]).Shift(t1.next);
      assert s[t2.next..] == szDoc[value.next..];
      found, next := value.found && value.isString, value.next;
    }
  }

  /** The loop of x_RemoveAttrib from `start`: what it takes out of the document. */
  method ScanCut(szDoc: string, start: nat, szAttrib: string) returns (found: bool, nInsertAt: nat, nReplace: int)
    requires start <= |szDoc|
    ensures var c := FindCut(szDoc[start..], szAttrib);
      && (found <==> c.Cut?)
      && (found ==> nInsertAt == start + c.at && nReplace == c.end - c.at)
  {
    hide FindToken, FindCut, Match, CutAt, FindAttrib;
    ghost var goal := FindCut(szDoc[start..], szAttrib);
    var next := start;
    found, nInsertAt, nReplace := false, 0, 0;
    while true
      invariant start <= next <= |szDoc|
      invariant goal == FindCut(szDoc[next..], szAttrib).Shift(next - start)
      decreases |szDoc| - next
    {
      FindCutOnce(szDoc[next..], szAttrib);
      var b, token := ScanAttrib(szDoc, next, "");
      if !b {
        return;
      }
      found, nInsertAt, nReplace, next := ScanCutAt(szDoc, next, token, szAttrib);
      if found {
        return;
      }
    }
  }
}
