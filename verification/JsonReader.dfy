/** Json::Reader: the cursor into the document, the stack of nodes and the list of errors,
    proved against the functions of JsonParse.  Comments are skipped, but not collected. */
module JsonReader {
  import opened JsonValue
  import opened JsonLex
  import opened JsonParse
  import opened JsonPrint

  // ---- Nodes

  /** Where a node of the stack points to: the keys that lead to it from the root. */
  type Path = seq<Key>

  function Children(v: Value): Entries {
    match v
    case Array(a) => a
    case Object(o) => o
    case _ => Nil
  }

  function WithChildren(v: Value, m: Entries): Value {
    match v
    case Array(_) => Array(m)
    case Object(_) => Object(m)
    case _ => v
  }

  /** The node exists. */
  predicate Resolves(v: Value, p: Path)
    decreases |p|
  {
    p == [] || (Has(Children(v), p[0]) && Resolves(Find(Children(v), p[0]), p[1..]))
  }

  function At(v: Value, p: Path): Value
    decreases |p|
  {
    if p == [] then v else At(Find(Children(v), p[0]), p[1..])
  }

  /** An assignment to the node. */
  function Put(v: Value, p: Path, w: Value): Value
    decreases |p|
  {
    if p == [] then w
    else WithChildren(v, Insert(Children(v), p[0], Put(Find(Children(v), p[0]), p[1..], w)))
  }

  predicate SortedAll(v: Value, p: Path)
    decreases |p|
  {
    Sorted(Children(v)) && (p == [] || SortedAll(Find(Children(v), p[0]), p[1..]))
  }

  lemma ChildrenOfContainer(v: Value, m: Entries)
    ensures Children(v).Entry? ==> Children(WithChildren(v, m)) == m
    ensures Children(v).Entry? ==> WithChildren(WithChildren(v, m), Children(v)) == v
  {
  }

  /** What is assigned to a node is found there, and a second assignment replaces it. */
  lemma {:induction false} PutAt(v: Value, p: Path, w: Value)
    requires Resolves(v, p) && SortedAll(v, p) && Sorted(Children(w))
    ensures At(Put(v, p, w), p) == w && Resolves(Put(v, p, w), p) && SortedAll(Put(v, p, w), p)
    ensures forall x :: Put(Put(v, p, w), p, x) == Put(v, p, x)
    decreases |p|
  {
    if p != [] {
      var m, k := Children(v), p[0];
      var inner := Put(Find(m, k), p[1..], w);
      PutAt(Find(m, k), p[1..], w);
      HasEntry(m, k);
      InsertKeeps(m, k, inner);
      FindInsert(m, k, inner, k);
      ChildrenOfContainer(v, Insert(m, k, inner));
      forall x
        ensures Put(Put(v, p, w), p, x) == Put(v, p, x)
      {
        InsertTwice(m, k, inner, Put(Find(m, k), p[1..], x));
        WithTwice(v, Insert(m, k, inner), Insert(m, k, Put(Find(m, k), p[1..], x)));
      }
    }
  }

  lemma WithTwice(v: Value, m: Entries, n: Entries)
    ensures WithChildren(WithChildren(v, m), n) == WithChildren(v, n)
  {
  }

  lemma HasEntry(m: Entries, k: Key)
    requires Has(m, k)
    ensures m.Entry?
  {
  }

  lemma {:induction false} InsertTwice(m: Entries, k: Key, v: Value, w: Value)
    requires Sorted(m)
    ensures Insert(Insert(m, k, v), k, w) == Insert(m, k, w)
  {
    hide KeyLess;
    KeyIsOrder(k, k, k);
    if m.Entry? {
      KeyIsOrder(k, m.key, k);
      if k != m.key && !KeyLess(k, m.key) { InsertTwice(m.rest, k, v, w); }
    }
  }

  /** operator[]: the entry of the key comes to be, as null, if it was missing. */
  function Touch(m: Entries, k: Key): Entries {
    if Has(m, k) then m else Insert(m, k, Null)
  }

  lemma TouchFacts(m: Entries, k: Key, w: Value)
    requires Sorted(m)
    ensures Sorted(Touch(m, k)) && Has(Touch(m, k), k) && Insert(Touch(m, k), k, w) == Insert(m, k, w)
  {
    InsertKeeps(m, k, Null);
    FindInsert(m, k, Null, k);
    InsertTwice(m, k, Null, w);
  }

  /** An assignment to an entry of a node. */
  lemma {:induction false} PutDeeper(v: Value, p: Path, c: Value, k: Key, w: Value)
    requires Resolves(v, p) && SortedAll(v, p) && Sorted(Children(c)) && Has(Children(c), k)
    ensures var r := Put(v, p, c);
      && Put(r, p + [k], w) == Put(v, p, WithChildren(c, Insert(Children(c), k, w)))
      && Resolves(r, p + [k]) && (Sorted(Children(Find(Children(c), k))) ==> SortedAll(r, p + [k]))
    decreases |p|
  {
    var q := p + [k];
    if p == [] {
      assert q[1..] == [];
    } else {
      var m, j := Children(v), p[0];
      assert q[1..] == p[1..] + [k] && q[0] == j;
      var inner := Put(Find(m, j), p[1..], c);
      HasEntry(m, j);
      PutDeeper(Find(m, j), p[1..], c, k, w);
      InsertKeeps(m, j, inner);
      FindInsert(m, j, inner, j);
      ChildrenOfContainer(v, Insert(m, j, inner));
      InsertTwice(m, j, inner, Put(inner, p[1..] + [k], w));
      WithTwice(v, Insert(m, j, inner), Insert(m, j, Put(inner, p[1..] + [k], w)));
    }
  }

  lemma {:induction false} InsertSame(m: Entries, k: Key)
    requires Sorted(m) && Has(m, k)
    ensures Insert(m, k, Find(m, k)) == m
  {
    hide KeyLess;
    KeyIsOrder(k, m.key, k);
    if m.key != k {
      SortedBelow(m, k);
      InsertSame(m.rest, k);
    }
  }

  /** Assigning its own value to a node changes nothing. */
  lemma {:induction false} PutSame(v: Value, p: Path)
    requires Resolves(v, p) && SortedAll(v, p)
    ensures Put(v, p, At(v, p)) == v && Sorted(Children(At(v, p)))
    decreases |p|
  {
    if p != [] {
      var m := Children(v);
      HasEntry(m, p[0]);
      PutSame(Find(m, p[0]), p[1..]);
      InsertSame(m, p[0]);
    }
  }

  /** An entry of a map and what is in it are in order. */
  ghost predicate Neat(m: Entries) {
    Sorted(m) && forall k :: Sorted(Children(Find(m, k)))
  }

  lemma NeatInsert(m: Entries, k: Key, w: Value)
    requires Neat(m) && Sorted(Children(w))
    ensures Neat(Insert(m, k, w)) && Neat(Touch(m, k))
  {
    InsertKeeps(m, k, w);
    InsertKeeps(m, k, Null);
    forall l
      ensures Sorted(Children(Find(Insert(m, k, w), l))) && Sorted(Children(Find(Touch(m, k), l)))
    {
      FindInsert(m, k, w, l);
      FindInsert(m, k, Null, l);
    }
  }

  /** What becomes of an object after one member: an error, the end, or more members. */
  datatype Progress = Failed | Finished | More

  datatype ErrorInfo = ErrorInfo(message: string, token: Tok, extra: Option<nat>)

  /** How far recoverFromError goes: behind the first token of the kind it looks for, or behind
      the end of the stream, over all tokens before it. */
  function SkippedTo(s: string, kind: Kind): (n: nat)
    ensures n <= |s|
    decreases |s|
  {
    var t := Lex(s);
    if t.kind == kind || t.kind == EndOfStream then t.end else t.end + SkippedTo(s[t.end..], kind)
  }

  lemma SkippedOnce(s: string, at: nat, kind: Kind)
    requires at <= |s|
    ensures var t := Lex(s[at..]);
      && at + t.end <= |s|
      && (t.kind == kind || t.kind == EndOfStream ==> SkippedTo(s[at..], kind) == t.end)
      && (t.kind != kind && t.kind != EndOfStream ==> SkippedTo(s[at..], kind) == t.end + SkippedTo(s[at + t.end..], kind))
  {
    hide Lex;
    var t := Lex(s[at..]);
    assert s[at..][t.end..] == s[at + t.end..];
  }

  /** One error was added. */
  ghost predicate OneMore<T>(before: seq<T>, after: seq<T>) {
    |after| == |before| + 1 && after[..|before|] == before
  }

  class Reader {
    var document: string
    var current: nat
    var nodes: seq<Path>
    var errors: seq<ErrorInfo>
    var root: Value
    const scan: Scanner

    constructor (scan: Scanner)
      ensures this.scan == scan
    {
      this.scan := scan;
      document, current, nodes, errors, root := "", 0, [], [], Null;
    }

    /** The text from the cursor on. */
    function Rest(): string
      requires current <= |document|
      reads this`document, this`current
    {
      document[current..]
    }

    // ---- Tokens

    /** getNextChar. */
    method GetNextChar() returns (c: char)
      requires current <= |document|
      modifies this`current
      ensures if old(current) == |document| then c == '\0' && current == old(current)
              else c == document[old(current)] && current == old(current) + 1
    {
      if current == |document| {
        return '\0';
      }
      c := document[current];
      current := current + 1;
    }

    /** skipSpaces. */
    method SkipSpaces()
      requires current <= |document|
      modifies this`current
      ensures current == old(current) + Run(old(Rest()), SPACE) && current <= |document|
    {
      ghost var start := current;
      while current != |document|
        invariant start <= current <= |document|
        invariant forall k :: start <= k < current ==> document[k] in SPACE
        decreases |document| - current
      {
        var c := document[current];
        if c == ' ' || c == '\t' || c == '\r' || c == '\n' {
          current := current + 1;
        } else {
          break;
        }
      }
      RunIs(document[start..], SPACE, current - start);
    }

    /** match. */
    method MatchWord(pattern: string) returns (ok: bool)
      requires current <= |document|
      modifies this`current
      ensures ok <==> Starts(old(Rest()), pattern)
      ensures current == (if ok then old(current) + |pattern| else old(current)) && current <= |document|
    {
      if |document| - current < |pattern| {
        return false;
      }
      var index := |pattern|;
      ghost var s := document[current..];
      while index > 0
        invariant 0 <= index <= |pattern|
        invariant forall k :: index <= k < |pattern| ==> document[current + k] == pattern[k]
      {
        index := index - 1;
        if document[current + index] != pattern[index] {
          assert s[..|pattern|][index] == document[current + index];
          return false;
        }
      }
      assert forall k :: 0 <= k < |pattern| ==> s[k] == document[current + k];
      assert s[..|pattern|] == pattern;
      current := current + |pattern|;
      ok := true;
    }

    /** readString. */
    method ReadString() returns (ok: bool)
      requires current <= |document|
      modifies this`current
      ensures var e := StringEnd(old(Rest())); ok == e.0 && current == old(current) + e.1 && current <= |document|
    {
      hide StringEnd;
      ghost var start := current;
      ghost var goal := StringEnd(document[start..]);
      var c := '\0';
      while current != |document|
        invariant start <= current <= |document| && c != '\"'
        invariant goal == (StringEnd(document[current..]).0, StringEnd(document[current..]).1 + (current - start))
        decreases |document| - current
      {
        StringEndAt(document, current);
        c := GetNextChar();
        if c == '\\' {
          var skipped := GetNextChar();
        } else if c == '\"' {
          break;
        }
      }
      StringEndAt(document, |document|);
      ok := c == '\"';
    }

    lemma StringEndAt(doc: string, at: nat)
      requires at <= |doc|
      ensures at == |doc| ==> StringEnd(doc[at..]) == (false, 0)
      ensures at < |doc| ==>
        var w := if doc[at] == '\\' && at + 1 < |doc| then 2 else 1;
        at + w <= |doc| &&
        var r := StringEnd(doc[at + w..]);
        StringEnd(doc[at..]) == if doc[at] == '\"' then (true, 1) else (r.0, r.1 + w)
    {
      if at < |doc| {
        var w := if doc[at] == '\\' && at + 1 < |doc| then 2 else 1;
        assert doc[at..][w..] == doc[at + w..];
      }
    }

    /** readCStyleComment. */
    method ReadCStyleComment() returns (ok: bool)
      requires current <= |document|
      modifies this`current
      ensures var e := StarEnd(old(Rest())); ok == e.0 && current == old(current) + e.1 && current <= |document|
    {
      hide StarEnd;
      ghost var start := current;
      ghost var goal := StarEnd(document[start..]);
      while current != |document|
        invariant start <= current <= |document|
        invariant goal == (StarEnd(document[current..]).0, StarEnd(document[current..]).1 + (current - start))
        decreases |document| - current
      {
        StarEndAt(document, current);
        var c := GetNextChar();
        if c == '*' && current < |document| && document[current] == '/' {
          break;
        }
      }
      StarEndAt(document, |document|);
      var c := GetNextChar();
      ok := c == '/';
    }

    lemma StarEndAt(doc: string, at: nat)
      requires at <= |doc|
      ensures at == |doc| ==> StarEnd(doc[at..]) == (false, 0)
      ensures at < |doc| ==>
        var r := StarEnd(doc[at + 1..]);
        StarEnd(doc[at..]) == if doc[at] == '*' && at + 1 < |doc| && doc[at + 1] == '/' then (true, 2) else (r.0, r.1 + 1)
    {
      if at < |doc| { assert doc[at..][1..] == doc[at + 1..]; }
    }

    /** readCppStyleComment. */
    method ReadCppStyleComment() returns (ok: bool)
      requires current <= |document|
      modifies this`current
      ensures ok && current == old(current) + LineEnd(old(Rest())) && current <= |document|
    {
      hide LineEnd;
      ghost var start := current;
      ghost var goal := LineEnd(document[start..]);
      while current != |document|
        invariant start <= current <= |document| && goal == LineEnd(document[current..]) + (current - start)
        decreases |document| - current
      {
        LineEndAt(document, current);
        var c := GetNextChar();
        if c == '\r' || c == '\n' {
          return true;
        }
      }
      LineEndAt(document, |document|);
      ok := true;
    }

    lemma LineEndAt(doc: string, at: nat)
      requires at <= |doc|
      ensures at == |doc| ==> LineEnd(doc[at..]) == 0
      ensures at < |doc| ==>
        LineEnd(doc[at..]) == if doc[at] == '\r' || doc[at] == '\n' then 1 else 1 + LineEnd(doc[at + 1..])
    {
      if at < |doc| { assert doc[at..][1..] == doc[at + 1..]; }
    }

    /** readComment. */
    method ReadComment() returns (ok: bool)
      requires current <= |document|
      modifies this`current
      ensures var e := CommentEnd(old(Rest())); ok == e.0 && current == old(current) + e.1 && current <= |document|
    {
      hide StarEnd, LineEnd;
      ghost var s := Rest();
      var c := GetNextChar();
      assert s != "" ==> s[1..] == document[current..];
      ok := false;
      if c == '*' {
        ok := ReadCStyleComment();
      } else if c == '/' {
        ok := ReadCppStyleComment();
      }
    }

    /** readNumber. */
    method ReadNumber()
      requires current <= |document|
      modifies this`current
      ensures current == old(current) + Run(old(Rest()), NUMBER) && current <= |document|
    {
      ghost var start := current;
      while current != |document|
        invariant start <= current <= |document|
        invariant forall k :: start <= k < current ==> document[k] in NUMBER
        decreases |document| - current
      {
        if !IsDigit(document[current]) && document[current] !in {'.', 'e', 'E', '+', '-'} {
          break;
        }
        current := current + 1;
      }
      RunIs(document[start..], NUMBER, current - start);
    }

    /** readToken. */
    method ReadToken() returns (token: Tok)
      requires current <= |document|
      modifies this`current
      ensures token == Lex(old(Rest())).Shift(old(current)) && current == token.end <= |document|
    {
      hide Run, LexAt;
      ghost var s := Rest();
      ghost var before := current;
      SkipSpaces();
      assert s[current - before..] == document[current..];
      if current == |document| {
        return Tok(EndOfStream, current, current);
      }
      token := ReadTokenAt();
    }

    /** The switch of readToken. */
    method ReadTokenAt() returns (token: Tok)
      requires current < |document|
      modifies this`current
      ensures token == LexAt(old(Rest())).Shift(old(current)) && current == token.end <= |document|
    {
      hide Run, StringEnd, CommentEnd, Starts;
      var start := current;
      ghost var u := Rest();
      var c := GetNextChar();
      assert u[1..] == document[current..];
      var kind := BadToken;
      var ok := true;
      if c == '{' {
        kind := ObjectBegin;
      } else if c == '}' {
        kind := ObjectEnd;
      } else if c == '[' {
        kind := ArrayBegin;
      } else if c == ']' {
        kind := ArrayEnd;
      } else if c == '\"' {
        kind := StringToken;
        ok := ReadString();
      } else if c == '/' {
        kind := Comment;
        ok := ReadComment();
      } else if IsDigit(c) || c == '-' {
        kind := NumberToken;
        ReadNumber();
      } else if c == 't' {
        kind := TrueToken;
        ok := MatchWord("rue");
      } else if c == 'f' {
        kind := FalseToken;
        ok := MatchWord("alse");
      } else if c == 'n' {
        kind := NullToken;
        ok := MatchWord("ull");
      } else if c == ',' {
        kind := Comma;
      } else if c == ':' {
        kind := Colon;
      } else if c == '\0' {
        kind := EndOfStream;
      } else {
        ok := false;
      }
      if !ok {
        kind := BadToken;
      }
      token := Tok(kind, start, current);
    }

    /** skipCommentTokens. */
    method SkipCommentTokens() returns (token: Tok)
      requires current <= |document|
      modifies this`current
      ensures token == NextToken(old(Rest())).Shift(old(current)) && current == token.end <= |document|
    {
      hide Lex, NextToken;
      ghost var start := current;
      ghost var goal := NextToken(document[start..]);
      while true
        invariant start <= current <= |document| && goal == NextToken(document[current..]).Shift(current - start)
        decreases |document| - current
      {
        NextTokenAt(document, current);
        token := ReadToken();
        if token.kind != Comment {
          break;
        }
      }
    }

    lemma NextTokenAt(doc: string, at: nat)
      requires at <= |doc|
      ensures var t := Lex(doc[at..]);
        NextToken(doc[at..]) == if t.kind == Comment then NextToken(doc[at + t.end..]).Shift(t.end) else t
    {
      hide Lex;
      var t := Lex(doc[at..]);
      assert doc[at..][t.end..] == doc[at + t.end..];
    }

    // ---- Errors

    /** addError. */
    method AddError(message: string, token: Tok, extra: Option<nat>) returns (ok: bool)
      modifies this`errors
      ensures !ok && errors == old(errors) + [ErrorInfo(message, token, extra)] && OneMore(old(errors), errors)
    {
      errors := errors + [ErrorInfo(message, token, extra)];
      ok := false;
    }

    /** recoverFromError: it skips tokens up to one of the given kind, at whatever depth. */
    method RecoverFromError(skipUntilToken: Kind) returns (ok: bool)
      requires current <= |document|
      modifies this`current, this`errors
      ensures !ok && errors == old(errors) && old(current) <= current <= |document|
      ensures current == old(current) + SkippedTo(old(Rest()), skipUntilToken)
    {
      hide Lex, SkippedTo;
      var errorCount := |errors|;
      ghost var goal := current + SkippedTo(Rest(), skipUntilToken);
      while true
        invariant errors == old(errors) && old(current) <= current <= |document|
        invariant goal == current + SkippedTo(document[current..], skipUntilToken)
        decreases |document| - current
      {
        SkippedOnce(document, current, skipUntilToken);
        var skip := ReadToken();
        if skip.kind == skipUntilToken || skip.kind == EndOfStream {
          break;
        }
      }
      errors := errors[..errorCount];
      ok := false;
    }

    /** addErrorAndRecover. */
    method AddErrorAndRecover(message: string, token: Tok, skipUntilToken: Kind) returns (ok: bool)
      requires current <= |document|
      modifies this`current, this`errors
      ensures !ok && OneMore(old(errors), errors)
      ensures old(current) <= current <= |document|
      ensures current == old(current) + SkippedTo(old(Rest()), skipUntilToken)
    {
      hide SkippedTo;
      var added := AddError(message, token, None);
      ok := RecoverFromError(skipUntilToken);
    }

    // ---- Nodes

    /** The path of the node on top of the stack. */
    function Top(): Path
      requires nodes != []
      reads this`nodes
    {
      nodes[|nodes| - 1]
    }

    ghost predicate Ready()
      reads this`document, this`current, this`nodes, this`root
    {
      current <= |document| && nodes != [] && Resolves(root, Top()) && SortedAll(root, Top())
    }

    /** currentValue() = v. */
    method Assign(v: Value)
      requires nodes != [] && Resolves(root, Top()) && SortedAll(root, Top()) && Sorted(Children(v))
      modifies this`root
      ensures root == Put(old(root), Top(), v) && Resolves(root, Top()) && SortedAll(root, Top()) && At(root, Top()) == v
    {
      PutAt(root, Top(), v);
      root := Put(root, Top(), v);
    }

    /** currentValue()[ k ], pushed on the stack: the entry comes to be if it was missing. */
    method PushEntry(k: Key, ghost base: Value, ghost p: Path, ghost c: Value)
      requires nodes != [] && Top() == p && Resolves(base, p) && SortedAll(base, p)
      requires root == Put(base, p, c) && Neat(Children(c)) && (c.Array? || c.Object?)
      modifies this`root, this`nodes
      ensures nodes == old(nodes) + [p + [k]] && Resolves(root, Top()) && SortedAll(root, Top())
      ensures forall w :: Put(root, p + [k], w) == Put(base, p, WithChildren(c, Insert(Children(c), k, w)))
    {
      hide Resolves, SortedAll, Put, At, Touch, Neat, Insert;
      assert Sorted(Children(c)) by { NeatSorted(Children(c)); }
      PutAt(base, p, c);
      ghost var d := WithChildren(c, Touch(Children(c), k));
      var here := At(root, Top());
      Assign(WithChildren(here, Touch(Children(here), k))) by { TouchFacts(Children(c), k, Null); }
      nodes := nodes + [Top() + [k]];
      NeatInsert(Children(c), k, Null);
      NeatSorted(Touch(Children(c), k));
      forall w
        ensures Put(root, p + [k], w) == Put(base, p, WithChildren(c, Insert(Children(c), k, w)))
      {
        TouchFacts(Children(c), k, w);
        PutDeeper(base, p, d, k, w);
        WithTwice(c, Touch(Children(c), k), Insert(Touch(Children(c), k), k, w));
      }
      TouchFacts(Children(c), k, Null);
      PutDeeper(base, p, d, k, Null);
    }

    lemma NeatSorted(m: Entries)
      requires Neat(m)
      ensures Sorted(m) && forall k :: Sorted(Children(Find(m, k)))
    {
    }

    // ---- Numbers and strings

    /** decodeDouble. */
    method DecodeDouble(token: Tok) returns (ok: bool)
      requires Ready() && token.start <= token.end <= |document|
      modifies this`root, this`errors
      ensures Ready()
      ensures var x := scan(document[token.start..token.end]);
        if x.Some? then ok && root == Put(old(root), Top(), Real(x.value)) && errors == old(errors)
        else !ok && root == old(root) && OneMore(old(errors), errors)
    {
      hide Resolves, SortedAll, Put;
      var text := document[token.start..token.end];
      var value := scan(text);
      if value.None? {
        ok := AddError("'" + text + "' is not a number.", token, None);
        return;
      }
      Assign(Real(value.value));
      ok := true;
    }

    /** The loop of decodeNumber that looks for the signs of a double. */
    method IsDouble(token: Tok) returns (isDouble: bool)
      requires token.start <= token.end <= |document|
      ensures isDouble == Fractional(document[token.start..token.end])
    {
      ghost var text := document[token.start..token.end];
      isDouble := false;
      var inspect := token.start;
      while inspect != token.end
        invariant token.start <= inspect <= token.end
        invariant isDouble <==> exists k :: 0 <= k < inspect - token.start && (text[k] in {'.', 'e', 'E', '+'} || (text[k] == '-' && k > 0))
        decreases token.end - inspect
      {
        var c := document[inspect];
        assert c == text[inspect - token.start];
        isDouble := isDouble || c in {'.', 'e', 'E', '+'} || (c == '-' && inspect != token.start);
        inspect := inspect + 1;
      }
    }

    /** The loop of decodeNumber over the digits, in 32-bit arithmetic. */
    method SumDigits(start: nat, end: nat, threshold: nat) returns (tally: Tally)
      requires start <= end <= |document| && 0 < threshold && 10 * threshold <= 0x1_0000_0000
      ensures tally == Accumulate(document[start..end], 0, threshold)
    {
      hide Accumulate;
      var at := start;
      var value: nat := 0;
      ghost var goal := Accumulate(document[start..end], 0, threshold);
      while at < end
        invariant start <= at <= end && value < 10 * threshold
        invariant goal == Accumulate(document[at..end], value, threshold)
      {
        AccumulateAt(document, at, end, value, threshold);
        var c := document[at];
        at := at + 1;
        if !IsDigit(c) {
          return NoDigit;
        }
        if value >= threshold {
          return TooBig;
        }
        value := (value * 10 + (c - '0') as nat) % 0x1_0000_0000;
      }
      AccumulateAt(document, at, end, value, threshold);
      tally := Sum(value);
    }

    lemma AccumulateAt(doc: string, at: nat, end: nat, value: nat, threshold: nat)
      requires at <= end <= |doc|
      ensures at == end ==> Accumulate(doc[at..end], value, threshold) == Sum(value)
      ensures at < end ==>
        (Accumulate(doc[at..end], value, threshold) ==
           if !IsDigit(doc[at]) then NoDigit
           else if value >= threshold then TooBig
           else Accumulate(doc[at + 1..end], value * 10 + (doc[at] - '0') as nat, threshold))
    {
      if at < end { assert doc[at..end][1..] == doc[at + 1..end]; }
    }

    /** decodeNumber. */
    method DecodeNumber(token: Tok) returns (ok: bool)
      requires Ready() && token.start < token.end <= |document|
      modifies this`root, this`errors
      ensures Ready()
      ensures var x := NumberOf(document[token.start..token.end], scan);
        if x.Some? then ok && root == Put(old(root), Top(), x.value) && Sorted(Children(x.value)) && errors == old(errors)
        else !ok && root == old(root) && OneMore(old(errors), errors)
    {
      hide Resolves, SortedAll, Put, Accumulate, Fractional;
      ghost var text := document[token.start..token.end];
      var isDouble := IsDouble(token);
      if isDouble {
        ok := DecodeDouble(token);
        return;
      }
      var at := token.start;
      var isNegative := document[at] == '-';
      assert text[0] == document[at] && text[1..] == document[at + 1..token.end];
      if isNegative {
        at := at + 1;
      }
      // The negative of the smallest int wraps to itself before it is made unsigned
      var threshold := (if isNegative then 0x8000_0000 else MAX_UINT) / 10;
      var tally := SumDigits(at, token.end, threshold);
      if tally.NoDigit? {
        ok := AddError("'" + document[token.start..token.end] + "' is not a number.", token, None);
        return;
      }
      if tally.TooBig? {
        ok := DecodeDouble(token);
        return;
      }
      if isNegative {
        Assign(Int(0 - tally.n));
      } else if tally.n <= MAX_INT {
        Assign(Int(tally.n));
      } else {
        Assign(UInt(tally.n));
      }
      ok := true;
    }

    /** decodeString on the characters between the quotes of a token. */
    method DecodeText(token: Tok) returns (ok: bool, decoded: string)
      requires token.start + 2 <= token.end <= |document|
      modifies this`errors
      ensures var x := StringOf(document[token.start..token.end]);
        if x.Some? then ok && decoded == x.value && errors == old(errors)
        else !ok && OneMore(old(errors), errors)
    {
      hide Unescape;
      ok, decoded := true, "";
      var at := token.start + 1;
      var end := token.end - 1;
      SliceInside(document, token.start, token.end);
      ghost var goal := Unescape(document[at..end]);
      AddedNothing(goal);
      while at != end
        invariant token.start < at <= end && errors == old(errors) && ok
        invariant goal == Prefixed(decoded, Unescape(document[at..end]))
        decreases end - at
      {
        UnescapeAt(document, at, end, decoded);
        var c := document[at];
        at := at + 1;
        if c == '\"' {
          return;
        } else if c == '\\' {
          if at == end {
            ok := AddError("Empty escape sequence in string", token, Some(at));
            return;
          }
          var escape := document[at];
          at := at + 1;
          if escape == 'u' {
            var read: bool;
            read, at := DecodeUnicodeEscapeSequence(token, at, end);
            if !read {
              return false, decoded;
            }
          } else if escape in {'\"', '/', '\\', 'b', 'f', 'n', 'r', 't'} {
            decoded := decoded + [Plain(escape)];
          } else {
            ok := AddError("Bad escape sequence in string", token, Some(at));
            return;
          }
        } else {
          decoded := decoded + [c];
        }
      }
      UnescapeAt(document, at, end, decoded);
    }

    lemma SliceInside(doc: string, start: nat, end: nat)
      requires start + 2 <= end <= |doc|
      ensures doc[start..end][1..end - start - 1] == doc[start + 1..end - 1]
    {
      var s := doc[start..end];
      assert forall k :: 0 <= k < |s| ==> s[k] == doc[start + k];
      assert s[1..end - start - 1] == doc[start + 1..end - 1];
    }

    lemma AddedNothing(r: Option<string>)
      ensures Prefixed("", r) == r
    {
      if r.Some? { assert "" + r.value == r.value; }
    }

    lemma UnescapeAt(doc: string, at: nat, end: nat, done: string)
      requires at <= end <= |doc|
      ensures var r := Prefixed(done, Unescape(doc[at..end]));
        && (at == end || doc[at] == '\"' ==> r == Some(done))
        && (at < end && doc[at] !in {'\"', '\\'} ==> r == Prefixed(done + [doc[at]], Unescape(doc[at + 1..end])))
        && (at < end && doc[at] == '\\' ==>
              && (at + 1 == end ==> r == None)
              && (at + 1 < end ==>
                    var c := doc[at + 1];
                    && (c == 'u' ==>
                          if at + 6 <= end && IsHex(doc[at + 2]) && IsHex(doc[at + 3]) && IsHex(doc[at + 4]) && IsHex(doc[at + 5])
                          then r == Prefixed(done, Unescape(doc[at + 6..end])) else r == None)
                    && (c in {'\"', '/', '\\', 'b', 'f', 'n', 'r', 't'} ==> r == Prefixed(done + [Plain(c)], Unescape(doc[at + 2..end])))
                    && (c !in {'\"', '/', '\\', 'b', 'f', 'n', 'r', 't', 'u'} ==> r == None)))
    {
      var s := doc[at..end];
      if at == end || doc[at] == '\"' {
        assert done + "" == done;
      } else {
        assert s[1..] == doc[at + 1..end];
        if at + 1 < end { assert s[2..] == doc[at + 2..end]; }
        if at + 6 <= end { assert s[6..] == doc[at + 6..end]; }
        var u := Unescape(doc[at + 1..end]);
        if u.Some? { assert done + ([doc[at]] + u.value) == done + [doc[at]] + u.value; }
        if at + 1 < end {
          var w := Unescape(doc[at + 2..end]);
          if w.Some? { assert done + ([Plain(doc[at + 1])] + w.value) == done + [Plain(doc[at + 1])] + w.value; }
        }
      }
    }

    /** decodeUnicodeEscapeSequence; what it decodes is dropped by its caller. */
    method DecodeUnicodeEscapeSequence(token: Tok, start: nat, end: nat) returns (ok: bool, at: nat)
      requires start <= end <= |document|
      modifies this`errors
      ensures ok <==> start + 4 <= end && forall k :: start <= k < start + 4 ==> IsHex(document[k])
      ensures if ok then at == start + 4 && errors == old(errors)
              else OneMore(old(errors), errors)
    {
      at := start;
      if end - start < 4 {
        ok := AddError("Bad unicode escape sequence in string: four digits expected.", token, Some(at));
        return;
      }
      var index := 0;
      while index < 4
        invariant 0 <= index <= 4 && at == start + index && errors == old(errors)
        invariant forall k :: start <= k < at ==> IsHex(document[k])
      {
        var c := document[at];
        at := at + 1;
        if !IsHex(c) {
          ok := AddError("Bad unicode escape sequence in string: hexadecimal digit expected.", token, Some(at));
          assert !IsHex(document[at - 1]);
          return;
        }
        index := index + 1;
      }
      ok := true;
    }

    // ---- Values

    /** What reading a value does: only the node on top of the stack changes, to `w`; the
        stack is as it was; an error is added if and only if the value is not read. */
    twostate predicate Reads(ok: bool, w: Value)
      reads this
    {
      && old(current) <= current <= |document| && document == old(document)
      && nodes == old(nodes) && nodes != []
      && root == Put(old(root), Top(), w) && Sorted(Children(w))
      && (if ok then errors == old(errors) else OneMore(old(errors), errors))
    }

    lemma ItemsAt(at: nat, index: nat, m: Entries)
      requires at <= |document|
      ensures var v, r := JsonParse.ReadValue(document[at..], scan), ReadItems(document[at..], index, m, scan);
        && (v.Fail? ==> r == Fail)
        && (v.Ok? ==>
              && at + v.used <= |document|
              && var t := Lex(document[at + v.used..]);
                 var n := Insert(m, Index(index), v.v);
                 && (t.kind == ArrayEnd ==> r == Ok(Array(n), v.used + t.end))
                 && (t.kind == Comma ==> r == ReadItems(document[at + v.used + t.end..], index + 1, n, scan).Shift(v.used + t.end))
                 && (t.kind != ArrayEnd && t.kind != Comma ==> r == Fail))
    {
      hide Lex, ReadItems, Insert;
      var s := document[at..];
      ReadItemsCases(s, index, m, scan);
      var v := JsonParse.ReadValue(s, scan);
      if v.Ok? {
        assert s[v.used..] == document[at + v.used..];
        var t := Lex(s[v.used..]);
        assert s[v.used + t.end..] == document[at + v.used + t.end..];
      }
    }

    /** readArray. */
    method ReadArray() returns (ok: bool, ghost w: Value)
      requires Ready()
      modifies this`current, this`nodes, this`errors, this`root
      ensures Reads(ok, w)
      ensures var r := JsonParse.ReadArray(old(Rest()), scan);
        (ok <==> r.Ok?) && (ok ==> w == r.v && current == old(current) + r.used)
      decreases |document| - current, 4
    {
      hide Resolves, SortedAll, Put, Run, Lex, ReadItems, Neat, Insert, JsonParse.ReadValue, JsonParse.ReadArray, OneMore;
      ghost var base, p := root, Top();
      ArrayAt(current);
      Assign(Array(Nil));
      SkipSpaces();
      w := Array(Nil);
      if current < |document| && document[current] == ']' {
        LexBracket(current);
        var endArray := ReadToken();
        return true, w;
      }
      NeatNothing();
      ghost var m;
      ok, m := ReadElements(base, p);
      NeatSorted(m);
      w := Array(m);
    }

    lemma ArrayAt(at: nat)
      requires at <= |document|
      ensures var k := Run(document[at..], SPACE);
        && at + k <= |document|
        && JsonParse.ReadArray(document[at..], scan) ==
             (if at + k < |document| && document[at + k] == ']' then Ok(Array(Nil), k + 1)
              else ReadItems(document[at + k..], 0, Nil, scan).Shift(k))
    {
      hide Run, ReadItems;
      var s := document[at..];
      var k := Run(s, SPACE);
      assert s[k..] == document[at + k..];
      assert forall i :: 0 <= i < |s| ==> s[i] == document[at + i];
    }

    /** The loop of readArray. */
    method ReadElements(ghost base: Value, ghost p: Path) returns (ok: bool, ghost m: Entries)
      requires current <= |document| && nodes != [] && Top() == p && Resolves(base, p) && SortedAll(base, p)
      requires root == Put(base, p, Array(Nil)) && Neat(Nil)
      modifies this`current, this`nodes, this`errors, this`root
      ensures old(current) <= current <= |document| && nodes == old(nodes) && root == Put(base, p, Array(m)) && Neat(m)
      ensures if ok then errors == old(errors) else OneMore(old(errors), errors)
      ensures var r := ReadItems(old(Rest()), 0, Nil, scan);
        (ok <==> r.Ok?) && (ok ==> r == Ok(Array(m), current - old(current)))
      decreases |document| - current, 3, 2
    {
      hide Resolves, SortedAll, Put, ReadItems, Neat, OneMore;
      var index := 0;
      m := Nil;
      ghost var from := current;
      ghost var goal := ReadItems(document[current..], 0, Nil, scan);
      while true
        invariant from <= current <= |document| && nodes == old(nodes) && errors == old(errors)
        invariant root == Put(base, p, Array(m)) && Neat(m)
        invariant goal == ReadItems(document[current..], index, m, scan).Shift(current - from)
        decreases |document| - current
      {
        var progress: Progress;
        progress, m := ReadItem(index, base, p, m);
        if !progress.More? {
          return progress.Finished?, m;
        }
        index := index + 1;
      }
    }

    /** Reading the value of an entry of the container on top of the stack: the entry is
        pushed, read and popped. */
    method ReadEntry(k: Key, ghost base: Value, ghost p: Path, ghost c: Value) returns (ok: bool, ghost n: Entries)
      requires current <= |document| && nodes != [] && Top() == p && Resolves(base, p) && SortedAll(base, p)
      requires root == Put(base, p, c) && Neat(Children(c)) && (c.Array? || c.Object?)
      modifies this`current, this`nodes, this`errors, this`root
      ensures old(current) <= current <= |document| && nodes == old(nodes) && root == Put(base, p, WithChildren(c, n)) && Neat(n)
      ensures if ok then errors == old(errors) else OneMore(old(errors), errors)
      ensures var r := JsonParse.ReadValue(old(Rest()), scan);
        (ok <==> r.Ok?) && (ok ==> n == Insert(Children(c), k, r.v) && current == old(current) + r.used)
      decreases |document| - current, 3, 0
    {
      hide Resolves, SortedAll, Put, Neat, Insert, JsonParse.ReadValue, OneMore;
      PushEntry(k, base, p, c);
      ghost var v: Value;
      ok, v := ReadValue();
      nodes := nodes[..|nodes| - 1];
      NeatInsert(Children(c), k, v);
      n := Insert(Children(c), k, v);
    }

    /** The body of the loop of readArray. */
    method ReadItem(index: nat, ghost base: Value, ghost p: Path, ghost m: Entries) returns (progress: Progress, ghost n: Entries)
      requires current <= |document| && nodes != [] && Top() == p && Resolves(base, p) && SortedAll(base, p)
      requires root == Put(base, p, Array(m)) && Neat(m)
      modifies this`current, this`nodes, this`errors, this`root
      ensures old(current) <= current <= |document| && nodes == old(nodes) && root == Put(base, p, Array(n)) && Neat(n)
      ensures if progress.Failed? then OneMore(old(errors), errors) else errors == old(errors)
      ensures var r := ReadItems(old(Rest()), index, m, scan);
        && (progress.Failed? ==> r == Fail)
        && (progress.Finished? ==> r == Ok(Array(n), current - old(current)))
        && (progress.More? ==> old(current) < current && r == ReadItems(Rest(), index + 1, n, scan).Shift(current - old(current)))
      decreases |document| - current, 3, 1
    {
      hide Resolves, SortedAll, Put, Lex, ReadItems, Neat, Insert, JsonParse.ReadValue, SkippedTo, OneMore;
      ItemsAt(current, index, m);
      var ok: bool;
      ok, n := ReadEntry(Index(index), base, p, Array(m));
      if !ok {
        var failed := RecoverFromError(ArrayEnd);
        return Failed, n;
      }
      var token := ReadToken();
      if token.kind != Comma && token.kind != ArrayEnd {
        var failed := AddErrorAndRecover("Missing ',' or ']' in array declaration", token, ArrayEnd);
        return Failed, n;
      }
      progress := if token.kind == ArrayEnd then Finished else More;
    }

    lemma NeatNothing()
      ensures Neat(Nil)
    {
    }

    lemma LexBracket(at: nat)
      requires at < |document| && document[at] == ']'
      ensures Lex(document[at..]) == Tok(ArrayEnd, 0, 1)
    {
      RunIs(document[at..], SPACE, 0);
      assert document[at..][0..] == document[at..];
    }

    lemma MemberAt(at: nat, name: string, m: Entries)
      requires at <= |document|
      ensures var colon, r := Lex(document[at..]), ReadMember(document[at..], name, m, scan);
        var v := JsonParse.ReadValue(document[at + colon.end..], scan);
        && (colon.kind != Colon || v.Fail? ==> r == Fail)
        && (colon.kind == Colon && v.Ok? ==>
              var to := at + colon.end + v.used;
              to <= |document| && r == ReadOn(document[to..], name, Insert(m, Name(CStr(name)), v.v), scan).Shift(to - at))
    {
      hide Lex, ReadOn, Insert, CStr, JsonParse.ReadValue;
      var s := document[at..];
      var colon := Lex(s);
      assert s[colon.end..] == document[at + colon.end..];
      var v := JsonParse.ReadValue(s[colon.end..], scan);
      if v.Ok? { assert s[colon.end + v.used..] == document[at + (colon.end + v.used)..]; }
    }

    lemma OnAt(at: nat, name: string, m: Entries)
      requires at <= |document|
      ensures var comma, r := Lex(document[at..]), ReadOn(document[at..], name, m, scan);
        && at + comma.end <= |document|
        && var next := if comma.kind == Comment then NextToken(document[at + comma.end..]).Shift(comma.end) else comma;
           && at + next.end <= |document|
           && (comma.kind !in {ObjectEnd, Comma, Comment} ==> r == Fail)
           && (comma.kind in {ObjectEnd, Comma, Comment} ==>
                 r == if next.kind == ObjectEnd then Ok(Object(m), next.end)
                      else ReadMembers(document[at + next.end..], name, m, scan).Shift(next.end))
    {
      hide Lex, NextToken, ReadMembers;
      var s := document[at..];
      var comma := Lex(s);
      assert s[comma.end..] == document[at + comma.end..];
      var next := if comma.kind == Comment then NextToken(s[comma.end..]).Shift(comma.end) else comma;
      assert s[next.end..] == document[at + next.end..];
    }

    /** The part of readObject from the ':' of a member on. */
    method ReadMemberValue(name: string, ghost base: Value, ghost p: Path, ghost m: Entries) returns (progress: Progress, ghost n: Entries)
      requires current <= |document| && nodes != [] && Top() == p && Resolves(base, p) && SortedAll(base, p)
      requires root == Put(base, p, Object(m)) && Neat(m)
      modifies this`current, this`nodes, this`errors, this`root
      ensures old(current) <= current <= |document| && nodes == old(nodes) && root == Put(base, p, Object(n)) && Neat(n)
      ensures if progress.Failed? then OneMore(old(errors), errors) else errors == old(errors)
      ensures var r := ReadMember(old(Rest()), name, m, scan);
        && (progress.Failed? ==> r == Fail)
        && (progress.Finished? ==> r == Ok(Object(n), current - old(current)))
        && (progress.More? ==> old(current) < current && r == ReadMembers(Rest(), name, n, scan).Shift(current - old(current)))
      decreases |document| - current, 3, 1
    {
      hide Resolves, SortedAll, Put, Lex, NextToken, ReadMember, ReadMembers, ReadOn, Neat, Insert, CStr, JsonParse.ReadValue, SkippedTo, OneMore;
      ghost var at := current;
      MemberAt(at, name, m);
      n := m;
      var colon := ReadToken();
      if colon.kind != Colon {
        var failed := AddErrorAndRecover("Missing ':' after object member name", colon, ObjectEnd);
        return Failed, n;
      }
      var ok: bool;
      ok, n := ReadEntry(Name(CStr(name)), base, p, Object(m));
      if !ok {
        var failed := RecoverFromError(ObjectEnd);
        return Failed, n;
      }
      ghost var to := current;
      assert ReadMember(document[at..], name, m, scan) == ReadOn(document[to..], name, n, scan).Shift(to - at);
      progress := ReadSeparator(name, n);
    }

    /** The part of readObject after the value of a member, as it goes on. */
    method ReadSeparator(ghost name: string, ghost n: Entries) returns (progress: Progress)
      requires current <= |document|
      modifies this`current, this`errors
      ensures old(current) <= current <= |document|
      ensures if progress.Failed? then OneMore(old(errors), errors) else errors == old(errors)
      ensures var r := ReadOn(old(Rest()), name, n, scan);
        && (progress.Failed? ==> r == Fail)
        && (progress.Finished? ==> r == Ok(Object(n), current - old(current)))
        && (progress.More? ==> old(current) < current && r == ReadMembers(Rest(), name, n, scan).Shift(current - old(current)))
    {
      hide Lex, NextToken, ReadOn, ReadMembers, OneMore;
      OnAt(current, name, n);
      progress := ReadComma();
    }

    /** The part of readObject after the value of a member.  A comment in front of the comma
        or the brace makes any token behind it pass for a comma. */
    method ReadComma() returns (progress: Progress)
      requires current <= |document|
      modifies this`current, this`errors
      ensures old(current) <= current <= |document|
      ensures var comma := Lex(old(Rest()));
        && old(current) + comma.end <= |document|
        && var next := if comma.kind == Comment then NextToken(document[old(current) + comma.end..]).Shift(comma.end) else comma;
           if comma.kind !in {ObjectEnd, Comma, Comment} then
             progress.Failed? && OneMore(old(errors), errors)
           else
             && errors == old(errors) && current == old(current) + next.end && old(current) < current
             && progress == (if next.kind == ObjectEnd then Finished else More)
    {
      hide Lex, NextToken;
      var comma := ReadToken();
      if comma.kind != ObjectEnd && comma.kind != Comma && comma.kind != Comment {
        var failed := AddErrorAndRecover("Missing ',' or '}' in object declaration", comma, ObjectEnd);
        return Failed;
      }
      if comma.kind == Comment {
        comma := SkipCommentTokens();
      }
      progress := if comma.kind == ObjectEnd then Finished else More;
    }

    lemma MembersAt(at: nat, name: string, m: Entries)
      requires at <= |document|
      ensures var t, r := NextToken(document[at..]), ReadMembers(document[at..], name, m, scan);
        && at + t.end <= |document|
        && (t.kind == ObjectEnd && name == "" ==> r == Ok(Object(m), t.end))
        && (!(t.kind == ObjectEnd && name == "") && t.kind != StringToken ==> r == Fail)
        && (t.kind == StringToken ==>
              && t.start + 2 <= t.end
              && var x := StringOf(document[at + t.start..at + t.end]);
                 && (x.None? ==> r == Fail)
                 && (x.Some? ==> r == ReadMember(document[at + t.end..], x.value, m, scan).Shift(t.end)))
    {
      hide NextToken, ReadMember, ReadMembers, StringOf;
      var s := document[at..];
      ReadMembersCases(s, name, m, scan);
      var t := NextToken(s);
      assert s[t.end..] == document[at + t.end..];
      assert s[t.start..t.end] == document[at + t.start..at + t.end];
    }

    /** One turn of the loop of readObject. */
    method ReadNextMember(name: string, ghost base: Value, ghost p: Path, ghost m: Entries)
      returns (progress: Progress, next: string, ghost n: Entries)
      requires current <= |document| && nodes != [] && Top() == p && Resolves(base, p) && SortedAll(base, p)
      requires root == Put(base, p, Object(m)) && Neat(m)
      modifies this`current, this`nodes, this`errors, this`root
      ensures old(current) <= current <= |document| && nodes == old(nodes) && root == Put(base, p, Object(n)) && Neat(n)
      ensures if progress.Failed? then OneMore(old(errors), errors) else errors == old(errors)
      ensures var r := ReadMembers(old(Rest()), name, m, scan);
        && (progress.Failed? ==> r == Fail)
        && (progress.Finished? ==> r == Ok(Object(n), current - old(current)))
        && (progress.More? ==> old(current) < current && r == ReadMembers(Rest(), next, n, scan).Shift(current - old(current)))
      decreases |document| - current, 3, 2
    {
      hide Resolves, SortedAll, Put, NextToken, ReadMember, ReadMembers, Neat, StringOf, SkippedTo, OneMore;
      MembersAt(current, name, m);
      next, n := name, m;
      var ok: bool;
      var tokenName := SkipCommentTokens();
      if tokenName.kind == ObjectEnd && name == "" {
        return Finished, next, n;
      }
      if tokenName.kind != StringToken {
        ok := AddErrorAndRecover("Missing '}' or object member name", tokenName, ObjectEnd);
        return Failed, next, n;
      }
      ok, next := DecodeText(tokenName);
      if !ok {
        ok := RecoverFromError(ObjectEnd);
        return Failed, next, n;
      }
      progress, n := ReadMemberValue(next, base, p, m);
    }

    /** readObject. */
    method ReadObject() returns (ok: bool, ghost w: Value)
      requires Ready()
      modifies this`current, this`nodes, this`errors, this`root
      ensures Reads(ok, w)
      ensures var r := ReadMembers(old(Rest()), "", Nil, scan);
        (ok <==> r.Ok?) && (ok ==> w == r.v && current == old(current) + r.used)
      decreases |document| - current, 4
    {
      hide Resolves, SortedAll, Put, ReadMembers, Neat, OneMore;
      ghost var base, p, from := root, Top(), current;
      Assign(Object(Nil));
      var name := "";
      ghost var m := Nil;
      NeatNothing();
      ghost var goal := ReadMembers(document[from..], "", Nil, scan);
      while true
        invariant from <= current <= |document| && nodes == old(nodes) && errors == old(errors)
        invariant root == Put(base, p, Object(m)) && Neat(m)
        invariant goal == ReadMembers(document[current..], name, m, scan).Shift(current - from)
        decreases |document| - current
      {
        var progress: Progress;
        progress, name, m := ReadNextMember(name, base, p, m);
        if !progress.More? {
          NeatSorted(m);
          w := Object(m);
          return progress.Finished?, w;
        }
      }
    }

    lemma ValueAt(at: nat)
      requires at <= |document|
      ensures var t, r := NextToken(document[at..]), JsonParse.ReadValue(document[at..], scan);
        && at + t.end <= |document|
        && (t.kind == ObjectBegin ==> r == ReadMembers(document[at + t.end..], "", Nil, scan).Shift(t.end))
        && (t.kind == ArrayBegin ==> r == JsonParse.ReadArray(document[at + t.end..], scan).Shift(t.end))
        && (t.kind != ObjectBegin && t.kind != ArrayBegin ==>
              var v := ScalarOf(t.Shift(at)); r == (if v.Some? then Ok(v.value, t.end) else Fail))
    {
      hide NextToken, ReadMembers, JsonParse.ReadArray, NumberOf, StringOf, JsonParse.ReadValue;
      var s := document[at..];
      ReadValueCases(s, scan);
      var t := NextToken(s);
      assert s[t.end..] == document[at + t.end..];
      assert s[t.start..t.end] == document[at + t.start..at + t.end];
    }

    /** readValue. */
    method ReadValue() returns (ok: bool, ghost w: Value)
      requires Ready()
      modifies this`current, this`nodes, this`errors, this`root
      ensures Reads(ok, w)
      ensures var r := JsonParse.ReadValue(old(Rest()), scan);
        (ok <==> r.Ok?) && (ok ==> w == r.v && current == old(current) + r.used)
      decreases |document| - current, 2
    {
      hide Resolves, SortedAll, Put, NextToken, ReadMembers, NumberOf, StringOf, CStr, At, ScalarOf, JsonParse.ReadArray, JsonParse.ReadValue, OneMore;
      ValueAt(current);
      var token := SkipCommentTokens();
      if token.kind == ObjectBegin {
        ok, w := ReadObject();
      } else if token.kind == ArrayBegin {
        ok, w := ReadArray();
      } else {
        ok, w := ReadScalar(token);
      }
    }

    /** What readValue makes of a token that begins no object and no array. */
    function ScalarOf(token: Tok): Option<Value>
      requires token.start <= token.end <= |document| && (token.kind == StringToken ==> token.start + 2 <= token.end)
      reads this`document
    {
      var text := document[token.start..token.end];
      match token.kind
      case NumberToken => NumberOf(text, scan)
      case StringToken => if StringOf(text).Some? then Some(Text(CStr(StringOf(text).value))) else None
      case TrueToken => Some(Bool(true))
      case FalseToken => Some(Bool(false))
      case NullToken => Some(Null)
      case _ => None
    }

    /** The other cases of readValue. */
    method ReadScalar(token: Tok) returns (ok: bool, ghost w: Value)
      requires Ready() && token.start <= token.end <= |document| && (token.kind == StringToken ==> token.start + 2 <= token.end)
      requires token.kind == NumberToken ==> token.start < token.end
      modifies this`errors, this`root
      ensures Reads(ok, w) && (ok <==> ScalarOf(token).Some?) && (ok ==> w == ScalarOf(token).value)
    {
      hide Resolves, SortedAll, Put, NumberOf, StringOf, CStr, At, Sorted, Children, OneMore;
      PutSame(root, Top());
      w := At(root, Top());
      ghost var r := ScalarOf(token);
      ok := true;
      if token.kind == NumberToken {
        ok := DecodeNumber(token);
        w := if r.Some? then r.value else w;
      } else if token.kind == StringToken {
        var decoded: string;
        ok, decoded := DecodeText(token);
        if ok { w := AssignScalar(Text(CStr(decoded))); }
      } else if token.kind in {TrueToken, FalseToken, NullToken} {
        w := AssignScalar(if token.kind == NullToken then Null else Bool(token.kind == TrueToken));
      } else {
        ok := AddError("Syntax error: value, object or array expected.", token, None);
      }
    }

    method AssignScalar(v: Value) returns (ghost w: Value)
      requires nodes != [] && Resolves(root, Top()) && SortedAll(root, Top()) && !v.Array? && !v.Object?
      modifies this`root
      ensures w == v && root == Put(old(root), Top(), v) && Sorted(Children(v))
    {
      hide Resolves, SortedAll, Put, At;
      Assign(v);
      w := v;
    }

    /** parse: it comes to an end on every document, and succeeds exactly if it leaves no
        error; otherwise it leaves exactly one. */
    method Parse(doc: string, value: Value) returns (successful: bool)
      requires Sorted(Children(value))
      modifies this
      ensures successful <==> errors == []
      ensures !successful <==> |errors| == 1
      ensures nodes == [[]] && current <= |document| == |doc|
      ensures var r := JsonParse.ReadValue(doc, scan);
        (successful <==> r.Ok?) && (successful ==> root == r.v)
    {
      hide NextToken, JsonParse.ReadValue;
      document := doc;
      root := value;
      current := 0;
      errors := [];
      nodes := [[]];
      assert doc[0..] == doc;
      ghost var w: Value;
      successful, w := ReadValue();
      var token := SkipCommentTokens();
    }
  }
}
