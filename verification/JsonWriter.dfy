/** The writers of json_writer.cpp, proved against the functions of JsonPrint. */
module JsonWriter {
  import opened JsonValue
  import opened JsonLex
  import opened JsonParse
  import opened JsonPrint

  // ---- Numbers

  lemma {:induction false} DigitsWidth(n: nat, k: nat, bound: nat)
    requires k > 0 && n < bound && bound == Power10(k)
    ensures |Digits(n)| <= k
    decreases k
  {
    assert Power10(0) == 1 && Power10(1) == 10;
    if n >= 10 {
      DigitsWidth(n / 10, k - 1, Power10(k - 1));
    }
  }

  function Power10(k: nat): nat {
    if k == 0 then 1 else 10 * Power10(k - 1)
  }

  lemma UIntWidth(n: nat)
    requires n <= MAX_UINT
    ensures |Digits(n)| <= 10
  {
    assert Power10(2) == 100 && Power10(4) == 10000 && Power10(6) == 1000000 && Power10(8) == 100000000;
    assert Power10(10) == 10000000000;
    DigitsWidth(n, 10, Power10(10));
  }

  /** uintToString: the digits go into the buffer from its end. */
  method UintToString(value: nat, buffer: array<char>, end: nat) returns (current: nat)
    requires value <= MAX_UINT && 12 <= end == buffer.Length
    modifies buffer
    ensures 0 < current < end - 1 && buffer[end - 1] == '\0' && buffer[current..end - 1] == Digits(value)
  {
    UIntWidth(value);
    var rest := value;
    current := end - 1;
    buffer[current] := '\0';
    while true
      invariant |Digits(rest)| + (end - 1 - current) <= 10 && current <= end - 1 && buffer[end - 1] == '\0'
      invariant Digits(value) == Digits(rest) + buffer[current..end - 1]
      decreases rest
    {
      ghost var tail := buffer[current..end - 1];
      current := current - 1;
      buffer[current] := Digit(rest % 10);
      assert buffer[current..end - 1] == [Digit(rest % 10)] + tail;
      rest := rest / 10;
      if rest == 0 {
        break;
      }
    }
  }

  /** The conversion of an int to an unsigned int. */
  function ToUInt(i: int): nat { i % 0x1_0000_0000 }

  /** The negative of an int, which wraps at the smallest one. */
  function Negated(i: int): int { if i == MIN_INT then MIN_INT else -i }

  /** valueToString of an int. */
  method IntToString(i: int) returns (text: string)
    requires MIN_INT <= i <= MAX_INT
    ensures text == IntText(i)
  {
    var buffer := new char[32];
    var value := i;
    var isNegative := value < 0;
    if isNegative {
      value := Negated(value);
    }
    assert ToUInt(value) == if i < 0 then -i else i;
    var current := UintToString(ToUInt(value), buffer, 32);
    if isNegative {
      ghost var digits := buffer[current..31];
      current := current - 1;
      buffer[current] := '-';
      assert buffer[current..31] == "-" + digits;
    }
    text := buffer[current..31];
  }

  /** valueToString of an unsigned int. */
  method UIntValueToString(u: int) returns (text: string)
    requires 0 <= u <= MAX_UINT
    ensures text == IntText(u)
  {
    var buffer := new char[32];
    var current := UintToString(u, buffer, 32);
    text := buffer[current..31];
  }

  // ---- Strings

  lemma {:induction false} EscapedPlain(s: string)
    requires forall k :: 0 <= k < |s| ==> s[k] !in SPECIAL
    ensures Escaped(s) == s
  {
    if s != "" {
      EscapedPlain(s[1..]);
      assert s == [s[0]] + s[1..];
    }
  }

  lemma {:induction false} EscapedJoin(a: string, b: string)
    ensures Escaped(a + b) == Escaped(a) + Escaped(b)
  {
    hide Escape;
    if a == "" {
      assert a + b == b;
    } else {
      assert (a + b)[1..] == a[1..] + b;
      EscapedJoin(a[1..], b);
      assert Escape(a[0]) + (Escaped(a[1..]) + Escaped(b)) == Escape(a[0]) + Escaped(a[1..]) + Escaped(b);
    }
  }

  lemma EscapedStep(s: string, k: nat)
    requires k < |s|
    ensures Escaped(s[..k + 1]) == Escaped(s[..k]) + Escape(s[k])
    ensures "\"" + Escaped(s[..k + 1]) == "\"" + Escaped(s[..k]) + Escape(s[k])
  {
    hide Escape;
    assert s[..k + 1] == s[..k] + [s[k]];
    EscapedJoin(s[..k], [s[k]]);
    assert [s[k]][1..] == "";
    assert Escape(s[k]) + "" == Escape(s[k]);
  }

  lemma EscapedNone(s: string)
    ensures "\"" + Escaped(s[..0]) == "\""
  {
  }

  /** strpbrk: whether the string holds a character that is escaped. */
  method HasSpecial(value: string) returns (found: bool)
    ensures found <==> exists k :: 0 <= k < |value| && value[k] in SPECIAL
  {
    var c := 0;
    while c < |value|
      invariant 0 <= c <= |value|
      invariant forall k :: 0 <= k < c ==> value[k] !in SPECIAL
    {
      if value[c] in SPECIAL {
        return true;
      }
      c := c + 1;
    }
    found := false;
  }

  /** valueToQuotedString. */
  method QuoteString(value: string) returns (result: string)
    requires NulFree(value)
    ensures result == Quote(value)
  {
    var special := HasSpecial(value);
    if !special {
      EscapedPlain(value);
      return "\"" + value + "\"";
    }
    hide Escaped;
    result := "\"";
    var c := 0;
    EscapedNone(value);
    while c < |value|
      invariant 0 <= c <= |value|
      invariant result == "\"" + Escaped(value[..c])
    {
      EscapedStep(value, c);
      if value[c] == '\"' {
        result := result + "\\\"";
      } else if value[c] == '\\' {
        result := result + "\\\\";
      } else if value[c] == BACKSPACE {
        result := result + "\\b";
      } else if value[c] == FORMFEED {
        result := result + "\\f";
      } else if value[c] == '\n' {
        result := result + "\\n";
      } else if value[c] == '\r' {
        result := result + "\\r";
      } else if value[c] == '\t' {
        result := result + "\\t";
      } else {
        result := result + [value[c]];
      }
      c := c + 1;
    }
    assert value[..c] == value;
    result := result + "\"";
  }

  // ---- Members

  /** `n` is `m` from some entry on. */
  predicate Suffix(m: Entries, n: Entries) {
    m == n || (m.Entry? && Suffix(m.rest, n))
  }

  lemma {:induction false} SuffixFacts(m: Entries, n: Entries, indexed: bool)
    requires Suffix(m, n) && n.Entry? && Sorted(m) && ValidEntries(m, indexed) && PrintableEntries(m)
    ensures Suffix(m, n.rest) && Find(m, n.key) == n.value && Has(m, n.key) && Weight(n.value) < WeightOf(m)
    ensures n.key.Index? == indexed && (n.key.Name? ==> NulFree(n.key.s)) && Valid(n.value) && Printable(n.value)
    decreases m
  {
    hide KeyLess;
    if m != n {
      SuffixFacts(m.rest, n, indexed);
      SortedBelow(m, n.key);
    }
  }

  /** getMemberNames. */
  function Names(m: Entries): seq<string> {
    if m.Nil? then [] else [if m.key.Name? then m.key.s else ""] + Names(m.rest)
  }

  method MemberNames(o: Entries) returns (members: seq<string>)
    ensures members == Names(o)
  {
    members := [];
    var it := o;
    while it.Entry?
      invariant Names(o) == members + Names(it)
      decreases it
    {
      members := members + [if it.key.Name? then it.key.s else ""];
      it := it.rest;
    }
  }

  // ---- FastWriter

  class FastWriter {
    var document: string
    var yamlCompatiblityEnabled: bool
    const show: Printer

    constructor (show: Printer)
      ensures !yamlCompatiblityEnabled && this.show == show
    {
      document := "";
      yamlCompatiblityEnabled := false;
      this.show := show;
    }

    /** enableYAMLCompatibility. */
    method EnableYAMLCompatibility()
      modifies this`yamlCompatiblityEnabled
      ensures yamlCompatiblityEnabled
    {
      yamlCompatiblityEnabled := true;
    }

    method Write(root: Value) returns (text: string)
      requires Valid(root) && Printable(root)
      modifies this`document
      ensures text == document == FastDocument(root, yamlCompatiblityEnabled, show)
    {
      hide Valid, Printable, FastText;
      document := "";
      WriteValue(root);
      assert "" + FastText(root, yamlCompatiblityEnabled, show) == FastText(root, yamlCompatiblityEnabled, show);
      document := document + "\n";
      text := document;
    }

    method WriteValue(value: Value)
      requires Valid(value) && Printable(value)
      modifies this`document
      ensures document == old(document) + FastText(value, yamlCompatiblityEnabled, show)
      decreases Weight(value), 1
    {
      hide FastItems, FastMembers, Quote, IntText, ValidEntries, PrintableEntries, NulFree;
      match value {
        case Null => document := document + "null";
        case Int(i) =>
          var t := IntToString(i);
          document := document + t;
        case UInt(u) =>
          var t := UIntValueToString(u);
          document := document + t;
        case Real(x) => document := document + show(x);
        case Text(s) =>
          var t := QuoteString(s);
          document := document + t;
        case Bool(b) => document := document + (if b then "true" else "false");
        case Array(a) => WriteItems(a);
        case Object(o) => WriteMembers(o);
      }
    }

    /** The array case of writeValue. */
    method WriteItems(a: Entries)
      requires Valid(Array(a)) && PrintableEntries(a)
      modifies this`document
      ensures document == old(document) + ("[" + (FastItems(a, 0, yamlCompatiblityEnabled, show) + "]"))
      decreases WeightOf(a), 2
    {
      hide FastItems, FastText, Printable;
      document := document + "[";
      var size := ArraySize(a);
      var index := 0;
      ghost var head := document;
      ghost var all := FastItems(a, 0, yamlCompatiblityEnabled, show);
      while index < size
        invariant 0 <= index <= size
        invariant document + FastItems(a, index, yamlCompatiblityEnabled, show) == head + all
      {
        FastItemsOnce(a, index, yamlCompatiblityEnabled, show);
        FindWeight(a, Index(index));
        FoundIsFine(a, Index(index), true);
        ghost var d := document;
        if index > 0 {
          document := document + ",";
        }
        WriteValue(Find(a, Index(index)));
        Appended(d, if index > 0 then "," else "", FastText(Find(a, Index(index)), yamlCompatiblityEnabled, show), FastItems(a, index + 1, yamlCompatiblityEnabled, show));
        index := index + 1;
      }
      FastItemsOnce(a, index, yamlCompatiblityEnabled, show);
      document := document + "]";
      assert head + all + "]" == old(document) + ("[" + (all + "]"));
    }

    lemma Appended(d: string, p: string, t: string, r: string)
      ensures d + p + t + r == d + (p + (t + r)) && d + "" == d
    {
    }

    lemma FastItemsOnce(m: Entries, i: nat, yaml: bool, show: Printer)
      ensures FastItems(m, i, yaml, show) == if i >= ArraySize(m) then ""
        else (if i > 0 then "," else "") + (FastText(Find(m, Index(i)), yaml, show) + FastItems(m, i + 1, yaml, show))
    {
    }

    /** The object case of writeValue. */
    method WriteMembers(o: Entries)
      requires Valid(Object(o)) && PrintableEntries(o)
      modifies this`document
      ensures document == old(document) + ("{" + (FastMembers(o, true, yamlCompatiblityEnabled, show) + "}"))
      decreases WeightOf(o), 2
    {
      hide FastMembers, FastText, Printable, Sorted, ValidEntries, PrintableEntries, Quote, NulFree;
      var members := MemberNames(o);
      document := document + "{";
      var it := 0;
      ghost var left := o;
      ghost var head := document;
      ghost var all := FastMembers(o, true, yamlCompatiblityEnabled, show);
      while it < |members|
        invariant 0 <= it <= |members| && members[it..] == Names(left) && Suffix(o, left)
        invariant document + FastMembers(left, it == 0, yamlCompatiblityEnabled, show) == head + all
      {
        var name := members[it];
        assert members[it..][1..] == members[it + 1..];
        SuffixFacts(o, left, false);
        FastMembersOnce(left, it == 0, yamlCompatiblityEnabled, show);
        ghost var d := document;
        if it != 0 {
          document := document + ",";
        }
        var quoted := QuoteString(name);
        document := document + quoted;
        document := document + (if yamlCompatiblityEnabled then ": " else ":");
        WriteValue(Find(o, Name(name)));
        Appended5(d, if it == 0 then "" else ",", quoted, if yamlCompatiblityEnabled then ": " else ":",
                  FastText(left.value, yamlCompatiblityEnabled, show), FastMembers(left.rest, false, yamlCompatiblityEnabled, show));
        left := left.rest;
        it := it + 1;
      }
      FastMembersOnce(left, it == 0, yamlCompatiblityEnabled, show);
      document := document + "}";
      assert head + all + "}" == old(document) + ("{" + (all + "}"));
    }

    lemma Appended5(d: string, p: string, q: string, c: string, t: string, r: string)
      ensures d + p + q + c + t + r == d + (p + (q + (c + (t + r)))) && d + "" == d
    {
    }

    lemma FastMembersOnce(m: Entries, first: bool, yaml: bool, show: Printer)
      ensures m.Nil? ==> FastMembers(m, first, yaml, show) == ""
      ensures m.Entry? && m.key.Name? ==>
        FastMembers(m, first, yaml, show) == (if first then "" else ",")
          + (Quote(m.key.s) + ((if yaml then ": " else ":") + (FastText(m.value, yaml, show) + FastMembers(m.rest, false, yaml, show))))
    {
    }
  }

  // ---- StyledWriter

  /** What isMultineArray pushes for the elements of an array of simple values. */
  function Singles(m: Entries, n: nat, show: Printer): (s: seq<string>)
    ensures |s| == n && forall i :: 0 <= i < n ==> s[i] == Single(Find(m, Index(i)), show)
  {
    seq(n, i requires 0 <= i => Single(Find(m, Index(i)), show))
  }

  class StyledWriter {
    var document: string
    var indentString: string
    var childValues: seq<string>
    var addChildValues: bool
    const show: Printer

    constructor (show: Printer)
      ensures this.show == show
    {
      document, indentString, childValues, addChildValues := "", "", [], false;
      this.show := show;
    }

    method Write(root: Value) returns (text: string)
      requires Valid(root) && Printable(root)
      modifies this
      ensures text == StyledDocument(root, show)
    {
      hide Valid, Printable, Styled;
      document := "";
      addChildValues := false;
      indentString := "";
      WriteValue(root);
      document := document + "\n";
      text := document;
    }

    /** pushValue. */
    method PushValue(value: string)
      modifies this`document, this`childValues
      ensures if addChildValues then childValues == old(childValues) + [value] && document == old(document)
              else document == old(document) + value && childValues == old(childValues)
    {
      if addChildValues {
        childValues := childValues + [value];
      } else {
        document := document + value;
      }
    }

    /** writeIndent. */
    method WriteIndent()
      modifies this`document
      ensures document == Indented(old(document), indentString)
    {
      if document != "" {
        var last := document[|document| - 1];
        if last == ' ' {
          return;
        }
        if last != '\n' {
          document := document + "\n";
        }
      }
      document := document + indentString;
    }

    /** writeWithIndent. */
    method WriteWithIndent(value: string)
      modifies this`document
      ensures document == Indented(old(document), indentString) + value
    {
      hide Indented;
      WriteIndent();
      document := document + value;
    }

    /** indent. */
    method Indent()
      modifies this`indentString
      ensures indentString == old(indentString) + INDENT
    {
      indentString := indentString + INDENT;
    }

    /** unindent. */
    method Unindent()
      requires |indentString| >= |INDENT|
      modifies this`indentString
      ensures indentString == old(indentString)[..|old(indentString)| - |INDENT|]
    {
      indentString := indentString[..|indentString| - |INDENT|];
    }

    /** writeValue.  While the elements of an array are collected it is called for simple
        values only, and pushes exactly one item for each. */
    method WriteValue(value: Value)
      requires Valid(value) && Printable(value) && (addChildValues ==> Simple(value))
      modifies this
      ensures addChildValues == old(addChildValues) && indentString == old(indentString)
      ensures addChildValues ==> childValues == old(childValues) + [Single(value, show)] && document == old(document)
      ensures !addChildValues ==> document == Styled(old(document), indentString, value, show)
      decreases Weight(value), 1
    {
      hide Quote, IntText, ValidEntries, PrintableEntries, NulFree, StyledItems, StyledMembers, InLine, MultiLine, Indented, Crowded;
      match value {
        case Null => PushValue("null");
        case Int(i) =>
          var t := IntToString(i);
          PushValue(t);
        case UInt(u) =>
          var t := UIntValueToString(u);
          PushValue(t);
        case Real(x) => PushValue(show(x));
        case Text(s) =>
          var t := QuoteString(s);
          PushValue(t);
        case Bool(b) => PushValue(if b then "true" else "false");
        case Array(a) => WriteArrayValue(a);
        case Object(o) =>
          if o.Nil? {
            PushValue("{}");
          } else {
            WriteMembers(o);
          }
      }
    }

    /** The object case of writeValue. */
    method WriteMembers(o: Entries)
      requires Valid(Object(o)) && PrintableEntries(o) && o.Entry? && !addChildValues
      modifies this
      ensures !addChildValues && indentString == old(indentString)
      ensures document == Indented(StyledMembers(Indented(old(document), indentString) + "{", indentString + INDENT, o, show), indentString) + "}"
      decreases WeightOf(o), 2
    {
      hide StyledMembers, Styled, Indented, Printable, Sorted, ValidEntries, PrintableEntries, Quote, NulFree;
      var members := MemberNames(o);
      ghost var ind := indentString;
      WriteWithIndent("{");
      Indent();
      var it := 0;
      ghost var left := o;
      ghost var goal := StyledMembers(document, indentString, o, show);
      while true
        invariant 0 <= it < |members| && members[it..] == Names(left) && Suffix(o, left) && left.Entry?
        invariant !addChildValues && indentString == ind + INDENT
        invariant StyledMembers(document, indentString, left, show) == goal
        decreases |members| - it
      {
        var name := members[it];
        assert members[it..][1..] == members[it + 1..];
        SuffixFacts(o, left, false);
        StyledMembersOnce(document, indentString, left, show);
        var quoted := QuoteString(name);
        WriteWithIndent(quoted);
        document := document + " : ";
        WriteValue(Find(o, Name(name)));
        left := left.rest;
        it := it + 1;
        if it == |members| {
          break;
        }
        document := document + ",";
      }
      StyledMembersOnce(document, indentString, left, show);
      Unindent();
      assert indentString == ind;
      WriteWithIndent("}");
    }

    /** writeArrayValue. */
    method WriteArrayValue(a: Entries)
      requires Valid(Array(a)) && PrintableEntries(a) && (addChildValues ==> a.Nil?)
      modifies this
      ensures addChildValues == old(addChildValues) && indentString == old(indentString)
      ensures addChildValues ==> childValues == old(childValues) + ["[]"] && document == old(document)
      ensures !addChildValues ==> document == Styled(old(document), indentString, Array(a), show)
      decreases WeightOf(a), 4
    {
      hide StyledItems, InLine, MultiLine, Indented, Valid, PrintableEntries, Crowded;
      var size := ArraySize(a);
      SizeIsZero(a);
      if size == 0 {
        PushValue("[]");
      } else {
        var isArrayMultiLine := IsMultineArray(a);
        if isArrayMultiLine {
          WriteOnLines(a);
        } else {
          WriteInLine(a);
        }
      }
    }

    lemma SizeIsZero(a: Entries)
      requires Valid(Array(a))
      ensures ArraySize(a) == 0 <==> a.Nil?
    {
      if a.Entry? { SizeOfSome(a); }
    }

    /** The part of writeArrayValue for an array on several lines: if the scratch list holds
        anything, it holds one item for every element. */
    method WriteOnLines(a: Entries)
      requires Valid(Array(a)) && PrintableEntries(a) && ArraySize(a) > 0 && !addChildValues
      requires childValues == if Crowded(a) then [] else Singles(a, ArraySize(a), show)
      modifies this
      ensures !addChildValues && indentString == old(indentString)
      ensures document == Indented(StyledItems(Indented(old(document), indentString) + "[", indentString + INDENT, a, 0, show), indentString) + "]"
      decreases WeightOf(a), 2
    {
      hide StyledItems, Styled, Indented, Valid, Printable, PrintableEntries, Crowded;
      ghost var ind, d := indentString, document;
      var size := ArraySize(a);
      WriteWithIndent("[");
      Indent();
      var hasChildValue := childValues != [];
      var index := 0;
      ghost var goal := StyledItems(document, indentString, a, 0, show);
      while true
        invariant 0 <= index < size && !addChildValues && indentString == ind + INDENT
        invariant hasChildValue ==> childValues == Singles(a, size, show) && !Crowded(a)
        invariant StyledItems(document, indentString, a, index, show) == goal
        decreases size - index
      {
        StyledItemsOnce(document, indentString, a, index, show);
        HasEntries(a);
        FindWeight(a, Index(index));
        FoundIsFine(a, Index(index), true) by { ValidOf(a); }
        if hasChildValue {
          SimpleElement(a, index);
          WriteWithIndent(childValues[index]);
        } else {
          WriteIndent();
          WriteValue(Find(a, Index(index)));
        }
        index := index + 1;
        if index == size {
          break;
        }
        document := document + ",";
      }
      StyledItemsOnce(document, indentString, a, index, show);
      Unindent();
      assert indentString == ind;
      WriteWithIndent("]");
    }

    lemma HasEntries(a: Entries)
      ensures ArraySize(a) > 0 ==> a.Entry?
    {
    }

    lemma ValidOf(a: Entries)
      requires Valid(Array(a))
      ensures Sorted(a) && ValidEntries(a, true)
    {
    }

    /** An element of an array that is not crowded is printed as one item. */
    lemma SimpleElement(a: Entries, i: nat)
      requires !Crowded(a) && i < ArraySize(a)
      ensures Simple(Find(a, Index(i)))
      ensures forall d: string, ind: string :: Styled(d, ind, Find(a, Index(i)), show) == d + Single(Find(a, Index(i)), show)
    {
      assert Items(a, ArraySize(a))[i] == Find(a, Index(i));
    }

    /** The part of writeArrayValue for an array on one line. */
    method WriteInLine(a: Entries)
      requires ArraySize(a) > 0 && !Crowded(a) && childValues == Singles(a, ArraySize(a), show)
      modifies this`document
      ensures document == old(document) + "[ " + InLine(a, 0, show) + " ]"
    {
      hide InLine, Crowded, Single;
      var size := ArraySize(a);
      document := document + "[ ";
      ghost var head, all := document, InLine(a, 0, show);
      var index := 0;
      while index < size
        invariant 0 <= index <= size
        invariant document + InLine(a, index, show) == head + all
      {
        InLineOnce(a, index, show);
        ghost var d := document;
        if index > 0 {
          document := document + ", ";
        }
        document := document + childValues[index];
        JoinedText(d, if index > 0 then ", " else "", childValues[index], InLine(a, index + 1, show));
        index := index + 1;
      }
      InLineOnce(a, index, show);
      document := document + " ]";
    }

    lemma JoinedText(d: string, p: string, t: string, r: string)
      ensures d + p + t + r == d + (p + (t + r)) && d + "" == d
    {
    }

    /** isMultineArray. */
    method IsMultineArray(a: Entries) returns (isMultiLine: bool)
      requires Valid(Array(a)) && PrintableEntries(a) && ArraySize(a) > 0 && !addChildValues
      modifies this
      ensures isMultiLine == MultiLine(a, show) && (Crowded(a) ==> isMultiLine)
      ensures !addChildValues && indentString == old(indentString) && document == old(document)
      ensures childValues == if Crowded(a) then [] else Singles(a, ArraySize(a), show)
      decreases WeightOf(a), 2
    {
      hide Valid, Printable, PrintableEntries, Single, Styled, Width;
      var size := ArraySize(a);
      isMultiLine := size * 3 >= MARGIN;
      childValues := [];
      var index := 0;
      while index < size && !isMultiLine
        invariant 0 <= index <= size
        invariant isMultiLine <==> size * 3 >= MARGIN || exists i :: 0 <= i < index && !Simple(Items(a, size)[i])
      {
        var childValue := Find(a, Index(index));
        assert Items(a, size)[index] == childValue;
        isMultiLine := !Simple(childValue);
        index := index + 1;
      }
      if !isMultiLine {
        var lineLength := CollectItems(a);
        isMultiLine := lineLength >= MARGIN;
      }
    }

    /** The part of isMultineArray that prints the elements into the scratch list. */
    method CollectItems(a: Entries) returns (lineLength: int)
      requires Valid(Array(a)) && PrintableEntries(a) && !Crowded(a) && ArraySize(a) > 0 && childValues == []
      modifies this
      ensures !addChildValues && indentString == old(indentString) && document == old(document)
      ensures childValues == Singles(a, ArraySize(a), show)
      ensures lineLength == 4 + (ArraySize(a) - 1) * 2 + Width(Items(a, ArraySize(a)), show)
      decreases WeightOf(a), 1
    {
      hide Valid, Printable, PrintableEntries, Single, Styled, Crowded;
      var size := ArraySize(a);
      ghost var items := Items(a, size);
      addChildValues := true;
      lineLength := 4 + (size - 1) * 2;
      var index := 0;
      while index < size
        invariant 0 <= index <= size && addChildValues && indentString == old(indentString) && document == old(document)
        invariant childValues == Singles(a, index, show)
        invariant lineLength == 4 + (size - 1) * 2 + Width(items[..index], show)
      {
        HasEntries(a);
        FindWeight(a, Index(index));
        FoundIsFine(a, Index(index), true) by { ValidOf(a); }
        SimpleElement(a, index);
        WriteValue(Find(a, Index(index)));
        lineLength := lineLength + |childValues[index]|;
        assert items[..index + 1][..index] == items[..index];
        index := index + 1;
      }
      assert items[..size] == items;
      addChildValues := false;
    }
  }
}
