/** Writing a value and reading it back, as runs of the classes; and which values come back
    unchanged. */
module JsonRoundTrip {
  import opened JsonValue
  import opened JsonLex
  import opened JsonParse
  import opened JsonPrint
  import opened JsonWriter
  import opened JsonReader
  import opened JsonGrammar

  /** No small unsigned integer and no hole in an array. */
  predicate Settled(v: Value) {
    match v
    case UInt(u) => u > MAX_INT
    case Array(a) => Dense(a, 0)
    case Object(o) => SettledMembers(o)
    case _ => true
  }

  /** The entries have the indices from `i` on, without a gap. */
  predicate Dense(m: Entries, i: nat) {
    m.Nil? || (m.key == Index(i) && Settled(m.value) && Dense(m.rest, i + 1))
  }

  predicate SettledMembers(m: Entries) {
    m.Nil? || (Settled(m.value) && SettledMembers(m.rest))
  }

  lemma {:induction false} SizeAtLeast(m: Entries)
    requires m.Entry? && Sorted(m) && ValidEntries(m, true)
    ensures ArraySize(m) >= m.key.i + 1
  {
    if m.rest.Entry? { SizeAtLeast(m.rest); }
  }

  lemma {:induction false} SuffixSize(m: Entries, n: Entries)
    requires Suffix(m, n) && n.Entry?
    ensures ArraySize(m) == ArraySize(n)
    decreases m
  {
    if m != n { SuffixSize(m.rest, n); }
  }

  lemma {:induction false} SuffixFind(m: Entries, n: Entries)
    requires Suffix(m, n) && n.Entry? && Sorted(m)
    ensures Suffix(m, n.rest) && Find(m, n.key) == n.value && Has(m, n.key)
    decreases m
  {
    hide KeyLess;
    if m != n {
      SuffixFind(m.rest, n);
      SortedBelow(m, n.key);
    }
  }

  /** A value is read back unchanged exactly if it is settled. */
  lemma {:induction false} NormalIsSame(v: Value)
    requires Valid(v) && Writable(v)
    ensures Normal(v) == v <==> Settled(v)
    decreases v
  {
    hide Normal;
    NormalArray(Children(v));
    match v
    case Array(a) =>
      if a.Entry? {
        SizeOfSome(a);
        SameItems(a, a, 0);
      }
      NormalItemsOnce(a, 0);
    case Object(o) => SameMembers(o);
    case _ => NormalScalar(v);
  }

  lemma NormalArray(m: Entries)
    ensures Normal(Array(m)) == Array(NormalItems(m, 0))
    ensures Normal(Object(m)) == Object(NormalMembers(m))
  {
  }

  lemma NormalItemsOnce(m: Entries, i: nat)
    ensures i >= ArraySize(m) ==> NormalItems(m, i) == Nil
    ensures i < ArraySize(m) ==> NormalItems(m, i) == Entry(Index(i), Normal(Find(m, Index(i))), NormalItems(m, i + 1))
  {
    hide Normal;
  }

  lemma NormalMembersOnce(m: Entries)
    ensures m.Nil? ==> NormalMembers(m) == Nil
    ensures m.Entry? ==> NormalMembers(m) == Entry(m.key, Normal(m.value), NormalMembers(m.rest))
  {
    hide Normal;
  }

  lemma NormalScalar(v: Value)
    requires !v.Array? && !v.Object?
    ensures Normal(v) == if v.UInt? && v.u <= MAX_INT then Int(v.u) else v
  {
  }

  lemma {:induction false} SameMembers(m: Entries)
    requires Valid(Object(m)) && WritableEntries(m)
    ensures NormalMembers(m) == m <==> SettledMembers(m)
    decreases m
  {
    hide Normal;
    NormalMembersOnce(m);
    if m.Entry? {
      WritablePrints(m);
      MemberValid(m);
      NormalIsSame(m.value);
      SameMembers(m.rest);
    }
  }

  lemma {:induction false} SameItems(m: Entries, n: Entries, i: nat)
    requires Valid(Array(m)) && WritableEntries(m) && Suffix(m, n) && n.Entry? && i < ArraySize(m)
    requires Valid(Array(n)) && WritableEntries(n)
    ensures NormalItems(m, i) == n <==> Dense(n, i)
    decreases n
  {
    hide Normal, KeyLess, NormalItems;
    NormalItemsOnce(m, i);
    SuffixFind(m, n);
    if n.key == Index(i) {
      NormalIsSame(n.value);
      SuffixSize(m, n);
      NormalItemsOnce(m, i + 1);
      if n.rest.Entry? {
        SuffixSize(m, n.rest);
        SizeAtLeast(n.rest);
        NextIndex(n);
        SameItems(m, n.rest, i + 1);
      }
    }
  }

  lemma NextIndex(n: Entries)
    requires n.Entry? && n.rest.Entry? && Valid(Array(n))
    ensures n.key.Index? && n.rest.key.Index? && n.key.i < n.rest.key.i && Valid(Array(n.rest))
  {
    assert ValidEntries(n.rest, true) && KeyLess(n.key, n.rest.key);
  }

  // ---- Runs

  /** What FastWriter writes, Reader reads: the value, if it is in the range of the reader. */
  method WriteAndRead(v: Value, writer: FastWriter, reader: Reader) returns (ok: bool)
    requires Valid(v) && Printable(v)
    modifies writer, reader
    ensures var b := Back(v, writer.show, reader.scan); (ok <==> b.Some?) && (ok ==> reader.root == b.value)
    ensures Writable(v) ==> ok && reader.root == Normal(v)
    ensures Writable(v) && Settled(v) ==> reader.root == v
  {
    hide Valid, Writable, Printable, Normal, Settled, FastDocument, JsonParse.ReadValue, Back;
    FastRoundTrip(v, writer.yamlCompatiblityEnabled, writer.show, reader.scan);
    if Writable(v) {
      NormalIsSame(v);
      BackIsNormal(v, writer.show, reader.scan);
    }
    var text := writer.Write(v);
    ok := reader.Parse(text, Null);
  }

  /** The text for YAML, with a blank behind each colon, is read as the plain one is. */
  method WriteForYaml(v: Value, writer: FastWriter, reader: Reader) returns (ok: bool)
    requires Valid(v) && Printable(v)
    modifies writer, reader
    ensures writer.document == FastDocument(v, true, writer.show)
    ensures var r := JsonParse.ReadValue(FastDocument(v, false, writer.show), reader.scan);
      (ok <==> r.Ok?) && (ok ==> reader.root == r.v)
  {
    hide Valid, Writable, Printable, Normal, FastDocument, JsonParse.ReadValue, Back;
    writer.EnableYAMLCompatibility();
    FastRoundTrip(v, true, writer.show, reader.scan);
    FastRoundTrip(v, false, writer.show, reader.scan);
    var text := writer.Write(v);
    ok := reader.Parse(text, Null);
  }

  /** What StyledWriter writes, Reader reads as what it reads of FastWriter. */
  method StyleAndRead(v: Value, writer: StyledWriter, fast: FastWriter, reader: Reader, other: Reader) returns (styled: bool, compact: bool)
    requires Valid(v) && Printable(v) && reader != other && reader.scan == other.scan && writer.show == fast.show
    modifies writer, fast, reader, other
    ensures (styled <==> compact) && (styled ==> reader.root == other.root)
    ensures Writable(v) ==> styled && reader.root == Normal(v)
  {
    hide Valid, Writable, Printable, Normal, StyledDocument, FastDocument, JsonParse.ReadValue;
    StyledMeansFast(v, fast.yamlCompatiblityEnabled, writer.show, reader.scan);
    var text := writer.Write(v);
    styled := reader.Parse(text, Null);
    text := fast.Write(v);
    compact := other.Parse(text, Null);
  }

  /** Reader::parse of any document of the grammar, with a gap in front and any text behind: it succeeds
      exactly if the document means something, and the root is what it means. */
  method ParseDocument(reader: Reader, g: Gap, d: Doc, behind: string, value: Value) returns (ok: bool)
    requires GapOk(g) && DocOk(d, behind) && Sorted(Children(value))
    modifies reader
    ensures ok <==> DocMeans(d, reader.scan).Some?
    ensures ok ==> reader.root == DocMeans(d, reader.scan).value
    ensures !ok ==> |reader.errors| == 1
  {
    hide GapOk, GapText, DocText, DocOk, DocMeans, JsonParse.ReadValue, Sorted;
    TextReads(g, d, behind, reader.scan);
    ok := reader.Parse(GapText(g) + (DocText(d) + behind), value);
  }
}
