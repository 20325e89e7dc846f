/** Json::Value as a tree, in the configuration that keeps arrays and objects in a std::map:
    its order and equality, and the map operations that the reader and the writers use. */
module JsonValue {

  /** CZString: the key of an array element or of an object member. */
  datatype Key = Index(i: nat) | Name(s: string)

  datatype Value =
    | Null
    | Int(i: int)
    | UInt(u: int)
    | Real(x: real)
    | NullText
    | Text(s: string)
    | Bool(b: bool)
    | Array(a: Entries)
    | Object(o: Entries)

  /** ObjectValues: the entries of a std::map in the order of their keys. */
  datatype Entries = Nil | Entry(key: Key, value: Value, rest: Entries)

  // ---- Keys

  /** strcmp. */
  function StrCmp(a: string, b: string): (c: int)
    ensures -1 <= c <= 1
  {
    if a == [] then (if b == [] then 0 else -1)
    else if b == [] then 1
    else if a[0] < b[0] then -1
    else if b[0] < a[0] then 1
    else StrCmp(a[1..], b[1..])
  }

  lemma {:induction false} StrCmpIsOrder(a: string, b: string, c: string)
    ensures StrCmp(a, b) == 0 <==> a == b
    ensures StrCmp(a, b) == -StrCmp(b, a)
    ensures StrCmp(a, b) < 0 && StrCmp(b, c) < 0 ==> StrCmp(a, c) < 0
    decreases |a| + |b| + |c|
  {
    if a != [] && b != [] && a[0] == b[0] {
      StrCmpIsOrder(a[1..], b[1..], if c == [] then c else c[1..]);
      assert a == [a[0]] + a[1..] && b == [b[0]] + b[1..];
    } else if b != [] && c != [] && b[0] == c[0] {
      StrCmpIsOrder(a, b[1..], c[1..]);
      assert b == [b[0]] + b[1..] && c == [c[0]] + c[1..];
    }
  }

  /** CZString::operator<.  A map has keys of one kind only, so that an index is never
      compared with a name. */
  predicate KeyLess(k: Key, l: Key) {
    match k
    case Index(i) => if l.Index? then i < l.i else true
    case Name(s) => l.Name? && StrCmp(s, l.s) < 0
  }

  /** CZString::operator==. */
  predicate KeyEqual(k: Key, l: Key) {
    match k
    case Index(i) => l.Index? && i == l.i
    case Name(s) => l.Name? && StrCmp(s, l.s) == 0
  }

  lemma KeyIsOrder(k: Key, l: Key, m: Key)
    ensures KeyEqual(k, l) <==> k == l
    ensures !KeyLess(k, k) && !(KeyLess(k, l) && KeyLess(l, k))
    ensures k == l || KeyLess(k, l) || KeyLess(l, k)
    ensures KeyLess(k, l) && KeyLess(l, m) ==> KeyLess(k, m)
  {
    hide StrCmp;
    if k.Name? && l.Name? {
      StrCmpIsOrder(k.s, l.s, if m.Name? then m.s else "");
      StrCmpIsOrder(k.s, k.s, "");
    } else if k.Name? {
      StrCmpIsOrder(k.s, k.s, "");
    }
  }

  // ---- Comparison

  function TypeOf(v: Value): int {
    match v
    case Null => 0
    case Int(_) => 1
    case UInt(_) => 2
    case Real(_) => 3
    case NullText => 4
    case Text(_) => 4
    case Bool(_) => 5
    case Array(_) => 6
    case Object(_) => 7
  }

  function Count(m: Entries): nat {
    if m.Nil? then 0 else 1 + Count(m.rest)
  }

  /** The number of constructors: a measure for recursion on two values at once. */
  function Weight(v: Value): nat {
    match v
    case Null => 1
    case Int(_) => 1
    case UInt(_) => 1
    case Real(_) => 1
    case NullText => 1
    case Text(_) => 1
    case Bool(_) => 1
    case Array(a) => 1 + WeightOf(a)
    case Object(o) => 1 + WeightOf(o)
  }

  function WeightOf(m: Entries): nat {
    if m.Nil? then 0 else 1 + Weight(m.value) + WeightOf(m.rest)
  }

  /** Value::operator<. */
  predicate Less(v: Value, w: Value)
    decreases Weight(v) + Weight(w), 0
  {
    if TypeOf(v) != TypeOf(w) then TypeOf(v) < TypeOf(w)
    else match v
      case Null => false
      case Int(i) => i < w.i
      case UInt(u) => u < w.u
      case Real(x) => x < w.x
      case NullText => w.Text?
      case Text(s) => w.Text? && StrCmp(s, w.s) < 0
      case Bool(b) => !b && w.b
      case Array(a) => if Count(a) != Count(w.a) then Count(a) < Count(w.a) else EntriesLess(a, w.a)
      case Object(o) => if Count(o) != Count(w.o) then Count(o) < Count(w.o) else EntriesLess(o, w.o)
  }

  /** std::map::operator<: lexicographic comparison of the entries. */
  predicate EntriesLess(m: Entries, n: Entries)
    decreases WeightOf(m) + WeightOf(n)
  {
    if n.Nil? then false
    else if m.Nil? then true
    else if PairLess(m, n) then true
    else if PairLess(n, m) then false
    else EntriesLess(m.rest, n.rest)
  }

  /** std::pair::operator< on the first entries. */
  predicate PairLess(m: Entries, n: Entries)
    requires m.Entry? && n.Entry?
    decreases Weight(m.value) + Weight(n.value), 1
  {
    KeyLess(m.key, n.key) || (!KeyLess(n.key, m.key) && Less(m.value, n.value))
  }

  /** Value::operator==. */
  predicate Equal(v: Value, w: Value)
    decreases v
  {
    TypeOf(v) == TypeOf(w) &&
    match v
    case Null => true
    case Int(i) => i == w.i
    case UInt(u) => u == w.u
    case Real(x) => x == w.x
    case NullText => w.NullText?
    case Text(s) => w.Text? && StrCmp(s, w.s) == 0
    case Bool(b) => b == w.b
    case Array(a) => Count(a) == Count(w.a) && EntriesEqual(a, w.a)
    case Object(o) => Count(o) == Count(w.o) && EntriesEqual(o, w.o)
  }

  predicate EntriesEqual(m: Entries, n: Entries)
    decreases m
  {
    if m.Nil? || n.Nil? then m.Nil? && n.Nil?
    else KeyEqual(m.key, n.key) && Equal(m.value, n.value) && EntriesEqual(m.rest, n.rest)
  }

  /** operator== is equality of trees. */
  lemma {:induction false} EqualIsSame(v: Value, w: Value)
    ensures Equal(v, w) <==> v == w
    decreases v
  {
    hide KeyEqual, StrCmp;
    match v
    case Text(s) => if w.Text? { StrCmpIsOrder(s, w.s, ""); }
    case Array(a) => if w.Array? { EntriesEqualIsSame(a, w.a); }
    case Object(o) => if w.Object? { EntriesEqualIsSame(o, w.o); }
    case _ =>
  }

  lemma {:induction false} EntriesEqualIsSame(m: Entries, n: Entries)
    ensures EntriesEqual(m, n) <==> m == n
    decreases m
  {
    hide KeyEqual;
    if m.Entry? && n.Entry? {
      KeyIsOrder(m.key, n.key, m.key);
      EqualIsSame(m.value, n.value);
      EntriesEqualIsSame(m.rest, n.rest);
    }
  }

  /** Of two values exactly one is less, or they are the same. */
  lemma {:induction false} LessIsTotal(v: Value, w: Value)
    ensures !(Less(v, w) && Less(w, v))
    ensures v == w <==> !Less(v, w) && !Less(w, v)
    decreases Weight(v) + Weight(w)
  {
    hide StrCmp, EntriesLess;
    match v
    case Text(s) => if w.Text? { StrCmpIsOrder(s, w.s, ""); StrCmpIsOrder(w.s, s, ""); }
    case Array(a) => if w.Array? { EntriesTotal(a, w.a); }
    case Object(o) => if w.Object? { EntriesTotal(o, w.o); }
    case _ =>
  }

  lemma {:induction false} EntriesTotal(m: Entries, n: Entries)
    ensures !(EntriesLess(m, n) && EntriesLess(n, m))
    ensures m == n <==> !EntriesLess(m, n) && !EntriesLess(n, m)
    decreases WeightOf(m) + WeightOf(n)
  {
    hide KeyLess, Less;
    if m.Entry? && n.Entry? {
      KeyIsOrder(m.key, n.key, m.key);
      LessIsTotal(m.value, n.value);
      EntriesTotal(m.rest, n.rest);
    }
  }

  lemma {:induction false} LessIsTransitive(u: Value, v: Value, w: Value)
    requires Less(u, v) && Less(v, w)
    ensures Less(u, w)
    decreases Weight(u) + Weight(v) + Weight(w), 0
  {
    hide StrCmp, EntriesLess;
    match u
    case Text(s) => if v.Text? && w.Text? { StrCmpIsOrder(s, v.s, w.s); }
    case Array(a) =>
      if v.Array? && w.Array? && Count(a) == Count(v.a) == Count(w.a) { EntriesTransitive(a, v.a, w.a); }
    case Object(o) =>
      if v.Object? && w.Object? && Count(o) == Count(v.o) == Count(w.o) { EntriesTransitive(o, v.o, w.o); }
    case _ =>
  }

  lemma {:induction false} EntriesTransitive(l: Entries, m: Entries, n: Entries)
    requires EntriesLess(l, m) && EntriesLess(m, n)
    ensures EntriesLess(l, n)
    decreases WeightOf(l) + WeightOf(m) + WeightOf(n)
  {
    hide KeyLess, Less, PairLess;
    if l.Entry? && m.Entry? && n.Entry? {
      PairTotal(l, m); PairTotal(m, n); PairTotal(l, n);
      if PairLess(l, m) && PairLess(m, n) {
        PairTransitive(l, m, n);
      } else if !PairLess(l, m) && !PairLess(m, n) {
        EntriesTransitive(l.rest, m.rest, n.rest);
      }
    }
  }

  lemma PairTotal(m: Entries, n: Entries)
    requires m.Entry? && n.Entry?
    ensures !(PairLess(m, n) && PairLess(n, m))
    ensures (m.key == n.key && m.value == n.value) <==> !PairLess(m, n) && !PairLess(n, m)
    ensures forall l: Entries :: l.Entry? && m.key == n.key && m.value == n.value ==> (PairLess(l, m) <==> PairLess(l, n))
    ensures forall l: Entries :: l.Entry? && m.key == n.key && m.value == n.value ==> (PairLess(m, l) <==> PairLess(n, l))
    decreases Weight(m.value) + Weight(n.value), 0
  {
    hide KeyLess, Less;
    KeyIsOrder(m.key, n.key, m.key);
    LessIsTotal(m.value, n.value);
  }

  lemma PairTransitive(l: Entries, m: Entries, n: Entries)
    requires l.Entry? && m.Entry? && n.Entry? && PairLess(l, m) && PairLess(m, n)
    ensures PairLess(l, n)
    decreases Weight(l.value) + Weight(m.value) + Weight(n.value), 1
  {
    hide KeyLess, Less;
    KeyIsOrder(l.key, m.key, n.key); KeyIsOrder(m.key, n.key, l.key);
    KeyIsOrder(n.key, l.key, m.key);
    if l.key == m.key == n.key {
      LessIsTransitive(l.value, m.value, n.value);
    }
  }

  // ---- The order in particular

  /** Values of different types are in the order of their types, whatever they hold. */
  lemma TypesInOrder(i: int, u: int, x: real, s: string, b: bool, a: Entries, o: Entries)
    ensures Less(Null, Int(i)) && Less(Int(i), UInt(u)) && Less(UInt(u), Real(x)) && Less(Real(x), NullText)
    ensures Less(Real(x), Text(s)) && Less(Text(s), Bool(b)) && Less(NullText, Bool(b)) && Less(Bool(b), Array(a)) && Less(Array(a), Object(o))
  {
  }

  /** So a signed integer is less than an unsigned one even when it is the greater number. */
  lemma SignedFirst()
    ensures Less(Int(5), UInt(3)) && !Less(UInt(3), Int(5))
  {
  }

  /** Numbers are in the order of numbers, false is before true, a string that is no string before
      every other. */
  lemma ScalarsInOrder(i: int, j: int, x: real, y: real, s: string)
    ensures Less(Int(i), Int(j)) <==> i < j
    ensures Less(UInt(i), UInt(j)) <==> i < j
    ensures Less(Real(x), Real(y)) <==> x < y
    ensures Less(Bool(false), Bool(true)) && Less(NullText, Text(s))
  {
  }

  /** The order of strings: at the first difference the character of the smaller code is the less,
      and what ends there is less than what goes on. */
  lemma {:induction false} StringsInOrder(p: string, s: string, t: string)
    requires t != "" && (s != "" ==> s[0] < t[0])
    ensures Less(Text(p + s), Text(p + t)) && KeyLess(Name(p + s), Name(p + t))
    decreases |p|
  {
    if p == "" {
      assert p + s == s && p + t == t;
    } else {
      StringsInOrder(p[1..], s, t);
      assert (p + s)[1..] == p[1..] + s && (p + t)[1..] == p[1..] + t;
    }
  }

  /** An array or object of fewer entries is less than one of more. */
  lemma FewerIsLess(m: Entries, n: Entries)
    requires Count(m) < Count(n)
    ensures Less(Array(m), Array(n)) && Less(Object(m), Object(n))
  {
  }

  /** With as many entries, the first entry that differs decides: its key, or its value. */
  lemma {:induction false} FirstDifference(p: Entries, m: Entries, n: Entries)
    requires m.Entry? && n.Entry? && Count(m) == Count(n)
    requires KeyLess(m.key, n.key) || (m.key == n.key && Less(m.value, n.value))
    ensures Less(Array(Behind(p, m)), Array(Behind(p, n))) && Less(Object(Behind(p, m)), Object(Behind(p, n)))
    decreases p
  {
    hide KeyLess;
    KeyIsOrder(m.key, n.key, m.key);
    CountBehind(p, m); CountBehind(p, n);
    LessBehind(p, m, n);
  }

  /** The entries `m` behind those of `p`. */
  function Behind(p: Entries, m: Entries): Entries {
    if p.Nil? then m else Entry(p.key, p.value, Behind(p.rest, m))
  }

  lemma {:induction false} CountBehind(p: Entries, m: Entries)
    ensures Count(Behind(p, m)) == Count(p) + Count(m)
  {
    if p.Entry? { CountBehind(p.rest, m); }
  }

  lemma {:induction false} LessBehind(p: Entries, m: Entries, n: Entries)
    requires EntriesLess(m, n)
    ensures EntriesLess(Behind(p, m), Behind(p, n))
    decreases p
  {
    hide KeyLess, Less;
    if p.Entry? {
      LessBehind(p.rest, m, n);
      KeyIsOrder(p.key, p.key, p.key);
      LessIsTotal(p.value, p.value);
    }
  }

  // ---- Arrays and objects

  /** The keys grow along the entries. */
  predicate Sorted(m: Entries) {
    m.Nil? || m.rest.Nil? || (KeyLess(m.key, m.rest.key) && Sorted(m.rest))
  }

  /** A value as the class keeps it: maps in order, arrays by index, objects by name. */
  predicate Valid(v: Value) {
    match v
    case Array(a) => Sorted(a) && ValidEntries(a, true)
    case Object(o) => Sorted(o) && ValidEntries(o, false)
    case _ => true
  }

  predicate ValidEntries(m: Entries, indexed: bool) {
    m.Nil? || (m.key.Index? == indexed && Valid(m.value) && ValidEntries(m.rest, indexed))
  }

  /** operator[] const: the entry of a key, or null. */
  function Find(m: Entries, k: Key): Value {
    if m.Nil? then Null else if m.key == k then m.value else Find(m.rest, k)
  }

  predicate Has(m: Entries, k: Key) {
    m.Entry? && (m.key == k || Has(m.rest, k))
  }

  /** operator[] and an assignment to the reference it returns. */
  function Insert(m: Entries, k: Key, v: Value): Entries {
    if m.Nil? || KeyLess(k, m.key) then Entry(k, v, m)
    else if m.key == k then Entry(k, v, m.rest)
    else Entry(m.key, m.value, Insert(m.rest, k, v))
  }

  /** Value::size of an array: the highest index and one. */
  function ArraySize(m: Entries): nat {
    if m.Nil? then 0
    else if m.rest.Nil? then (if m.key.Index? then m.key.i + 1 else 0)
    else ArraySize(m.rest)
  }

  lemma {:induction false} InsertKeeps(m: Entries, k: Key, v: Value)
    requires Sorted(m)
    ensures Sorted(Insert(m, k, v))
  {
    hide KeyLess;
    if m.Entry? {
      KeyIsOrder(k, m.key, k);
      if k != m.key && !KeyLess(k, m.key) {
        InsertKeeps(m.rest, k, v);
        InsertHead(m.rest, k, v);
      }
    }
  }

  /** The entry of the key is the new one, every other entry stays. */
  lemma {:induction false} FindInsert(m: Entries, k: Key, v: Value, l: Key)
    requires Sorted(m)
    ensures Find(Insert(m, k, v), l) == if l == k then v else Find(m, l)
    ensures Has(Insert(m, k, v), l) <==> l == k || Has(m, l)
  {
    hide KeyLess;
    if m.Entry? {
      KeyIsOrder(k, m.key, k);
      if k != m.key && !KeyLess(k, m.key) {
        FindInsert(m.rest, k, v, l);
      }
    }
  }

  /** The size of an array is its highest index and one, whatever is missing below it. */
  lemma {:induction false} SizeIsHighest(m: Entries, k: nat)
    requires Sorted(m) && ValidEntries(m, true)
    ensures m.Nil? ==> ArraySize(m) == 0
    ensures m.Entry? ==> ArraySize(m) > 0 && Has(m, Index(ArraySize(m) - 1))
    ensures Has(m, Index(k)) ==> k < ArraySize(m)
    decreases m
  {
    if m.Entry? {
      assert m.key.Index?;
      HasEither(m, Index(k));
      if m.rest.Entry? {
        SizeIsHighest(m.rest, k);
        SizeIsHighest(m.rest, m.rest.key.i);
        assert m.rest.key.Index? && KeyLess(m.key, m.rest.key);
        HasEither(m.rest, Index(m.rest.key.i));
        HasEither(m, Index(ArraySize(m) - 1));
      } else {
        HasEither(m, Index(m.key.i));
      }
    }
  }

  lemma HasEither(m: Entries, k: Key)
    ensures m.Entry? ==> (Has(m, k) <==> m.key == k || Has(m.rest, k))
    ensures m.Nil? ==> !Has(m, k)
  {
  }

  lemma InsertHead(m: Entries, k: Key, v: Value)
    ensures Insert(m, k, v).Entry?
    ensures Insert(m, k, v).key == k || (m.Entry? && Insert(m, k, v).key == m.key)
  {
  }

  lemma {:induction false} SortedBelow(m: Entries, k: Key)
    requires Sorted(m) && m.Entry? && Has(m.rest, k)
    ensures KeyLess(m.key, k) && k != m.key
    decreases m
  {
    hide KeyLess;
    KeyIsOrder(m.key, m.rest.key, k);
    KeyIsOrder(m.key, m.key, k);
    if m.rest.key != k {
      SortedBelow(m.rest, k);
    }
  }
}
