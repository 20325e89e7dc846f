/** What a CKeydic holds: for each of its two trees the paths and the element of each path,
    and what that is after any sequence of additions. */
module KeydicSpec {

  datatype Option<T> = None | Some(value: T)

  const LETTERS := "abcdefghijklmnopqrstuvwxyz"
  const KEYS := "0123456789" + LETTERS + "ABCDEFGHIJKLMNOPQRSTUVWXYZ" + "` ~!@#$%^&*()_-+=[]{}/|'\";:,<>.?\\\r\n" + NULS
  // The array is two characters longer than its initializer
  const NULS := [0 as char, 0 as char, 0 as char]

  // ---- The alphabet

  predicate InAlphabet(c: char) { c in KEYS }

  /** tolower. */
  function Lower(c: char): char {
    if 'A' <= c <= 'Z' then (c as int + 32) as char else c
  }

  lemma LettersWide()
    ensures |KEYS| == 100 && |LETTERS| == 26
  {
  }

  lemma LettersAt(k: nat)
    requires k < 26
    ensures LETTERS[k] as int == 97 + k
  {
    if k < 13 { assert LETTERS[k] == "abcdefghijklm"[k]; } else { assert LETTERS[k] == "nopqrstuvwxyz"[k - 13]; }
  }

  /** The alphabet is closed under tolower. */
  lemma LowerStays(c: char)
    requires InAlphabet(c)
    ensures InAlphabet(Lower(c))
  {
    if 'A' <= c <= 'Z' {
      var k := c as int - 65;
      LettersWide();
      LettersAt(k);
      hide LETTERS;
      assert KEYS[10 + k] == LETTERS[k] == Lower(c);
    }
  }

  /** The alphabet is the printable characters of ASCII, line feed, carriage return and NUL. */
  lemma AlphabetIs(c: char)
    ensures InAlphabet(c) <==> 32 <= c as int <= 126 || c as int in {0, 10, 13}
  {
    hide KEYS, LETTERS;
    KeysParts(c);
    LowerPart(c); UpperPart(c); DigitPart(c); SignPart(c); LastPart(c);
  }

  lemma KeysParts(c: char)
    ensures c in KEYS <==>
      (|| c in "0123456789" || c in LETTERS || c in "ABCDEFGHIJKLMNOPQRSTUVWXYZ"
       || c in "` ~!@#$%^&*()_-+=" || c in "[]{}/|'\";:,<>.?\\\r\n" || c in NULS)
  {
    hide LETTERS;
    assert "` ~!@#$%^&*()_-+=[]{}/|'\";:,<>.?\\\r\n" == "` ~!@#$%^&*()_-+=" + "[]{}/|'\";:,<>.?\\\r\n";
    InJoined("0123456789", LETTERS, c);
  }

  lemma InJoined(a: string, b: string, c: char)
    ensures c in a + b <==> c in a || c in b
  {
  }

  lemma LowerPart(c: char)
    ensures c in LETTERS <==> 97 <= c as int <= 122
  {
    LettersWide();
    if 97 <= c as int <= 122 { LettersAt(c as int - 97); }
    if c in LETTERS {
      var k :| 0 <= k < 26 && LETTERS[k] == c;
      LettersAt(k);
    }
  }

  lemma UpperPart(c: char)
    ensures c in "ABCDEFGHIJKLMNOPQRSTUVWXYZ" <==> 65 <= c as int <= 90
  {
  }

  lemma DigitPart(c: char)
    ensures c in "0123456789" <==> 48 <= c as int <= 57
  {
  }

  lemma SignPart(c: char)
    ensures c in "` ~!@#$%^&*()_-+=" <==> c as int in {96, 32, 126, 33, 64, 35, 36, 37, 94, 38, 42, 40, 41, 95, 45, 43, 61}
  {
  }

  lemma LastPart(c: char)
    ensures c in "[]{}/|'\";:,<>.?\\\r\n" <==> c as int in {91, 93, 123, 125, 47, 124, 39, 34, 59, 58, 44, 60, 62, 46, 63, 92, 13, 10}
    ensures c in NULS <==> c as int == 0
  {
  }

  /** tolower changes the codes 65 to 90, by 32, and no other. */
  lemma LowerIs(c: char)
    ensures Lower(c) as int == if 65 <= c as int <= 90 then c as int + 32 else c as int
  {
  }

  function Lowered(s: string): (r: string)
    ensures |r| == |s| && forall i :: 0 <= i < |s| ==> r[i] == Lower(s[i])
  {
    seq(|s|, i requires 0 <= i < |s| => Lower(s[i]))
  }

  predicate AllSound(s: string) { forall c :: c in s ==> InAlphabet(c) }

  /** The part of a key before its first character outside the alphabet. */
  function Sound(s: string): (r: string)
    ensures |r| <= |s|
  {
    if s == "" || !InAlphabet(s[0]) then "" else [s[0]] + Sound(s[1..])
  }

  lemma {:induction false} SoundPart(s: string)
    ensures var r := Sound(s);
            r == s[..|r|] && AllSound(r) && (|r| < |s| ==> !InAlphabet(s[|r|]))
  {
    hide InAlphabet;
    if s != "" && InAlphabet(s[0]) {
      var t := Sound(s[1..]);
      SoundPart(s[1..]);
      assert Sound(s) == [s[0]] + t;
      assert s[..1 + |t|] == [s[0]] + s[1..][..|t|];
    }
  }

  lemma SoundIs(s: string, n: nat)
    requires n <= |s| && AllSound(s[..n]) && (n == |s| || !InAlphabet(s[n]))
    ensures Sound(s) == s[..n]
  {
    hide InAlphabet;
    SoundPart(s);
    var r := Sound(s);
    assert forall i :: 0 <= i < n ==> s[..n][i] == s[i];
    assert forall i :: 0 <= i < |r| ==> r[i] == s[i];
  }

  lemma SoundWhole(s: string)
    ensures Sound(s) == s <==> AllSound(s)
  {
    hide InAlphabet;
    SoundPart(s);
    if AllSound(s) { assert s[..|s|] == s; SoundIs(s, |s|); }
  }

  // ---- One tree

  type Tree<T> = map<string, Option<T>>

  /** All prefixes of a key, the empty one and the key itself included. */
  ghost predicate IsPrefix(p: string, s: string) { |p| <= |s| && p == s[..|p|] }

  ghost function Prefixes(s: string): (ps: set<string>)
    ensures forall p :: p in ps <==> IsPrefix(p, s)
  {
    set i | 0 <= i <= |s| :: s[..i]
  }

  /** The tree with a key's nodes in it; new nodes hold nothing. */
  ghost function Grown<T>(m: Tree<T>, key: string): (r: Tree<T>)
    ensures r.Keys == m.Keys + Prefixes(key)
  {
    map p | p in m.Keys + Prefixes(key) :: if p in m then m[p] else None
  }

  /** A node that holds something keeps it. */
  ghost function Stored<T>(m: Tree<T>, key: string, e: Option<T>): (r: Tree<T>)
    requires key in m
    ensures r.Keys == m.Keys
  {
    if key != "" && m[key].None? then m[key := e] else m
  }

  ghost predicate Taken<T>(m: Tree<T>, key: string)
    requires key in m
  {
    key != "" && m[key].Some?
  }

  /** What each node holds once a key is added; `dup` keeps the element out. */
  lemma StoredAt<T>(m: Tree<T>, key: string, e: Option<T>, dup: bool, q: string)
    ensures var g := Grown(m, key);
            var r := if dup || Taken(g, key) then g else Stored(g, key, e);
            (q in r <==> q in m || IsPrefix(q, key)) &&
            (q in r ==> r[q] == (if q in m && m[q].Some? then m[q] else if q == key != "" && !dup then e else None))
  {
  }

  /** The longest prefix of `s` that is a path. */
  ghost predicate LongestIn<T>(m: Tree<T>, s: string, p: string) {
    IsPrefix(p, s) && p in m && forall q :: q in m && IsPrefix(q, s) ==> |q| <= |p|
  }

  // ---- Both trees

  datatype Dict<T> = Dict(normal: Option<Tree<T>>, folded: Option<Tree<T>>)

  const SUCC := 0
  const FAIL := -1
  const NORMALTREE_DUP := -2
  const CASETREE_DUP := -3

  /** Whether add_key comes to the folded tree: a character outside the alphabet ends the work
      on the normal tree and on the folded one with it. */
  ghost predicate Folds<T>(d: Dict<T>, key: string) {
    d.folded.Some? && (d.normal.None? || AllSound(key))
  }

  ghost function GrownTree<T>(m: Option<Tree<T>>, key: string): Option<Tree<T>> {
    if m.Some? then Some(Grown(m.value, Sound(key))) else None
  }

  /** The nodes add_key makes. */
  ghost function GrownBoth<T>(d: Dict<T>, key: string): (r: Dict<T>) {
    Dict(GrownTree(d.normal, key), if Folds(d, key) then GrownTree(d.folded, Lowered(key)) else d.folded)
  }

  /** Where add_key puts the element: a duplicate in the normal tree keeps it out of the folded one. */
  ghost function StoredBoth<T>(d: Dict<T>, key: string, e: Option<T>): (r: (Dict<T>, int))
    requires d.normal.Some? ==> Sound(key) in d.normal.value
    requires Folds(d, key) ==> Sound(Lowered(key)) in d.folded.value
  {
    var k, low := Sound(key), Sound(Lowered(key));
    if d.normal.Some? && Taken(d.normal.value, k) then (d, NORMALTREE_DUP)
    else
      var n := if d.normal.Some? then Some(Stored(d.normal.value, k, e)) else None;
      if Folds(d, key) && Taken(d.folded.value, low) then (Dict(n, d.folded), CASETREE_DUP)
      else (Dict(n, if Folds(d, key) then Some(Stored(d.folded.value, low, e)) else d.folded), SUCC)
  }

  /** add_key. */
  ghost function Added<T>(d: Dict<T>, key: string, e: Option<T>): (r: (Dict<T>, int)) {
    assert IsPrefix(Sound(key), Sound(key)) && IsPrefix(Sound(Lowered(key)), Sound(Lowered(key)));
    StoredBoth(GrownBoth(d, key), key, e)
  }

  /** What add_key returns: -2 if the normal tree has an element for the key, which keeps the element out
      of the other tree; -3 if the folded one has; 0 otherwise. */
  lemma AddReturns<T>(d: Dict<T>, key: string, e: Option<T>)
    ensures var k, low, r := Sound(key), Sound(Lowered(key)), Added(d, key, e).1;
      var normal := d.normal.Some? && k != "" && k in d.normal.value && d.normal.value[k].Some?;
      var folded := d.folded.Some? && (d.normal.Some? ==> AllSound(key)) && low != "" && low in d.folded.value && d.folded.value[low].Some?;
      r == if normal then -2 else if folded then -3 else 0
  {
    hide Sound, Lowered, AllSound;
    var k, low := Sound(key), Sound(Lowered(key));
    if d.normal.Some? { StoredAt(d.normal.value, k, e, false, k); }
    if d.folded.Some? { StoredAt(d.folded.value, low, e, false, low); }
  }

  lemma LoweredSound(s: string)
    ensures AllSound(s) ==> Sound(Lowered(s)) == Lowered(s)
  {
    hide InAlphabet, Sound;
    if AllSound(s) {
      forall i | 0 <= i < |s|
        ensures InAlphabet(Lowered(s)[i])
      {
        LowerStays(s[i]);
      }
      SoundWhole(Lowered(s));
    }
  }

  // ---- Sequences of additions

  type Adds<T> = seq<(string, Option<T>)>

  ghost function AddAll<T>(d: Dict<T>, adds: Adds<T>): (r: Dict<T>) {
    if adds == [] then d
    else
      var last := adds[|adds| - 1];
      Added(AddAll(d, adds[..|adds| - 1]), last.0, last.1).0
  }

  /** What init_root leaves. */
  ghost function Fresh<T>(): Tree<T> { map["" := None] }

  /** The element first added for a key. */
  ghost function First<T>(adds: Adds<T>, p: string): (e: Option<T>) {
    if adds == [] then None
    else
      var before, last := First(adds[..|adds| - 1], p), adds[|adds| - 1];
      if before.Some? then before else if p != "" && last.0 == p then last.1 else None
  }

  ghost predicate IsPath<T>(adds: Adds<T>, p: string) {
    p == "" || exists i :: 0 <= i < |adds| && IsPrefix(p, adds[i].0)
  }

  /** The tree holds the paths of these additions, and for each the element first added. */
  ghost predicate Holds<T>(m: Tree<T>, adds: Adds<T>) {
    forall p :: (p in m <==> IsPath(adds, p)) && (p in m ==> m[p] == First(adds, p))
  }

  /** The additions as the normal tree takes them. */
  ghost function SoundAdds<T>(adds: Adds<T>): (r: Adds<T>)
    ensures |r| == |adds|
  {
    seq(|adds|, i requires 0 <= i < |adds| => (Sound(adds[i].0), adds[i].1))
  }

  ghost function LowerAdds<T>(adds: Adds<T>): (r: Adds<T>)
    ensures |r| == |adds|
  {
    seq(|adds|, i requires 0 <= i < |adds| => (Lowered(adds[i].0), adds[i].1))
  }

  ghost predicate SoundKeys<T>(adds: Adds<T>) {
    forall i :: 0 <= i < |adds| ==> AllSound(adds[i].0)
  }

  lemma IsPathNext<T>(adds: Adds<T>, p: string)
    requires adds != []
    ensures IsPath(adds, p) <==> IsPath(adds[..|adds| - 1], p) || IsPrefix(p, adds[|adds| - 1].0)
  {
    var n := |adds| - 1;
    if p != "" {
      if IsPath(adds[..n], p) {
        var i :| 0 <= i < n && IsPrefix(p, adds[..n][i].0);
        assert IsPrefix(p, adds[i].0);
      }
      if IsPath(adds, p) {
        var i :| 0 <= i < |adds| && IsPrefix(p, adds[i].0);
        assert i < n ==> adds[..n][i] == adds[i];
      }
    }
  }

  /** One key more. */
  lemma HoldsNext<T>(m: Tree<T>, adds: Adds<T>)
    requires adds != [] && Holds(m, adds[..|adds| - 1])
    ensures var last := adds[|adds| - 1];
            var g := Grown(m, last.0);
            Holds(if Taken(g, last.0) then g else Stored(g, last.0, last.1), adds)
  {
    var n := |adds| - 1;
    var last := adds[n];
    var g := Grown(m, last.0);
    var r := if Taken(g, last.0) then g else Stored(g, last.0, last.1);
    forall p
      ensures p in r <==> IsPath(adds, p)
      ensures p in r ==> r[p] == First(adds, p)
    {
      hide IsPath, IsPrefix, Grown, Stored, Taken;
      StoredAt(m, last.0, last.1, false, p);
      IsPathNext(adds, p);
      if !IsPath(adds[..n], p) { NoneFirst(adds[..n], p); }
    }
  }

  lemma {:induction false} NoneFirst<T>(adds: Adds<T>, p: string)
    requires !IsPath(adds, p)
    ensures First(adds, p) == None
  {
    if adds != [] {
      IsPathNext(adds, p);
      NoneFirst(adds[..|adds| - 1], p);
      assert IsPrefix(adds[|adds| - 1].0, adds[|adds| - 1].0);
    }
  }

  lemma SoundAddsNext<T>(adds: Adds<T>)
    requires adds != []
    ensures SoundAdds(adds)[..|adds| - 1] == SoundAdds(adds[..|adds| - 1])
    ensures LowerAdds(adds)[..|adds| - 1] == LowerAdds(adds[..|adds| - 1])
  {
  }

  /** The normal tree holds, for any additions at all, the keys up to their first character
      outside the alphabet. */
  lemma {:induction false} NormalHolds<T>(d: Dict<T>, adds: Adds<T>)
    requires d.normal == Some(Fresh())
    ensures AddAll(d, adds).normal.Some? && Holds(AddAll(d, adds).normal.value, SoundAdds(adds))
  {
    if adds != [] {
      hide Holds, Grown, Stored, Taken;
      var before := adds[..|adds| - 1];
      NormalHolds(d, before);
      SoundAddsNext(adds);
      HoldsNext(AddAll(d, before).normal.value, SoundAdds(adds));
    } else {
      assert SoundAdds(adds) == adds;
    }
  }

  /** A folded tree alone holds the lower-cased keys in the same way. */
  lemma {:induction false} FoldedHolds<T>(d: Dict<T>, adds: Adds<T>)
    requires d.normal == None && d.folded == Some(Fresh())
    ensures AddAll(d, adds).normal == None && AddAll(d, adds).folded.Some?
    ensures Holds(AddAll(d, adds).folded.value, SoundAdds(LowerAdds(adds)))
  {
    var low := LowerAdds(adds);
    if adds != [] {
      hide Holds, Grown, Stored, Taken;
      var before := adds[..|adds| - 1];
      FoldedHolds(d, before);
      SoundAddsNext(adds);
      SoundAddsNext(low);
      HoldsNext(AddAll(d, before).folded.value, SoundAdds(low));
    } else {
      assert SoundAdds(low) == adds;
    }
  }

  // ---- The folded tree beside the normal one

  ghost predicate IsFoldedPath<T>(adds: Adds<T>, p: string) {
    p == "" || exists i :: 0 <= i < |adds| && AllSound(adds[i].0) && IsPrefix(p, Lowered(adds[i].0))
  }

  /** The element first added for a lower-cased key, by an addition with alphabet characters only
      that was no duplicate in the normal tree. */
  ghost function FoldedFirst<T>(adds: Adds<T>, q: string): (e: Option<T>) {
    if adds == [] then None
    else
      var before, last := adds[..|adds| - 1], adds[|adds| - 1];
      var e := FoldedFirst(before, q);
      if e.Some? then e
      else if q != "" && AllSound(last.0) && Lowered(last.0) == q && First(SoundAdds(before), last.0).None? then last.1
      else None
  }

  ghost predicate HoldsFolded<T>(m: Tree<T>, adds: Adds<T>) {
    forall q :: (q in m <==> IsFoldedPath(adds, q)) && (q in m ==> m[q] == FoldedFirst(adds, q))
  }

  lemma IsFoldedPathNext<T>(adds: Adds<T>, p: string)
    requires adds != []
    ensures var last := adds[|adds| - 1].0;
            IsFoldedPath(adds, p) <==> IsFoldedPath(adds[..|adds| - 1], p) || (AllSound(last) && IsPrefix(p, Lowered(last)))
  {
    hide InAlphabet, AllSound;
    var n := |adds| - 1;
    if p != "" {
      if IsFoldedPath(adds[..n], p) {
        var i :| 0 <= i < n && AllSound(adds[..n][i].0) && IsPrefix(p, Lowered(adds[..n][i].0));
        assert AllSound(adds[i].0);
      }
      if IsFoldedPath(adds, p) {
        var i :| 0 <= i < |adds| && AllSound(adds[i].0) && IsPrefix(p, Lowered(adds[i].0));
        assert i < n ==> adds[..n][i] == adds[i];
      }
    }
  }

  lemma {:induction false} NoneFolded<T>(adds: Adds<T>, q: string)
    requires !IsFoldedPath(adds, q)
    ensures FoldedFirst(adds, q) == None
  {
    if adds != [] {
      IsFoldedPathNext(adds, q);
      NoneFolded(adds[..|adds| - 1], q);
      var low := Lowered(adds[|adds| - 1].0);
      assert IsPrefix(low, low);
    }
  }

  lemma FoldedFirstNext<T>(adds: Adds<T>, q: string)
    requires adds != [] && AllSound(adds[|adds| - 1].0)
    ensures var before, last := adds[..|adds| - 1], adds[|adds| - 1];
            var e := FoldedFirst(before, q);
            FoldedFirst(adds, q) ==
            (if e.Some? then e
             else if q == Lowered(last.0) != "" && First(SoundAdds(before), last.0).None? then last.1 else None)
  {
  }

  /** One key more; `dup` tells whether the normal tree refused it. */
  lemma HoldsFoldedNext<T>(m: Tree<T>, adds: Adds<T>, dup: bool)
    requires adds != [] && HoldsFolded(m, adds[..|adds| - 1]) && AllSound(adds[|adds| - 1].0)
    requires var key := adds[|adds| - 1].0; dup <==> First(SoundAdds(adds[..|adds| - 1]), key).Some?
    ensures var last := adds[|adds| - 1];
            var g := Grown(m, Lowered(last.0));
            HoldsFolded(if dup || Taken(g, Lowered(last.0)) then g else Stored(g, Lowered(last.0), last.1), adds)
  {
    var last := adds[|adds| - 1];
    var low := Lowered(last.0);
    var g := Grown(m, low);
    var r := if dup || Taken(g, low) then g else Stored(g, low, last.1);
    hide *;
    forall q
      ensures q in r <==> IsFoldedPath(adds, q)
      ensures q in r ==> r[q] == FoldedFirst(adds, q)
    {
      FoldedAt(m, adds, dup, q);
    }
    IsHoldsFolded(r, adds);
  }

  lemma IsHoldsFolded<T>(m: Tree<T>, adds: Adds<T>)
    requires forall q :: (q in m <==> IsFoldedPath(adds, q)) && (q in m ==> m[q] == FoldedFirst(adds, q))
    ensures HoldsFolded(m, adds)
  {
  }

  /** The same for one path. */
  lemma FoldedAt<T>(m: Tree<T>, adds: Adds<T>, dup: bool, q: string)
    requires adds != [] && HoldsFolded(m, adds[..|adds| - 1]) && AllSound(adds[|adds| - 1].0)
    requires var key := adds[|adds| - 1].0; dup <==> First(SoundAdds(adds[..|adds| - 1]), key).Some?
    ensures var last := adds[|adds| - 1];
            var g := Grown(m, Lowered(last.0));
            var r := if dup || Taken(g, Lowered(last.0)) then g else Stored(g, Lowered(last.0), last.1);
            (q in r <==> IsFoldedPath(adds, q)) && (q in r ==> r[q] == FoldedFirst(adds, q))
  {
    var n := |adds| - 1;
    var low := Lowered(adds[n].0);
    hide IsFoldedPath, InAlphabet, First, FoldedFirst, AllSound, SoundAdds, Lowered, IsPrefix, Grown, Stored, Taken;
    StoredAt(m, low, adds[n].1, dup, q);
    FoldedFirstNext(adds, q);
    IsFoldedPathNext(adds, q);
    if !IsFoldedPath(adds[..n], q) { NoneFolded(adds[..n], q); }
  }

  lemma HoldsFoldedSkips<T>(m: Tree<T>, adds: Adds<T>)
    requires adds != [] && HoldsFolded(m, adds[..|adds| - 1]) && !AllSound(adds[|adds| - 1].0)
    ensures HoldsFolded(m, adds)
  {
    forall q
      ensures q in m <==> IsFoldedPath(adds, q)
      ensures q in m ==> m[q] == FoldedFirst(adds, q)
    {
      hide IsFoldedPath, InAlphabet;
      IsFoldedPathNext(adds, q);
    }
  }

  /** What both trees hold after any additions. */
  lemma {:induction false} BothHold<T>(d: Dict<T>, adds: Adds<T>)
    requires d == Dict(Some(Fresh()), Some(Fresh()))
    ensures var r := AddAll(d, adds);
            r.normal.Some? && r.folded.Some? && Holds(r.normal.value, SoundAdds(adds)) && HoldsFolded(r.folded.value, adds)
  {
    NormalHolds(d, adds);
    if adds != [] {
      hide Holds, HoldsFolded, Grown, Stored, Taken, First, FoldedFirst;
      var before, last := adds[..|adds| - 1], adds[|adds| - 1];
      BothHold(d, before);
      var was := AddAll(d, before);
      if AllSound(last.0) {
        SoundWhole(last.0);
        LoweredSound(last.0);
        TakenIs(was.normal.value, SoundAdds(before), last.0);
        EmptyFirst(before);
        HoldsFoldedNext(was.folded.value, adds, Taken(Grown(was.normal.value, last.0), last.0));
      } else {
        HoldsFoldedSkips(was.folded.value, adds);
      }
    }
  }

  lemma TakenIs<T>(m: Tree<T>, adds: Adds<T>, key: string)
    requires Holds(m, adds)
    ensures Taken(Grown(m, key), key) <==> First(adds, key).Some?
  {
    if !IsPath(adds, key) { NoneFirst(adds, key); }
    EmptyFirst(adds);
  }

  lemma {:induction false} EmptyFirst<T>(adds: Adds<T>)
    ensures First(adds, "") == None
  {
    if adds != [] { EmptyFirst(adds[..|adds| - 1]); }
  }

  /** With alphabet characters only, the folded tree holds the lower-cased keys, and each with
      the element first added for it: a duplicate in the normal tree is one in the folded tree. */
  lemma {:induction false} FoldedIsLowered<T>(adds: Adds<T>, q: string)
    requires SoundKeys(adds)
    ensures FoldedFirst(adds, q) == First(LowerAdds(adds), q)
    ensures IsFoldedPath(adds, q) <==> IsPath(LowerAdds(adds), q)
    ensures SoundAdds(adds) == adds
  {
    forall i | 0 <= i < |adds|
      ensures Sound(adds[i].0) == adds[i].0
    {
      SoundWhole(adds[i].0);
    }
    var low := LowerAdds(adds);
    if adds != [] {
      var n := |adds| - 1;
      var before, last := adds[..n], adds[n];
      SoundAddsNext(adds);
      assert forall i :: 0 <= i < n ==> before[i] == adds[i];
      FoldedIsLowered(before, q);
      assert SoundAdds(before) == before;
      IsFoldedPathNext(adds, q);
      IsPathNext(low, q);
      if Lowered(last.0) == q && First(before, last.0).Some? { FirstLowered(before, last.0); }
    }
  }

  lemma {:induction false} FirstLowered<T>(adds: Adds<T>, key: string)
    requires First(adds, key).Some?
    ensures First(LowerAdds(adds), Lowered(key)).Some?
  {
    SoundAddsNext(adds);
    var before := adds[..|adds| - 1];
    if First(before, key).Some? { FirstLowered(before, key); }
  }

  /** The `i`-th addition has an element for the key. */
  ghost predicate Brings<T>(adds: Adds<T>, p: string, i: nat)
    requires i < |adds|
  {
    p != "" && adds[i].0 == p && adds[i].1.Some?
  }

  /** The element held is the one of the first addition that has one. */
  lemma {:induction false} FirstIs<T>(adds: Adds<T>, p: string) returns (j: nat)
    ensures j <= |adds| && forall i :: 0 <= i < j ==> !Brings(adds, p, i)
    ensures if j == |adds| then First(adds, p) == None else Brings(adds, p, j) && First(adds, p) == adds[j].1
  {
    j := 0;
    if adds != [] {
      var n := |adds| - 1;
      j := FirstIs(adds[..n], p);
      forall i | 0 <= i < n
        ensures Brings(adds[..n], p, i) <==> Brings(adds, p, i)
      {
      }
      if j == n && !Brings(adds, p, n) { j := n + 1; }
    }
  }

  /** The `i`-th addition has an element for this lower-cased key. */
  ghost predicate BringsLower<T>(adds: Adds<T>, q: string, i: nat)
    requires i < |adds|
  {
    q != "" && Lowered(adds[i].0) == q && adds[i].1.Some?
  }

  /** The normal tree has no element yet for the `j`-th key: no key with an element was the same up
      to its first character outside the alphabet. */
  ghost predicate NotTaken<T>(adds: Adds<T>, j: nat)
    requires j < |adds|
  {
    forall i :: 0 <= i < j ==> !(Sound(adds[i].0) == adds[j].0 && adds[i].1.Some?)
  }

  /** The `i`-th addition puts an element for `q` into the folded tree if there is none. */
  ghost predicate Folded<T>(adds: Adds<T>, q: string, i: nat)
    requires i < |adds|
  {
    BringsLower(adds, q, i) && AllSound(adds[i].0) && NotTaken(adds, i)
  }

  lemma TakenBefore<T>(adds: Adds<T>, q: string, j: nat)
    requires j < |adds| && q != "" && Lowered(adds[j].0) == q
    ensures First(SoundAdds(adds[..j]), adds[j].0).None? <==> NotTaken(adds, j)
  {
    hide Sound, First;
    var s, p := SoundAdds(adds[..j]), adds[j].0;
    var k := FirstIs(s, p);
    assert p != "" by { assert |Lowered(p)| == |p|; }
    forall i | 0 <= i < j
      ensures Brings(s, p, i) <==> Sound(adds[i].0) == p && adds[i].1.Some?
    {
      assert s[i] == (Sound(adds[i].0), adds[i].1);
    }
  }

  /** The one whose element the folded tree holds. */
  lemma {:induction false} FoldedFirstIs<T>(adds: Adds<T>, q: string) returns (j: nat)
    ensures j <= |adds| && forall i :: 0 <= i < j ==> !Folded(adds, q, i)
    ensures if j == |adds| then FoldedFirst(adds, q) == None else Folded(adds, q, j) && FoldedFirst(adds, q) == adds[j].1
  {
    hide Sound, AllSound, Lowered, First, SoundAdds, Folded;
    j := 0;
    if adds != [] {
      var n := |adds| - 1;
      j := FoldedFirstIs(adds[..n], q);
      forall i | 0 <= i < n
        ensures Folded(adds[..n], q, i) <==> Folded(adds, q, i)
      {
        FoldedSame(adds, q, i, n);
      }
      FoldedIs(adds, q, n);
      var e := FoldedFirst(adds[..n], q);
      assert j < n ==> e == adds[j].1 && e.Some? by {
        if j < n { FoldedBrings(adds, q); }
      }
      assert FoldedFirst(adds, q) == if e.Some? then e else if Folded(adds, q, n) then adds[n].1 else None;
      if j == n && !Folded(adds, q, n) { j := n + 1; }
    }
  }

  lemma FoldedSame<T>(adds: Adds<T>, q: string, i: nat, n: nat)
    requires i < n <= |adds|
    ensures Folded(adds[..n], q, i) <==> Folded(adds, q, i)
  {
    hide Sound, AllSound, Lowered;
    assert forall k :: 0 <= k <= i ==> adds[..n][k] == adds[k];
  }

  lemma FoldedIs<T>(adds: Adds<T>, q: string, n: nat)
    requires n < |adds|
    ensures Folded(adds, q, n) <==>
            q != "" && AllSound(adds[n].0) && Lowered(adds[n].0) == q && adds[n].1.Some?
            && First(SoundAdds(adds[..n]), adds[n].0).None?
  {
    hide Sound, AllSound, Lowered, First, SoundAdds;
    if q != "" && Lowered(adds[n].0) == q { TakenBefore(adds, q, n); }
  }

  /** The one that a search without regard to case should find. */
  lemma FirstLowerIs<T>(adds: Adds<T>, q: string) returns (j: nat)
    ensures j <= |adds| && forall i :: 0 <= i < j ==> !BringsLower(adds, q, i)
    ensures if j == |adds| then First(LowerAdds(adds), q) == None
            else BringsLower(adds, q, j) && First(LowerAdds(adds), q) == adds[j].1
  {
    hide Lowered, First;
    var l := LowerAdds(adds);
    j := FirstIs(l, q);
    forall i | 0 <= i < |adds|
      ensures Brings(l, q, i) <==> BringsLower(adds, q, i)
      ensures l[i].1 == adds[i].1
    {
      assert l[i] == (Lowered(adds[i].0), adds[i].1);
    }
  }

  /** The first addition with an element for a lower-cased key. */
  ghost predicate Gives<T>(adds: Adds<T>, q: string, j: nat)
    requires j < |adds|
  {
    BringsLower(adds, q, j) && forall i :: 0 <= i < j ==> !BringsLower(adds, q, i)
  }

  /** The first one that the folded tree takes. */
  ghost predicate GivesFolded<T>(adds: Adds<T>, q: string, j: nat)
    requires j < |adds|
  {
    Folded(adds, q, j) && forall i :: 0 <= i < j ==> !Folded(adds, q, i)
  }

  /** The first addition for `q` has a key of alphabet characters only, and no earlier key with an
      element was the same up to its first character outside the alphabet. */
  ghost predicate Unshadowed<T>(adds: Adds<T>, q: string) {
    forall j :: 0 <= j < |adds| && Gives(adds, q, j) ==> AllSound(adds[j].0) && NotTaken(adds, j)
  }

  /** A later addition that is taken happens to bring the same element. */
  ghost predicate SameLater<T>(adds: Adds<T>, q: string) {
    exists j, k :: 0 <= j < |adds| && 0 <= k < |adds| && Gives(adds, q, j) && GivesFolded(adds, q, k) && adds[k].1 == adds[j].1
  }

  /** For any additions: the folded tree holds the element first added for a lower-cased key exactly
      if the addition that brought it is not shadowed, or a later one brings the same. */
  lemma FoldedIsFirst<T>(adds: Adds<T>, q: string)
    ensures FoldedFirst(adds, q) == First(LowerAdds(adds), q) <==> Unshadowed(adds, q) || SameLater(adds, q)
  {
    hide AllSound, NotTaken, First, FoldedFirst, LowerAdds, BringsLower;
    var j := FirstLowerIs(adds, q);
    var k := FoldedFirstIs(adds, q);
    FoldedBrings(adds, q);
    if j < |adds| {
      assert Gives(adds, q, j);
      assert forall i :: 0 <= i < |adds| && Gives(adds, q, i) ==> i == j;
      if k < |adds| {
        assert GivesFolded(adds, q, k);
        assert forall i :: 0 <= i < |adds| && GivesFolded(adds, q, i) ==> i == k;
      }
    }
  }

  lemma FoldedBrings<T>(adds: Adds<T>, q: string)
    ensures forall i :: 0 <= i < |adds| ==>
      (Folded(adds, q, i) <==> BringsLower(adds, q, i) && AllSound(adds[i].0) && NotTaken(adds, i))
    ensures forall i :: 0 <= i < |adds| && BringsLower(adds, q, i) ==> adds[i].1.Some?
  {
    hide AllSound, NotTaken;
  }

  /** An input that is shadowed: after a key that was cut short, the folded tree loses one. */
  lemma CutKeyShadows<T>(e: T)
    ensures var adds := [("a\t", Some(e)), ("a", Some(e))];
            First(LowerAdds(adds), "a") == Some(e) && FoldedFirst(adds, "a") == None
            && First(SoundAdds(adds), "a") == Some(e)
  {
    var adds := [("a\t", Some(e)), ("a", Some(e))];
    var one := [("a\t", Some(e))];
    assert adds[..1] == one && one[..0] == [];
    CutKey();
    var s := SoundAdds(adds);
    var s1 := SoundAdds(one);
    assert s[..1] == s1 && s1[..0] == [];
    assert First(s1[..0], "a") == None;
    assert First(s1, "a") == Some(e);
    assert First(s, "a") == Some(e);
    var l := LowerAdds(adds);
    assert l[1] == ("a", Some(e)) by { assert Lowered("a") == "a"; }
    assert l[0].0 == Lowered("a\t") && |l[0].0| == 2;
    assert l[..1][..0] == [];
    assert First(l[..1][..0], "a") == None;
    assert First(l[..1], "a") == None;
    assert FoldedFirst(one[..0], "a") == None;
    assert FoldedFirst(one, "a") == None;
  }

  lemma CutKey()
    ensures Sound("a\t") == "a" && Sound("a") == "a" && !AllSound("a\t") && AllSound("a")
  {
    LettersWide();
    LettersAt(0);
    hide LETTERS;
    assert KEYS[10] == LETTERS[0] == 'a';
    TabMissing();
    assert "a\t"[..1] == "a";
    SoundIs("a\t", 1);
    assert "a"[..1] == "a";
    SoundIs("a", 1);
    assert '\t' in "a\t" by { assert "a\t"[1] == '\t'; }
  }

  lemma TabMissing()
    ensures !InAlphabet('\t')
  {
  }
}
