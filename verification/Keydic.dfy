/** CKeydic (keydic.inl): two tries over a fixed alphabet, one of them over lower-cased keys.
    A trie is a heap of nodes; the ghost map `nodes` names each node by its path. */
module Keydic {
  import opened KeydicSpec

  const ITEM_NUM := 100

  // ---- Positions in the alphabet

  /** The first position of a character, or -1. */
  ghost function PosFrom(c: char, i: nat): (r: int)
    requires i <= |KEYS|
    ensures r == -1 || (i <= r < |KEYS| && KEYS[r] == c)
    ensures r == -1 <==> c !in KEYS[i..]
    decreases |KEYS| - i
  {
    if i == |KEYS| then -1 else if c == KEYS[i] then i else
      assert c in KEYS[i..] <==> c in KEYS[i + 1..] by { assert KEYS[i..] == [KEYS[i]] + KEYS[i + 1..]; }
      PosFrom(c, i + 1)
  }

  ghost function Pos(c: char): int { PosFrom(c, 0) }

  lemma PosIs(c: char)
    ensures -1 <= Pos(c) < ITEM_NUM && (Pos(c) >= 0 <==> InAlphabet(c))
  {
    LettersWide();
    hide KEYS;
    assert KEYS[0..] == KEYS;
  }

  lemma PosDiffers(c: char, d: char)
    requires Pos(c) >= 0 && Pos(c) == Pos(d)
    ensures c == d
  {
    hide KEYS;
  }

  /** strtopos. */
  method StrToPos(ch: char) returns (i: int)
    ensures i == Pos(ch)
  {
    LettersWide();
    hide KEYS, PosFrom;
    i := 0;
    while i < ITEM_NUM
      invariant 0 <= i <= ITEM_NUM && PosFrom(ch, i) == Pos(ch)
    {
      PosOnce(ch, i);
      if ch == KEYS[i] { return i; }
      i := i + 1;
    }
    PosEnd(ch);
    return -1;
  }

  lemma PosOnce(c: char, i: nat)
    requires i < |KEYS|
    ensures PosFrom(c, i) == if c == KEYS[i] then i else PosFrom(c, i + 1)
  {
    hide KEYS;
  }

  lemma PosEnd(c: char)
    ensures PosFrom(c, |KEYS|) == -1
  {
    hide KEYS;
  }

  // ---- One trie

  class ItemData<T> {
    var ch: char
    var pParent: ItemData?<T>
    var arChild: seq<ItemData?<T>>
    var element: Option<T>

    constructor ()
      ensures |arChild| == ITEM_NUM && (forall i :: 0 <= i < ITEM_NUM ==> arChild[i] == null)
      ensures element == None
    {
      ch := 0 as char;
      element := None;
      pParent := null;
      arChild := seq(ITEM_NUM, i => null);
    }
  }

  type Nodes<T> = map<string, ItemData<T>>

  function Then(p: string, c: char): (q: string) { p + [c] }

  /** The fields of every node, by path. */
  ghost function Kids<T>(nodes: Nodes<T>): map<string, seq<ItemData?<T>>>
    reads nodes.Values`arChild
  {
    map p | p in nodes :: nodes[p].arChild
  }

  ghost function Chars<T>(nodes: Nodes<T>): map<string, char>
    reads nodes.Values`ch
  {
    map p | p in nodes :: nodes[p].ch
  }

  ghost function Parents<T>(nodes: Nodes<T>): map<string, ItemData?<T>>
    reads nodes.Values`pParent
  {
    map p | p in nodes :: nodes[p].pParent
  }

  /** Every node has 100 children slots; a slot holds the node of the path one character longer,
      if there is one, and is NULL if there is none. */
  ghost predicate Branches<T>(nodes: Nodes<T>, p: string, kids: seq<ItemData?<T>>) {
    |kids| == ITEM_NUM &&
    forall c :: 0 <= Pos(c) < ITEM_NUM ==>
      kids[Pos(c)] == if Then(p, c) in nodes then nodes[Then(p, c)] else null
  }

  /** A node's character is the last of its path, and its parent is the path without it. */
  ghost predicate Linked<T>(nodes: Nodes<T>, p: string, ch: char, parent: ItemData?<T>) {
    p != "" && p[|p| - 1] == ch && p[..|p| - 1] in nodes && InAlphabet(ch) && parent == nodes[p[..|p| - 1]]
  }

  ghost predicate OneToOne<T>(nodes: Nodes<T>) {
    forall p, q :: p in nodes && q in nodes && nodes[p] == nodes[q] ==> p == q
  }

  ghost predicate Shape<T>(nodes: Nodes<T>, kids: map<string, seq<ItemData?<T>>>, chars: map<string, char>,
      parents: map<string, ItemData?<T>>)
  {
    nodes.Keys == kids.Keys == chars.Keys == parents.Keys
    && (forall p :: p in nodes ==> Branches(nodes, p, kids[p]))
    && (forall p :: p in nodes && p != "" ==> Linked(nodes, p, chars[p], parents[p]))
    && OneToOne(nodes)
  }

  ghost predicate Trie<T>(root: ItemData<T>, nodes: Nodes<T>)
    reads nodes.Values`arChild, nodes.Values`ch, nodes.Values`pParent
  {
    "" in nodes && nodes[""] == root && Shape(nodes, Kids(nodes), Chars(nodes), Parents(nodes))
  }

  function Nulls<T>(): seq<ItemData?<T>> { seq(ITEM_NUM, i => null) }

  lemma ThenParts(p: string, c: char)
    ensures Then(p, c)[..|p|] == p && Then(p, c)[|p|] == c && Then(p, c) != ""
  {
  }

  /** A node hung into an empty slot. */
  lemma ShapeGrows<T>(nodes: Nodes<T>, kids: map<string, seq<ItemData?<T>>>, chars: map<string, char>,
      parents: map<string, ItemData?<T>>, p: string, c: char, x: ItemData<T>)
    requires Shape(nodes, kids, chars, parents) && p in nodes && InAlphabet(c)
    requires 0 <= Pos(c) < ITEM_NUM && Then(p, c) !in nodes
    requires forall q :: q in nodes ==> nodes[q] != x
    ensures |kids[p]| == ITEM_NUM
    ensures var path := Then(p, c);
            Shape(nodes[path := x], kids[p := kids[p][Pos(c) := x]][path := Nulls()], chars[path := c],
                  parents[path := nodes[p]])
  {
    hide Pos, InAlphabet, Branches, Linked, OneToOne;
    var path := Then(p, c);
    ThenParts(p, c);
    BranchesGrow(nodes, kids, chars, parents, p, c, x);
    forall q | q in nodes && q != ""
      ensures Linked(nodes[path := x], q, chars[q], parents[q])
    {
      LinkedStays(nodes, path, x, q, chars[q], parents[q]);
    }
    LinkedNew(nodes, p, c, x);
    StaysOneToOne(nodes, path, x);
  }

  lemma LinkedNew<T>(nodes: Nodes<T>, p: string, c: char, x: ItemData<T>)
    requires p in nodes && InAlphabet(c)
    ensures Linked(nodes[Then(p, c) := x], Then(p, c), c, nodes[p])
  {
    ThenParts(p, c);
  }

  lemma StaysOneToOne<T>(nodes: Nodes<T>, path: string, x: ItemData<T>)
    requires OneToOne(nodes) && forall q :: q in nodes ==> nodes[q] != x
    ensures OneToOne(nodes[path := x])
  {
  }

  lemma LinkedStays<T>(nodes: Nodes<T>, path: string, x: ItemData<T>, q: string, ch: char, parent: ItemData?<T>)
    requires Linked(nodes, q, ch, parent) && path !in nodes
    ensures Linked(nodes[path := x], q, ch, parent)
  {
  }

  lemma BranchesGrow<T>(nodes: Nodes<T>, kids: map<string, seq<ItemData?<T>>>, chars: map<string, char>,
      parents: map<string, ItemData?<T>>, p: string, c: char, x: ItemData<T>)
    requires Shape(nodes, kids, chars, parents) && p in nodes
    requires 0 <= Pos(c) < ITEM_NUM && Then(p, c) !in nodes
    ensures var path := Then(p, c);
            |kids[p]| == ITEM_NUM &&
            Branches(nodes[path := x], path, Nulls()) && Branches(nodes[path := x], p, kids[p][Pos(c) := x]) &&
            forall q :: q in nodes && q != p ==> Branches(nodes[path := x], q, kids[q])
  {
    hide Pos, InAlphabet;
    var path := Then(p, c);
    var more := nodes[path := x];
    assert Branches(nodes, p, kids[p]);
    forall d | 0 <= Pos(d) < ITEM_NUM
      ensures Then(path, d) !in more
    {
      ThenParts(path, d);
    }
    forall d | 0 <= Pos(d) < ITEM_NUM
      ensures kids[p][Pos(c) := x][Pos(d)] == if Then(p, d) in more then more[Then(p, d)] else null
    {
      ThenParts(p, c);
      ThenParts(p, d);
      if Pos(d) == Pos(c) { PosDiffers(d, c); }
    }
    forall q | q in nodes && q != p
      ensures Branches(more, q, kids[q])
    {
      assert Branches(nodes, q, kids[q]);
      forall d | 0 <= Pos(d) < ITEM_NUM
        ensures kids[q][Pos(d)] == if Then(q, d) in more then more[Then(q, d)] else null
      {
        ThenParts(p, c);
        ThenParts(q, d);
      }
    }
  }

  ghost function Elements<T>(nodes: Nodes<T>): (m: Tree<T>)
    reads nodes.Values`element
    ensures m.Keys == nodes.Keys
  {
    map p | p in nodes :: nodes[p].element
  }

  ghost function Entered<T>(m: Tree<T>, path: string): Tree<T> {
    if path in m then m else m[path := None]
  }

  /** A new node in an empty slot: what that does to the fields of the nodes. */
  method Hang<T>(pCurItem: ItemData<T>, nPos: nat, c: char, ghost p: string, ghost nodes: Nodes<T>)
    returns (pItem: ItemData<T>)
    requires p in nodes && nodes[p] == pCurItem && nPos < |pCurItem.arChild| && Then(p, c) !in nodes
    requires OneToOne(nodes)
    modifies nodes.Values
    ensures fresh(pItem)
    ensures var path, more := Then(p, c), nodes[Then(p, c) := pItem];
            Kids(more) == old(Kids(nodes))[p := old(pCurItem.arChild)[nPos := pItem]][path := Nulls()]
            && Chars(more) == old(Chars(nodes))[path := c] && Parents(more) == old(Parents(nodes))[path := pCurItem]
            && Elements(more) == old(Elements(nodes))[path := None]
  {
    pItem := new ItemData<T>();
    pItem.ch := c;
    pItem.pParent := pCurItem;
    assert pItem.arChild == Nulls();
    assert forall q :: q in nodes && q != p ==> nodes[q] != pCurItem;
    pCurItem.arChild := pCurItem.arChild[nPos := pItem];
    KidsHung(nodes, old(Kids(nodes)), p, Then(p, c), pItem);
    RestHung(nodes, old(Chars(nodes)), old(Parents(nodes)), old(Elements(nodes)), Then(p, c), pItem);
  }

  lemma KidsHung<T>(nodes: Nodes<T>, kids: map<string, seq<ItemData?<T>>>, p: string, path: string, x: ItemData<T>)
    requires p in nodes && path !in nodes && kids.Keys == nodes.Keys
    requires forall q :: q in nodes && q != p ==> nodes[q].arChild == kids[q]
    ensures Kids(nodes[path := x]) == kids[p := nodes[p].arChild][path := x.arChild]
  {
  }

  lemma RestHung<T>(nodes: Nodes<T>, chars: map<string, char>, parents: map<string, ItemData?<T>>, elements: Tree<T>,
      path: string, x: ItemData<T>)
    requires path !in nodes && chars.Keys == parents.Keys == elements.Keys == nodes.Keys
    requires forall q :: q in nodes ==>
      nodes[q].ch == chars[q] && nodes[q].pParent == parents[q] && nodes[q].element == elements[q]
    ensures Chars(nodes[path := x]) == chars[path := x.ch] && Parents(nodes[path := x]) == parents[path := x.pParent]
    ensures Elements(nodes[path := x]) == elements[path := x.element]
  {
  }

  /** One turn of the loop of add_key: the child for a character, made if it is missing. */
  method Enter<T>(root: ItemData<T>, pCurItem: ItemData<T>, nPos: nat, c: char, ghost p: string, ghost nodes: Nodes<T>)
    returns (pItem: ItemData<T>, ghost more: Nodes<T>)
    requires Trie(root, nodes) && p in nodes && nodes[p] == pCurItem && nPos == Pos(c)
    modifies nodes.Values
    ensures Trie(root, more) && Then(p, c) in more && more[Then(p, c)] == pItem
    ensures fresh(more.Values - nodes.Values)
    ensures Elements(more) == Entered(old(Elements(nodes)), Then(p, c))
  {
    PosIs(c);
    hide Pos, InAlphabet, Branches, Linked, Shape, OneToOne;
    ghost var path := Then(p, c);
    ghost var kids, chars, parents := Kids(nodes), Chars(nodes), Parents(nodes);
    OneNode(nodes, kids, chars, parents, p, c);
    if pCurItem.arChild[nPos] == null {
      pItem := Hang(pCurItem, nPos, c, p, nodes);
      ShapeGrows(nodes, kids, chars, parents, p, c, pItem);
      more := nodes[path := pItem];
    } else {
      pItem := pCurItem.arChild[nPos];
      pItem.ch := c;
      more := nodes;
      assert Kids(more) == kids && Chars(more) == chars && Parents(more) == parents;
      assert Elements(more) == old(Elements(nodes));
    }
  }

  /** What the shape says about one node and one of its slots. */
  lemma OneNode<T>(nodes: Nodes<T>, kids: map<string, seq<ItemData?<T>>>, chars: map<string, char>,
      parents: map<string, ItemData?<T>>, p: string, c: char)
    requires Shape(nodes, kids, chars, parents) && p in nodes && 0 <= Pos(c) < ITEM_NUM
    ensures nodes.Keys == kids.Keys == chars.Keys == parents.Keys && |kids[p]| == ITEM_NUM
    ensures kids[p][Pos(c)] == if Then(p, c) in nodes then nodes[Then(p, c)] else null
    ensures Then(p, c) in nodes ==> chars[Then(p, c)] == c
    ensures OneToOne(nodes)
    ensures Then(p, c) != p && Then(p, c) != ""
  {
    hide Pos, InAlphabet;
    assert Branches(nodes, p, kids[p]);
    ThenParts(p, c);
    if Then(p, c) in nodes { assert Linked(nodes, Then(p, c), chars[Then(p, c)], parents[Then(p, c)]); }
  }

  /** Where the loop of add_key is after `i` characters: at their node, which is in the trie. */
  ghost predicate Reached<T>(root: ItemData<T>, item: ItemData<T>, pBuf: string, i: nat, elements: Tree<T>, nodes: Nodes<T>)
    reads nodes.Values`arChild, nodes.Values`ch, nodes.Values`pParent, nodes.Values`element
  {
    i <= |pBuf| && AllSound(pBuf[..i]) && Trie(root, nodes) && pBuf[..i] in nodes && nodes[pBuf[..i]] == item
    && Elements(nodes) == Grown(elements, pBuf[..i])
  }

  lemma ReachedStart<T>(root: ItemData<T>, pBuf: string, nodes: Nodes<T>)
    requires Trie(root, nodes)
    ensures Reached(root, root, pBuf, 0, Elements(nodes), nodes)
  {
    RootIn(root, nodes);
    SoundStart(pBuf, Elements(nodes));
  }

  lemma ReachedEnd<T>(root: ItemData<T>, item: ItemData<T>, pBuf: string, i: nat, elements: Tree<T>, nodes: Nodes<T>)
    requires Reached(root, item, pBuf, i, elements, nodes) && (i == |pBuf| || !InAlphabet(pBuf[i]))
    ensures Trie(root, nodes) && Sound(pBuf) in nodes && nodes[Sound(pBuf)] == item
    ensures AllSound(pBuf) <==> i == |pBuf|
    ensures Sound(pBuf) == "" <==> i == 0
    ensures Elements(nodes) == Grown(elements, Sound(pBuf))
  {
    hide Trie, AllSound, Sound, InAlphabet, Elements, Grown;
    SoundIs(pBuf, i);
    if i == |pBuf| { assert pBuf[..i] == pBuf; } else { NotSound(pBuf, i); }
  }

  /** One turn of the loop of add_key; NULL at a character outside the alphabet. */
  method Turn<T>(root: ItemData<T>, pCurItem: ItemData<T>, pBuf: string, i: nat, ghost nodes: Nodes<T>,
      ghost elements: Tree<T>)
    returns (pItem: ItemData?<T>, ghost more: Nodes<T>)
    requires Reached(root, pCurItem, pBuf, i, elements, nodes) && i < |pBuf|
    modifies nodes.Values
    ensures fresh(more.Values - nodes.Values)
    ensures pItem == null ==> !InAlphabet(pBuf[i]) && Reached(root, pCurItem, pBuf, i, elements, more)
    ensures pItem != null ==> Reached(root, pItem, pBuf, i + 1, elements, more)
  {
    hide Trie, AllSound, InAlphabet, Elements, Grown, Pos, Entered, Then;
    PosIs(pBuf[i]);
    var nPos := StrToPos(pBuf[i]);
    if nPos == -1 { return null, nodes; }
    PathNext(elements, pBuf, i);
    pItem, more := Enter(root, pCurItem, nPos, pBuf[i], pBuf[..i], nodes);
  }

  /** The loop of add_key over one tree. It stops at a character outside the alphabet. */
  method AddPath<T>(root: ItemData<T>, pBuf: string, ghost nodes: Nodes<T>)
    returns (pLastItem: ItemData?<T>, whole: bool, ghost more: Nodes<T>)
    requires Trie(root, nodes)
    modifies nodes.Values
    ensures Trie(root, more) && Sound(pBuf) in more
    ensures pLastItem == if Sound(pBuf) == "" then null else more[Sound(pBuf)]
    ensures whole <==> AllSound(pBuf)
    ensures fresh(more.Values - nodes.Values)
    ensures Elements(more) == Grown(old(Elements(nodes)), Sound(pBuf))
  {
    hide *;
    ghost var elements := Elements(nodes);
    var pCurItem: ItemData<T> := root;
    pLastItem := null;
    more := nodes;
    ReachedStart(root, pBuf, nodes);
    var i := 0;
    while i < |pBuf|
      invariant 0 <= i <= |pBuf| && Reached(root, pCurItem, pBuf, i, elements, more)
      invariant pLastItem == if i == 0 then null else pCurItem
      invariant fresh(more.Values - nodes.Values)
    {
      var pItem;
      pItem, more := Turn(root, pCurItem, pBuf, i, more, elements);
      if pItem == null { break; }
      pCurItem, pLastItem := pItem, pItem;
      i := i + 1;
    }
    ReachedEnd(root, pCurItem, pBuf, i, elements, more);
    return pLastItem, i == |pBuf|, more;
  }

  lemma RootIn<T>(root: ItemData<T>, nodes: Nodes<T>)
    requires Trie(root, nodes)
    ensures "" in nodes && nodes[""] == root && OneToOne(nodes)
  {
  }

  lemma SoundStart<T>(s: string, m: Tree<T>)
    ensures AllSound(s[..0]) && s[..0] == ""
    ensures "" in m ==> Grown(m, s[..0]) == m
  {
  }

  lemma NotSound(s: string, i: nat)
    requires i < |s| && !InAlphabet(s[i])
    ensures !AllSound(s)
  {
  }

  /** A key is grown one character at a time. */
  lemma PathNext<T>(m: Tree<T>, s: string, i: nat)
    requires i < |s|
    ensures s[..i + 1] == Then(s[..i], s[i])
    ensures Grown(m, s[..i + 1]) == Entered(Grown(m, s[..i]), s[..i + 1])
    ensures AllSound(s[..i]) && InAlphabet(s[i]) ==> AllSound(s[..i + 1])
  {
    hide InAlphabet;
    forall q
      ensures IsPrefix(q, s[..i + 1]) <==> IsPrefix(q, s[..i]) || q == s[..i + 1]
    {
      if |q| <= i { assert s[..i + 1][..|q|] == s[..i][..|q|]; }
    }
  }

  // ---- Searching one trie

  /** Every prefix of a path is a path. */
  lemma {:induction false} PrefixIn<T>(root: ItemData<T>, nodes: Nodes<T>, q: string, n: nat)
    requires Trie(root, nodes) && q in nodes && n <= |q|
    ensures q[..n] in nodes
    decreases |q|
  {
    if n == |q| {
      assert q[..n] == q;
    } else {
      assert Linked(nodes, q, Chars(nodes)[q], Parents(nodes)[q]);
      PrefixIn(root, nodes, q[..|q| - 1], n);
      assert q[..|q| - 1][..n] == q[..n];
    }
  }

  lemma StopsHere<T>(root: ItemData<T>, nodes: Nodes<T>, s: string, i: nat)
    requires Trie(root, nodes) && i <= |s| && s[..i] in nodes
    requires i < |s| ==> s[..i + 1] !in nodes
    ensures LongestIn(Elements(nodes), s, s[..i])
  {
    hide Shape, Branches, Linked;
    assert forall q :: IsPrefix(q, s) && i < |q| ==> q[..i + 1] == s[..i + 1];
    forall q | q in nodes && IsPrefix(q, s)
      ensures |q| <= i
    {
      if i < |q| { PrefixIn(root, nodes, q, i + 1); }
    }
  }

  /** What the trie says about a node and the slot of a character. */
  lemma Look<T>(root: ItemData<T>, nodes: Nodes<T>, p: string, c: char)
    requires Trie(root, nodes) && p in nodes
    ensures !InAlphabet(c) ==> Then(p, c) !in nodes
    ensures |nodes[p].arChild| == ITEM_NUM && Pos(c) < ITEM_NUM
    ensures Pos(c) >= 0 ==> nodes[p].arChild[Pos(c)] == if Then(p, c) in nodes then nodes[Then(p, c)] else null
    ensures Then(p, c) in nodes ==> nodes[Then(p, c)].ch == c
  {
    hide Pos, InAlphabet;
    PosIs(c);
    ThenParts(p, c);
    assert Branches(nodes, p, Kids(nodes)[p]);
    if Then(p, c) in nodes {
      assert Linked(nodes, Then(p, c), Chars(nodes)[Then(p, c)], Parents(nodes)[Then(p, c)]);
    }
  }

  /** The loop of search_key: down the trie as far as the text goes with it. */
  method SearchTree<T>(root: ItemData<T>, pBuf: string, pElement: Option<T>, ghost nodes: Nodes<T>)
    returns (bMatch: bool, element: Option<T>, pOutBuf: string)
    requires Trie(root, nodes)
    ensures LongestIn(Elements(nodes), pBuf, pOutBuf)
    ensures bMatch <==> pOutBuf != ""
    ensures element == if pOutBuf == "" then pElement else Elements(nodes)[pOutBuf]
  {
    hide Trie, Pos, InAlphabet, LongestIn;
    RootIn(root, nodes);
    var pCurItem := root;
    bMatch, element, pOutBuf := false, pElement, "";
    var i := 0;
    assert pBuf[..0] == "";
    while i < |pBuf|
      invariant 0 <= i <= |pBuf| && pOutBuf == pBuf[..i] && pOutBuf in nodes && pCurItem == nodes[pOutBuf]
      invariant bMatch <==> pOutBuf != ""
      invariant element == if pOutBuf == "" then pElement else nodes[pOutBuf].element
    {
      Look(root, nodes, pOutBuf, pBuf[i]);
      PosIs(pBuf[i]);
      assert Then(pOutBuf, pBuf[i]) == pBuf[..i + 1];
      var nPos := StrToPos(pBuf[i]);
      if nPos == -1 || pCurItem.arChild[nPos] == null || pCurItem.arChild[nPos].ch != pBuf[i] { break; }
      bMatch := true;
      pOutBuf := pOutBuf + [pCurItem.arChild[nPos].ch];
      element := pCurItem.arChild[nPos].element;
      pCurItem := pCurItem.arChild[nPos];
      i := i + 1;
    }
    StopsHere(root, nodes, pBuf, i);
  }

  // ---- A trie that need not be there

  ghost predicate Rooted<T>(root: ItemData?<T>, nodes: Nodes<T>)
    reads nodes.Values`arChild, nodes.Values`ch, nodes.Values`pParent
  {
    if root == null then nodes == map[] else Trie(root, nodes)
  }

  ghost function TreeOf<T>(root: ItemData?<T>, nodes: Nodes<T>): Option<Tree<T>>
    reads nodes.Values`element
  {
    if root == null then None else Some(Elements(nodes))
  }

  /** The pointer to the last node of a key; NULL if there is no such tree or the key is empty. */
  ghost predicate IsNode<T>(item: ItemData?<T>, there: bool, k: string, nodes: Nodes<T>) {
    (there ==> k in nodes && OneToOne(nodes)) && item == if there && k != "" then nodes[k] else null
  }

  /** One of the two loops of add_key, if there is such a tree. */
  method AddTo<T>(root: ItemData?<T>, pBuf: string, ghost nodes: Nodes<T>)
    returns (pLastItem: ItemData?<T>, whole: bool, ghost more: Nodes<T>)
    requires Rooted(root, nodes)
    modifies nodes.Values
    ensures Rooted(root, more) && fresh(more.Values - nodes.Values)
    ensures TreeOf(root, more) == GrownTree(old(TreeOf(root, nodes)), pBuf)
    ensures IsNode(pLastItem, root != null, Sound(pBuf), more)
    ensures whole <==> root == null || AllSound(pBuf)
  {
    hide Trie, Sound, AllSound, Grown, Elements, OneToOne;
    if root == null { return null, true, nodes; }
    pLastItem, whole, more := AddPath(root, pBuf, nodes);
    RootIn(root, more);
  }

  // ---- CKeydic

  class CKeydic<T> {
    var m_pRoot: ItemData?<T>
    var m_pRootCase: ItemData?<T>
    ghost var nodes: Nodes<T>
    ghost var nodesCase: Nodes<T>

    ghost predicate Valid()
      reads this, nodes.Values`arChild, nodes.Values`ch, nodes.Values`pParent
      reads nodesCase.Values`arChild, nodesCase.Values`ch, nodesCase.Values`pParent
    {
      Rooted(m_pRoot, nodes) && Rooted(m_pRootCase, nodesCase) && nodes.Values !! nodesCase.Values
    }

    /** What the dictionary holds. */
    ghost function State(): Dict<T>
      reads this, nodes.Values`element, nodesCase.Values`element
    {
      Dict(TreeOf(m_pRoot, nodes), TreeOf(m_pRootCase, nodesCase))
    }

    constructor ()
      ensures Valid() && State() == Dict(None, None) && nodes == map[] && nodesCase == map[]
    {
      m_pRoot, m_pRootCase := null, null;
      nodes, nodesCase := map[], map[];
    }

    /** init_root: 0 for the normal tree, 1 for the lower-cased one, 2 for both. */
    method InitRoot(nflag: int) returns (r: int)
      requires Valid()
      modifies this
      ensures Valid() && r == 0
      ensures State() == Dict(if nflag == 0 || nflag == 2 then Some(Fresh()) else old(State()).normal,
                              if nflag == 1 || nflag == 2 then Some(Fresh()) else old(State()).folded)
      ensures fresh((nodes.Values + nodesCase.Values) - old(nodes.Values + nodesCase.Values))
    {
      hide Rooted, TreeOf, Fresh;
      if nflag == 0 || nflag == 2 {
        m_pRoot, nodes := NewRoot();
      }
      if nflag == 1 || nflag == 2 {
        m_pRootCase, nodesCase := NewRoot();
      }
      return 0;
    }

    /** The first loop of add_key. */
    method AddNormal(pBuf: string) returns (pLastItem: ItemData?<T>, whole: bool)
      requires Valid()
      modifies this`nodes, nodes.Values
      ensures Valid() && State() == old(State()).(normal := GrownTree(old(State()).normal, pBuf))
      ensures fresh(nodes.Values - old(nodes.Values))
      ensures IsNode(pLastItem, m_pRoot != null, Sound(pBuf), nodes)
      ensures whole <==> m_pRoot == null || AllSound(pBuf)
    {
      hide Rooted, TreeOf, IsNode, GrownTree, Sound, AllSound;
      pLastItem, whole, nodes := AddTo(m_pRoot, pBuf, nodes);
      assert TreeOf(m_pRootCase, nodesCase) == old(TreeOf(m_pRootCase, nodesCase));
    }

    /** The second one, over the lower-cased key. */
    method AddFolded(pBuf: string) returns (pLastCaseItem: ItemData?<T>)
      requires Valid()
      modifies this`nodesCase, nodesCase.Values
      ensures Valid() && State() == old(State()).(folded := GrownTree(old(State()).folded, Lowered(pBuf)))
      ensures fresh(nodesCase.Values - old(nodesCase.Values))
      ensures IsNode(pLastCaseItem, m_pRootCase != null, Sound(Lowered(pBuf)), nodesCase)
    {
      hide Rooted, TreeOf, IsNode, GrownTree, Sound, AllSound, Lowered;
      var lower := ToLower(pBuf);
      var whole;
      pLastCaseItem, whole, nodesCase := AddTo(m_pRootCase, lower, nodesCase);
      assert TreeOf(m_pRoot, nodes) == old(TreeOf(m_pRoot, nodes));
    }

    /** Both: the second loop runs if there is such a tree, and the first one has not met a
        character outside the alphabet. */
    method AddPaths(pBuf: string) returns (pLastItem: ItemData?<T>, pLastCaseItem: ItemData?<T>)
      requires Valid()
      modifies this`nodes, this`nodesCase, nodes.Values, nodesCase.Values
      ensures Valid() && State() == GrownBoth(old(State()), pBuf)
      ensures fresh((nodes.Values + nodesCase.Values) - old(nodes.Values + nodesCase.Values))
      ensures IsNode(pLastItem, m_pRoot != null, Sound(pBuf), nodes)
      ensures IsNode(pLastCaseItem, Folds(State(), pBuf), Sound(Lowered(pBuf)), nodesCase)
    {
      hide Rooted, TreeOf, IsNode, GrownTree, Sound, AllSound, Lowered;
      TreeThere(m_pRoot, nodes);
      TreeThere(m_pRootCase, nodesCase);
      var whole;
      pLastItem, whole := AddNormal(pBuf);
      TreeThere(m_pRoot, nodes);
      pLastCaseItem := null;
      if m_pRootCase != null && whole {
        pLastCaseItem := AddFolded(pBuf);
      } else {
        NoNode<T>(Sound(Lowered(pBuf)), nodesCase);
      }
      TreeThere(m_pRootCase, nodesCase);
    }

    /** The end of add_key: the element at the node of the key, in both trees. */
    method PutBoth(pBuf: string, pLastItem: ItemData?<T>, pLastCaseItem: ItemData?<T>, pElement: Option<T>)
      returns (r: int)
      requires Valid()
      requires IsNode(pLastItem, m_pRoot != null, Sound(pBuf), nodes)
      requires IsNode(pLastCaseItem, Folds(State(), pBuf), Sound(Lowered(pBuf)), nodesCase)
      modifies nodes.Values`element, nodesCase.Values`element
      ensures Valid() && (State(), r) == StoredBoth(old(State()), pBuf, pElement)
    {
      hide Rooted, Sound, Lowered, Folds, IsNode, Elements, Taken, Stored;
      NodeIn(pLastItem, m_pRoot != null, Sound(pBuf), nodes);
      NodeIn(pLastCaseItem, Folds(State(), pBuf), Sound(Lowered(pBuf)), nodesCase);
      FoldsHas(State(), pBuf);
      var dup := PutElement(pLastItem, pElement, m_pRoot != null, Sound(pBuf), nodes);
      FoldsHas(State(), pBuf);
      if dup { return NORMALTREE_DUP; }
      dup := PutElement(pLastCaseItem, pElement, Folds(State(), pBuf), Sound(Lowered(pBuf)), nodesCase);
      if dup { return CASETREE_DUP; }
      return SUCC;
    }

    /** add_key. */
    method AddKey(pBuf: string, pElement: Option<T>) returns (r: int)
      requires Valid()
      modifies this`nodes, this`nodesCase, nodes.Values, nodesCase.Values
      ensures Valid() && (State(), r) == Added(old(State()), pBuf, pElement)
      ensures fresh((nodes.Values + nodesCase.Values) - old(nodes.Values + nodesCase.Values))
    {
      hide Rooted, TreeOf, Sound, Lowered, GrownBoth, StoredBoth, Folds, IsNode, Elements;
      var pLastItem, pLastCaseItem := AddPaths(pBuf);
      r := PutBoth(pBuf, pLastItem, pLastCaseItem, pElement);
    }

    /** search_key: 0 if at least one character matched. */
    method SearchKey(pBuf: string, pElement: Option<T>) returns (r: int, element: Option<T>, pOutBuf: string)
      requires Valid()
      ensures m_pRoot == null ==> r == -1 && element == pElement
      ensures m_pRoot != null ==> Found(State().normal.value, pBuf, pElement, r, element, pOutBuf)
    {
      if m_pRoot == null { return -1, pElement, ""; }
      var bMatch;
      bMatch, element, pOutBuf := SearchTree(m_pRoot, pBuf, pElement, nodes);
      r := if bMatch then 0 else -1;
    }

    /** search_ncase_key: the same over the lower-cased text. */
    method SearchNcaseKey(pBuf: string, pElement: Option<T>) returns (r: int, element: Option<T>, pOutBuf: string)
      requires Valid()
      ensures m_pRootCase == null ==> r == -1 && element == pElement
      ensures m_pRootCase != null ==> Found(State().folded.value, Lowered(pBuf), pElement, r, element, pOutBuf)
    {
      if m_pRootCase == null { return -1, pElement, ""; }
      var lower := ToLower(pBuf);
      var bMatch;
      bMatch, element, pOutBuf := SearchTree(m_pRootCase, lower, pElement, nodesCase);
      r := if bMatch then 0 else -1;
    }
  }

  lemma TreeThere<T>(root: ItemData?<T>, nodes: Nodes<T>)
    ensures TreeOf(root, nodes).Some? <==> root != null
  {
  }

  lemma NodeIn<T>(item: ItemData?<T>, there: bool, k: string, nodes: Nodes<T>)
    requires IsNode(item, there, k, nodes)
    ensures item != null ==> item in nodes.Values
    ensures there ==> k in nodes
  {
  }

  lemma NoNode<T>(k: string, nodes: Nodes<T>)
    ensures IsNode(null, false, k, nodes)
  {
  }

  lemma FoldsHas<T>(d: Dict<T>, key: string)
    ensures Folds(d, key) ==> d.folded.Some?
    ensures d.folded.Some? ==> (Folds(d, key) <==> d.normal.None? || AllSound(key))
  {
  }

  /** The end of add_key for one tree: an element is put where there is none. */
  method PutElement<T>(pLastItem: ItemData?<T>, pElement: Option<T>, ghost there: bool, ghost k: string,
      ghost nodes: Nodes<T>)
    returns (dup: bool)
    requires IsNode(pLastItem, there, k, nodes)
    modifies (if pLastItem == null then {} else {pLastItem})`element
    ensures !there ==> !dup && Elements(nodes) == old(Elements(nodes))
    ensures there ==>
              (dup <==> Taken(old(Elements(nodes)), k))
              && Elements(nodes) == (if dup then old(Elements(nodes)) else Stored(old(Elements(nodes)), k, pElement))
  {
    dup := false;
    if pLastItem != null {
      if pLastItem.element.Some? { return true; }
      pLastItem.element := pElement;
    }
  }

  /** What a search gives back: the element is left alone if nothing matched. */
  ghost predicate Found<T>(m: Tree<T>, s: string, was: Option<T>, r: int, element: Option<T>, p: string) {
    LongestIn(m, s, p) && r == (if p == "" then -1 else 0) && element == (if p == "" then was else m[p])
  }

  /** tolower, character by character. */
  method ToLower(s: string) returns (r: string)
    ensures r == Lowered(s)
  {
    r := seq(|s|, i requires 0 <= i < |s| => Lower(s[i]));
  }

  method NewRoot<T>() returns (root: ItemData<T>, ghost nodes: Nodes<T>)
    ensures Rooted(root, nodes) && TreeOf(root, nodes) == Some(Fresh()) && fresh(root) && nodes == map["" := root]
  {
    hide Pos;
    root := new ItemData<T>();
    nodes := map["" := root];
    assert forall c: char :: Then("", c) !in nodes;
    assert Elements(nodes) == Fresh<T>();
  }

  // ---- Whole runs

  /** The longest prefix of `s` that is a prefix of an added key. */
  ghost predicate LongestPath<T>(adds: Adds<T>, s: string, p: string) {
    IsPrefix(p, s) && IsPath(adds, p) && forall q :: IsPath(adds, q) && IsPrefix(q, s) ==> |q| <= |p|
  }

  /** What a search finds after these additions. */
  ghost predicate FoundAmong<T>(adds: Adds<T>, s: string, was: Option<T>, r: int, element: Option<T>, p: string) {
    LongestPath(adds, s, p) && r == (if p == "" then -1 else 0) && element == (if p == "" then was else First(adds, p))
  }

  lemma FoundIs<T>(m: Tree<T>, adds: Adds<T>, s: string, was: Option<T>, r: int, element: Option<T>, p: string)
    requires Holds(m, adds)
    ensures Found(m, s, was, r, element, p) <==> FoundAmong(adds, s, was, r, element, p)
  {
    hide IsPath, First, IsPrefix;
  }

  lemma FoldedHoldsLowered<T>(m: Tree<T>, adds: Adds<T>)
    requires HoldsFolded(m, adds) && SoundKeys(adds)
    ensures Holds(m, LowerAdds(adds)) && SoundAdds(adds) == adds
  {
    hide SoundKeys, IsPath, IsFoldedPath, First, FoldedFirst;
    forall q
      ensures q in m <==> IsPath(LowerAdds(adds), q)
      ensures q in m ==> m[q] == First(LowerAdds(adds), q)
    {
      FoldedIsLowered(adds, q);
    }
    FoldedIsLowered(adds, "");
  }

  /** Both trees after any additions, made one by one. */
  method Build<T>(adds: Adds<T>) returns (dic: CKeydic<T>)
    ensures fresh(dic) && fresh(dic.nodes.Values + dic.nodesCase.Values) && dic.Valid()
    ensures dic.State() == AddAll(Dict(Some(Fresh()), Some(Fresh())), adds)
  {
    hide Added, Rooted, TreeOf, Fresh;
    dic := new CKeydic<T>();
    var r := dic.InitRoot(2);
    ghost var start := dic.State();
    var i := 0;
    assert adds[..0] == [];
    while i < |adds|
      invariant 0 <= i <= |adds| && dic.Valid() && dic.State() == AddAll(start, adds[..i])
      invariant fresh(dic.nodes.Values + dic.nodesCase.Values)
    {
      r := dic.AddKey(adds[i].0, adds[i].1);
      assert adds[..i + 1][..i] == adds[..i];
      i := i + 1;
    }
    assert adds[..i] == adds;
  }

  /** search_key and search_ncase_key after any additions: the first for any keys, the second
      for keys of alphabet characters. */
  method BuildAndSearch<T>(adds: Adds<T>, s: string, was: Option<T>)
    returns (r: int, element: Option<T>, p: string, rCase: int, elementCase: Option<T>, pCase: string)
    ensures FoundAmong(SoundAdds(adds), s, was, r, element, p)
    ensures SoundKeys(adds) ==> FoundAmong(adds, s, was, r, element, p)
    ensures SoundKeys(adds) ==> FoundAmong(LowerAdds(adds), Lowered(s), was, rCase, elementCase, pCase)
  {
    hide AddAll, Rooted, TreeOf, Holds, HoldsFolded, Found, FoundAmong, SoundKeys, Lowered;
    var dic := Build(adds);
    BothHold<T>(Dict(Some(Fresh()), Some(Fresh())), adds);
    r, element, p := dic.SearchKey(s, was);
    rCase, elementCase, pCase := dic.SearchNcaseKey(s, was);
    TreeThere(dic.m_pRoot, dic.nodes);
    TreeThere(dic.m_pRootCase, dic.nodesCase);
    FoundIs(dic.State().normal.value, SoundAdds(adds), s, was, r, element, p);
    if SoundKeys(adds) {
      FoldedHoldsLowered(dic.State().folded.value, adds);
      FoundIs(dic.State().folded.value, LowerAdds(adds), Lowered(s), was, rCase, elementCase, pCase);
    }
  }
}
