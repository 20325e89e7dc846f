/** What x_Adjust is for: after an edit, every offset behind the edited place moves by the
    same amount.  `Work` is the order in which it visits the slots and `Adjusted` what it
    leaves; the lemmas say that the visits move each slot once, and that the moved
    offsets are those of the longer (or shorter) text. */
module MarkupAdjust {
  import opened MarkupText
  import opened MarkupGrammar
  import opened MarkupTree

  predicate SameLinks(a: seq<ElemPos>, b: seq<ElemPos>) {
    |a| == |b| && forall k :: 0 <= k < |a| ==>
      a[k].parent == b[k].parent && a[k].child == b[k].child && a[k].next == b[k].next
  }

  /** One step of x_Adjust: both tags of the element at `slot` move, or its end tag only. */
  datatype Visit = Visit(slot: nat, whole: bool)

  function Visits(f: Forest): seq<Visit> {
    match f
    case End(_) => []
    case EmptyElem(slot, _, _, rest) => [Visit(slot, true)] + Visits(rest)
    case FullElem(slot, _, _, kids, _, rest) => [Visit(slot, true)] + Visits(kids) + Visits(rest)
  }

  /** From the hole of `c` on: what follows it, and the end tags of the elements around it. */
  function CtxVisits(c: Ctx): seq<Visit> {
    match c
    case Top => [Visit(0, false)]
    case AfterEmpty(outer, _, _, _) => CtxVisits(outer)
    case AfterFull(outer, _, _, _, _, _) => CtxVisits(outer)
    case Inside(outer, slot, _, _, _, rest) => [Visit(slot, false)] + Visits(rest) + CtxVisits(outer)
  }

  /** The visits of x_Adjust from the first element of `x` in the hole of `c`. */
  function Work(x: Forest, c: Ctx, afterPos: bool): seq<Visit>
    requires !x.End?
  {
    (if afterPos then [] else Visits(Kids(x))) + Visits(x.rest) + CtxVisits(c)
  }

  function Move(p: ElemPos, whole: bool, n: int): ElemPos {
    if whole then p.AdjustStart(n).AdjustEnd(n) else p.AdjustEnd(n)
  }

  function Update(a: seq<ElemPos>, v: Visit, n: int): (r: seq<ElemPos>)
    ensures |r| == |a|
  {
    if v.slot < |a| then a[v.slot := Move(a[v.slot], v.whole, n)] else a
  }

  function Apply(a: seq<ElemPos>, w: seq<Visit>, n: int): (r: seq<ElemPos>)
    ensures |r| == |a|
    decreases |w|
  {
    if w == [] then a else Apply(Update(a, w[0], n), w[1..], n)
  }

  // ---- The walk

  /** Elements that were entered on the way down, with the siblings still to visit. */
  datatype Stack = Bottom | Push(slot: nat, rest: Forest, below: Stack)

  /** Where x_Adjust is: at element `at`, with `kids` (unless it skips them) and the
      siblings `rest` to visit, below the entered elements `up`, which all follow the
      elements of `outer` that are around the edited place. */
  datatype Walk = Walk(at: nat, kids: Forest, rest: Forest, up: Stack, outer: Ctx, skip: bool)

  function StackVisits(s: Stack): seq<Visit> {
    match s
    case Bottom => []
    case Push(_, rest, below) => Visits(rest) + StackVisits(below)
  }

  function Todo(w: Walk): seq<Visit> {
    Visits(w.kids) + Visits(w.rest) + StackVisits(w.up) + CtxVisits(w.outer)
  }

  function UpSlot(up: Stack, outer: Ctx): nat {
    if up.Push? then up.slot else ParentOf(outer, 0)
  }

  function Enter(f: Forest, up: Stack, outer: Ctx): Walk
    requires !f.End?
  {
    Walk(f.slot, Kids(f), f.rest, up, outer, false)
  }

  datatype Stop = At(w: Walk) | Done

  /** The nearest element around the place, of which only the end tag moves. */
  function Surface(c: Ctx): Stop {
    match c
    case Top => Done
    case AfterEmpty(outer, _, _, _) => Surface(outer)
    case AfterFull(outer, _, _, _, _, _) => Surface(outer)
    case Inside(outer, slot, _, _, _, rest) => At(Walk(slot, End(""), rest, Bottom, outer, true))
  }

  function Climb(up: Stack, outer: Ctx): Stop {
    match up
    case Bottom => Surface(outer)
    case Push(_, rest, below) => if rest.End? then Climb(below, outer) else At(Enter(rest, below, outer))
  }

  /** The next stop of the walk. */
  function Next(w: Walk): Stop {
    if !w.kids.End? then At(Enter(w.kids, Push(w.at, w.rest, w.up), w.outer))
    else if !w.rest.End? then At(Enter(w.rest, w.up, w.outer))
    else Climb(w.up, w.outer)
  }

  function StopVisit(s: Stop): Visit {
    match s
    case Done => Visit(0, false)
    case At(w) => Visit(w.at, !w.skip)
  }

  function StopTodo(s: Stop): seq<Visit> {
    match s
    case Done => []
    case At(w) => Todo(w)
  }

  lemma {:induction false} SurfaceTodo(c: Ctx)
    ensures CtxVisits(c) == [StopVisit(Surface(c))] + StopTodo(Surface(c))
  {
    hide Todo, Visits;
    match c
    case Top =>
    case AfterEmpty(outer, _, _, _) => SurfaceTodo(outer);
    case AfterFull(outer, _, _, _, _, _) => SurfaceTodo(outer);
    case Inside(outer, slot, _, _, _, rest) => InsideTodo(outer, slot, rest);
  }

  lemma InsideTodo(outer: Ctx, slot: nat, rest: Forest)
    ensures Todo(Walk(slot, End(""), rest, Bottom, outer, true)) == Visits(rest) + CtxVisits(outer)
    ensures [Visit(slot, false)] + Visits(rest) + CtxVisits(outer) == [Visit(slot, false)] + (Visits(rest) + CtxVisits(outer))
  {
    hide CtxVisits;
    assert Visits(End("")) == [] && StackVisits(Bottom) == [];
    assert [] + Visits(rest) + [] + CtxVisits(outer) == Visits(rest) + CtxVisits(outer);
  }

  lemma EnterTodo(f: Forest, up: Stack, outer: Ctx)
    requires !f.End?
    ensures Visits(f) + StackVisits(up) + CtxVisits(outer) == [Visit(f.slot, true)] + Todo(Enter(f, up, outer))
  {
  }

  lemma {:induction false} ClimbTodo(up: Stack, outer: Ctx)
    ensures StackVisits(up) + CtxVisits(outer) == [StopVisit(Climb(up, outer))] + StopTodo(Climb(up, outer))
  {
    match up
    case Bottom =>
      SurfaceTodo(outer);
    case Push(_, rest, below) =>
      if rest.End? {
        ClimbTodo(below, outer);
      } else {
        EnterTodo(rest, below, outer);
      }
  }

  /** Each stop takes the first visit off the list. */
  lemma NextTodo(w: Walk)
    ensures Todo(w) == [StopVisit(Next(w))] + StopTodo(Next(w))
  {
    hide CtxVisits;
    if !w.kids.End? {
      EnterTodo(w.kids, Push(w.at, w.rest, w.up), w.outer);
    } else if !w.rest.End? {
      EnterTodo(w.rest, w.up, w.outer);
    } else {
      ClimbTodo(w.up, w.outer);
    }
  }

  // ---- Links and distinctness along the walk

  /** The links by which x_Adjust leaves the elements around the hole. */
  predicate UpLinked(a: seq<ElemPos>, c: Ctx) {
    match c
    case Top => true
    case AfterEmpty(outer, _, _, _) => UpLinked(a, outer)
    case AfterFull(outer, _, _, _, _, _) => UpLinked(a, outer)
    case Inside(outer, slot, _, _, _, rest) =>
      && 0 < slot < |a| && a[slot].parent == ParentOf(outer, 0) && a[slot].next == First(rest)
      && Linked(a, rest, ParentOf(outer, 0)) && UpLinked(a, outer)
  }

  predicate StackLinked(a: seq<ElemPos>, up: Stack, outer: Ctx) {
    match up
    case Bottom => true
    case Push(slot, rest, below) =>
      && 0 < slot < |a| && a[slot].parent == UpSlot(below, outer) && a[slot].next == First(rest)
      && Linked(a, rest, UpSlot(below, outer)) && StackLinked(a, below, outer)
  }

  predicate WalkLinked(a: seq<ElemPos>, w: Walk) {
    && 0 < w.at < |a| && a[w.at].parent == UpSlot(w.up, w.outer) && a[w.at].next == First(w.rest)
    && Linked(a, w.rest, UpSlot(w.up, w.outer)) && StackLinked(a, w.up, w.outer) && UpLinked(a, w.outer)
    && (if w.skip then w.kids.End? && w.up.Bottom? else a[w.at].child == First(w.kids) && Linked(a, w.kids, w.at))
  }

  /** The elements around the hole. */
  function Around(c: Ctx): set<nat> {
    match c
    case Top => {}
    case AfterEmpty(outer, _, _, _) => Around(outer)
    case AfterFull(outer, _, _, _, _, _) => Around(outer)
    case Inside(outer, slot, _, _, _, _) => {slot} + Around(outer)
  }

  predicate Clear(f: Forest, s: set<nat>) {
    f.End? || (f.slot !in s && (f.FullElem? ==> Clear(f.kids, s)) && Clear(f.rest, s))
  }

  predicate ClearStack(up: Stack, s: set<nat>) {
    up.Bottom? || (up.slot !in s && Clear(up.rest, s) && ClearStack(up.below, s))
  }

  predicate ClearCtx(c: Ctx) {
    match c
    case Top => true
    case AfterEmpty(outer, _, _, _) => ClearCtx(outer)
    case AfterFull(outer, _, _, _, _, _) => ClearCtx(outer)
    case Inside(outer, slot, _, _, _, rest) => slot !in Around(outer) && Clear(rest, Around(outer)) && ClearCtx(outer)
  }

  predicate WalkClear(w: Walk) {
    && w.at !in Around(w.outer) && Clear(w.kids, Around(w.outer)) && Clear(w.rest, Around(w.outer))
    && ClearStack(w.up, Around(w.outer)) && ClearCtx(w.outer)
  }

  predicate Good(a: seq<ElemPos>, w: Walk) {
    WalkLinked(a, w) && WalkClear(w)
  }

  lemma EnterGood(a: seq<ElemPos>, f: Forest, up: Stack, outer: Ctx)
    requires !f.End? && Linked(a, f, UpSlot(up, outer)) && StackLinked(a, up, outer) && UpLinked(a, outer)
    requires Clear(f, Around(outer)) && ClearStack(up, Around(outer)) && ClearCtx(outer)
    ensures Good(a, Enter(f, up, outer))
  {
  }

  lemma {:induction false} SurfaceGood(a: seq<ElemPos>, c: Ctx)
    requires UpLinked(a, c) && ClearCtx(c)
    ensures match Surface(c)
      case Done => ParentOf(c, 0) == 0
      case At(w) => Good(a, w) && w.at == ParentOf(c, 0) && w.skip
  {
    match c
    case Top =>
    case AfterEmpty(outer, _, _, _) => SurfaceGood(a, outer);
    case AfterFull(outer, _, _, _, _, _) => SurfaceGood(a, outer);
    case Inside(outer, slot, _, _, _, rest) =>
  }

  lemma {:induction false} ParentAround(a: seq<ElemPos>, c: Ctx)
    requires UpLinked(a, c)
    ensures ParentOf(c, 0) != 0 ==> ParentOf(c, 0) in Around(c)
  {
    match c
    case Top =>
    case AfterEmpty(outer, _, _, _) => ParentAround(a, outer);
    case AfterFull(outer, _, _, _, _, _) => ParentAround(a, outer);
    case Inside(outer, slot, _, _, _, rest) =>
  }

  /** The walk of x_Adjust from the first element of `x` in the hole of `c`. */
  function StartWalk(x: Forest, c: Ctx, afterPos: bool): Walk
    requires !x.End?
  {
    Walk(x.slot, if afterPos then End("") else Kids(x), x.rest, Bottom, c, afterPos)
  }

  lemma StartWalkAt(a: seq<ElemPos>, x: Forest, c: Ctx, afterPos: bool)
    requires !x.End? && Good(a, StartWalk(x, c, afterPos))
    ensures Todo(StartWalk(x, c, afterPos)) == Work(x, c, afterPos)
    ensures 0 < x.slot < |a| && a[x.slot].parent == ParentOf(c, 0) && x.slot != ParentOf(c, 0)
    ensures var w := StartWalk(x, c, afterPos); w.at == x.slot && w.skip == afterPos && w.outer == c
  {
    ParentAround(a, c);
  }

  lemma ApplyUnfold(a: seq<ElemPos>, v: Visit, w: seq<Visit>, n: int)
    ensures Apply(a, [v] + w, n) == Apply(Update(a, v, n), w, n)
  {
    assert ([v] + w)[1..] == w;
  }

  lemma ApplyDone(n: int)
    ensures forall a: seq<ElemPos> :: Apply(a, [], n) == a
  {
  }

  lemma StopTodoOf(s: Stop)
    ensures StopTodo(s) == if s.At? then Todo(s.w) else []
  {
  }

  // ---- What the visits leave

  predicate Distinct(o: seq<nat>) {
    forall i, j :: 0 <= i < j < |o| ==> o[i] != o[j]
  }

  predicate DistinctVisits(w: seq<Visit>) {
    forall i, j :: 0 <= i < j < |w| ==> w[i].slot != w[j].slot
  }

  predicate Visited(w: seq<Visit>, s: nat) {
    exists v :: v in w && v.slot == s
  }

  /** Every element of `f` moved by `n`. */
  predicate Moved(a: seq<ElemPos>, b: seq<ElemPos>, f: Forest, n: int) {
    |a| == |b| && forall s :: s in Order(f) && s < |a| ==> b[s] == Move(a[s], true, n)
  }

  /** Behind the hole of `c` everything moved by `n`; of the elements around it, the end
      tags; and before it, nothing. */
  predicate CtxMoved(a: seq<ElemPos>, b: seq<ElemPos>, c: Ctx, n: int) {
    && |a| == |b|
    && match c
       case Top => true
       case AfterEmpty(outer, slot, _, _) =>
         (slot < |a| ==> b[slot] == a[slot]) && CtxMoved(a, b, outer, n)
       case AfterFull(outer, slot, _, _, kids, _) =>
         (slot < |a| ==> b[slot] == a[slot]) && Moved(a, b, kids, 0) && CtxMoved(a, b, outer, n)
       case Inside(outer, slot, _, _, _, rest) =>
         && (slot < |a| ==> b[slot] == Move(a[slot], false, n))
         && Moved(a, b, rest, n) && CtxMoved(a, b, outer, n)
  }

  lemma {:induction false} PlacedMoves(a: seq<ElemPos>, b: seq<ElemPos>, f: Forest, base: int, n: int)
    requires Placed(a, f, base) && Moved(a, b, f, n)
    ensures Placed(b, f, base + n)
  {
    match f
    case End(_) =>
    case EmptyElem(slot, gap, start, rest) =>
      assert slot in Order(f);
      PlacedMoves(a, b, rest, base + |gap| + |start|, n);
    case FullElem(slot, gap, start, kids, close, rest) =>
      assert slot in Order(f);
      PlacedMoves(a, b, kids, base + |gap| + |start|, n);
      PlacedMoves(a, b, rest, base + |gap| + |start| + |Text(kids)| + |close|, n);
  }

  /** The offsets around a hole whose text became `n` characters longer. */
  lemma {:induction false} PlacedCtxMoves(a: seq<ElemPos>, b: seq<ElemPos>, c: Ctx, width: nat, base: int, n: int)
    requires PlacedCtx(a, c, width, base) && CtxMoved(a, b, c, n) && width + n >= 0
    ensures PlacedCtx(b, c, width + n, base)
  {
    hide Text, Pre, Order, Placed, Moved;
    match c
    case Top =>
    case AfterEmpty(outer, slot, gap, start) =>
      PlacedCtxMoves(a, b, outer, |gap| + |start| + width, base, n);
    case AfterFull(outer, slot, gap, start, kids, close) =>
      PlacedMoves(a, b, kids, base + |Pre(outer)| + |gap| + |start|, 0);
      PlacedCtxMoves(a, b, outer, |gap| + |start| + |Text(kids)| + |close| + width, base, n);
    case Inside(outer, slot, gap, start, close, rest) =>
      PlacedMoves(a, b, rest, base + |Pre(outer)| + |gap| + |start| + width + |close|, n);
      PlacedCtxMoves(a, b, outer, |gap| + |start| + width + |close| + |Text(rest)|, base, n);
  }

  lemma {:induction false} ApplyMiss(a: seq<ElemPos>, w: seq<Visit>, n: int, s: nat)
    requires s < |a| && !Visited(w, s)
    ensures Apply(a, w, n)[s] == a[s]
    decreases |w|
  {
    if w != [] {
      assert w[0] in w;
      assert forall v :: v in w[1..] ==> v in w;
      ApplyMiss(Update(a, w[0], n), w[1..], n, s);
    }
  }

  lemma {:induction false} ApplyHit(a: seq<ElemPos>, w: seq<Visit>, n: int, v: Visit)
    requires v in w && v.slot < |a| && DistinctVisits(w)
    ensures Apply(a, w, n)[v.slot] == Move(a[v.slot], v.whole, n)
    decreases |w|
  {
    var b := Update(a, w[0], n);
    if w[0] == v {
      ApplyMiss(b, w[1..], n, v.slot);
    } else {
      ApplyHit(b, w[1..], n, v);
    }
  }

  predicate Disjoint(p: seq<nat>, q: seq<nat>) {
    forall s :: s in p ==> s !in q
  }

  lemma DistinctParts(p: seq<nat>, q: seq<nat>)
    ensures Distinct(p + q) <==> Distinct(p) && Distinct(q) && Disjoint(p, q)
  {
    var o := p + q;
    assert p == o[..|p|] && q == o[|p|..];
    if Distinct(p) && Distinct(q) && Disjoint(p, q) {
      forall i, j | 0 <= i < j < |o|
        ensures o[i] != o[j]
      {
        if i < |p| <= j {
          assert p[i] in p && q[j - |p|] in q;
        }
      }
    }
  }

  lemma DistinctVisitsParts(p: seq<Visit>, q: seq<Visit>)
    requires DistinctVisits(p) && DistinctVisits(q) && forall u, v :: u in p && v in q ==> u.slot != v.slot
    ensures DistinctVisits(p + q)
  {
  }

  lemma {:induction false} VisitsAt(f: Forest)
    ensures |Visits(f)| == |Order(f)|
    ensures forall i :: 0 <= i < |Order(f)| ==> Visits(f)[i] == Visit(Order(f)[i], true)
  {
    match f
    case End(_) =>
    case EmptyElem(slot, _, _, rest) => VisitsAt(rest);
    case FullElem(slot, _, _, kids, _, rest) => VisitsAt(kids); VisitsAt(rest);
  }

  lemma VisitsOrder(f: Forest)
    ensures forall v :: v in Visits(f) <==> v.whole && v.slot in Order(f)
    ensures Distinct(Order(f)) ==> DistinctVisits(Visits(f))
  {
    hide Visits, Order;
    VisitsAt(f);
    forall v: Visit | v.whole && v.slot in Order(f)
      ensures v in Visits(f)
    {
      var i :| 0 <= i < |Order(f)| && Order(f)[i] == v.slot;
      assert Visits(f)[i] == v;
    }
  }

  lemma {:induction false} AroundBefore(c: Ctx)
    ensures forall s :: s in Around(c) ==> s in Before(c)
  {
    match c
    case Top =>
    case AfterEmpty(outer, _, _, _) => AroundBefore(outer);
    case AfterFull(outer, _, _, _, _, _) => AroundBefore(outer);
    case Inside(outer, _, _, _, _, _) => AroundBefore(outer);
  }

  lemma {:induction false} CtxVisitsSlots(c: Ctx)
    ensures forall v :: v in CtxVisits(c) ==> v.slot == 0 || v.slot in Around(c) || v.slot in Behind(c)
  {
    match c
    case Top =>
    case AfterEmpty(outer, _, _, _) => CtxVisitsSlots(outer);
    case AfterFull(outer, _, _, _, _, _) => CtxVisitsSlots(outer);
    case Inside(outer, slot, _, _, _, rest) => CtxVisitsSlots(outer); VisitsOrder(rest);
  }

  /** The slots before the hole that are not around it. */
  function Still(c: Ctx): seq<nat> {
    match c
    case Top => []
    case AfterEmpty(outer, slot, _, _) => Still(outer) + [slot]
    case AfterFull(outer, slot, _, _, kids, _) => Still(outer) + ([slot] + Order(kids))
    case Inside(outer, _, _, _, _, _) => Still(outer)
  }

  lemma {:induction false} StillBefore(c: Ctx)
    requires Distinct(Before(c))
    ensures forall s :: s in Still(c) ==> s in Before(c) && s !in Around(c)
  {
    match c
    case Top =>
    case AfterEmpty(outer, slot, _, _) =>
      DistinctParts(Before(outer), [slot]);
      StillBefore(outer); AroundBefore(outer);
    case AfterFull(outer, slot, _, _, kids, _) =>
      DistinctParts(Before(outer), [slot] + Order(kids));
      StillBefore(outer); AroundBefore(outer);
    case Inside(outer, slot, _, _, _, _) =>
      DistinctParts(Before(outer), [slot]);
      StillBefore(outer);
  }

  lemma {:induction false} CtxVisitsDistinct(c: Ctx)
    requires Distinct(Before(c)) && Distinct(Behind(c)) && Disjoint(Before(c), Behind(c))
    requires 0 !in Before(c) && 0 !in Behind(c)
    ensures DistinctVisits(CtxVisits(c))
  {
    match c
    case Top =>
    case AfterEmpty(outer, slot, _, _) =>
      DistinctParts(Before(outer), [slot]);
      CtxVisitsDistinct(outer);
    case AfterFull(outer, slot, _, _, kids, _) =>
      DistinctParts(Before(outer), [slot] + Order(kids));
      assert forall s :: s in Before(outer) ==> s in Before(c);
      CtxVisitsDistinct(outer);
    case Inside(outer, slot, _, _, _, rest) =>
      DistinctParts(Before(outer), [slot]);
      DistinctParts(Order(rest), Behind(outer));
      assert forall s :: s in Before(outer) ==> s in Before(c);
      assert forall s :: s in Order(rest) || s in Behind(outer) ==> s in Behind(c);
      CtxVisitsDistinct(outer);
      CtxVisitsSlots(outer); AroundBefore(outer); VisitsOrder(rest);
      var inner := [Visit(slot, false)] + Visits(rest);
      assert slot in Before(c);
      assert forall u :: u in inner ==> u.slot == slot || u.slot in Order(rest);
      DistinctVisitsParts([Visit(slot, false)], Visits(rest));
      DistinctVisitsParts(inner, CtxVisits(outer));
  }

  lemma {:induction false} CtxMovedBy(a: seq<ElemPos>, w: seq<Visit>, c: Ctx, n: int)
    requires DistinctVisits(w)
    requires forall v :: v in CtxVisits(c) ==> v in w
    requires forall s :: s in Still(c) ==> !Visited(w, s)
    ensures CtxMoved(a, Apply(a, w, n), c, n)
  {
    hide Apply, Order, Visits, DistinctVisits;
    match c
    case Top =>
    case AfterEmpty(outer, slot, _, _) =>
      StillOf(c);
      if slot < |a| { ApplyMiss(a, w, n, slot); }
      CtxMovedBy(a, w, outer, n);
    case AfterFull(outer, slot, _, _, kids, _) =>
      StillOf(c);
      if slot < |a| { ApplyMiss(a, w, n, slot); }
      NotMovedBy(a, w, kids, n);
      CtxMovedBy(a, w, outer, n);
    case Inside(outer, slot, _, _, _, rest) =>
      assert Visit(slot, false) in CtxVisits(c);
      if slot < |a| { ApplyHit(a, w, n, Visit(slot, false)); }
      MovedBy(a, w, rest, n);
      CtxMovedBy(a, w, outer, n);
  }

  lemma StillOf(c: Ctx)
    ensures c.AfterEmpty? ==> c.slot in Still(c) && forall s :: s in Still(c.outer) ==> s in Still(c)
    ensures c.AfterFull? ==> c.slot in Still(c)
    ensures c.AfterFull? ==> forall s :: s in Still(c.outer) || s in Order(c.kids) ==> s in Still(c)
  {
  }

  lemma MovedBy(a: seq<ElemPos>, w: seq<Visit>, f: Forest, n: int)
    requires DistinctVisits(w) && forall v :: v in Visits(f) ==> v in w
    ensures Moved(a, Apply(a, w, n), f, n)
  {
    forall s | s in Order(f) && s < |a|
      ensures Apply(a, w, n)[s] == Move(a[s], true, n)
    {
      VisitsOrder(f);
      assert Visit(s, true) in Visits(f);
      ApplyHit(a, w, n, Visit(s, true));
    }
  }

  lemma NotMovedBy(a: seq<ElemPos>, w: seq<Visit>, f: Forest, n: int)
    requires forall s :: s in Order(f) ==> !Visited(w, s)
    ensures Moved(a, Apply(a, w, n), f, 0)
  {
    forall s | s in Order(f) && s < |a|
      ensures Apply(a, w, n)[s] == Move(a[s], true, 0)
    {
      ApplyMiss(a, w, n, s);
    }
  }

  /** The slots of a document with `x` in the hole of `c` are real and distinct. */
  predicate DistinctAt(c: Ctx, x: Forest) {
    && Distinct(Before(c)) && Distinct(Order(x)) && Distinct(Behind(c))
    && Disjoint(Before(c), Order(x)) && Disjoint(Before(c), Behind(c)) && Disjoint(Order(x), Behind(c))
    && 0 !in Before(c) && 0 !in Order(x) && 0 !in Behind(c)
  }

  lemma DistinctPlug(c: Ctx, x: Forest)
    ensures DistinctAt(c, x) <==> Distinct(Order(Plug(c, x))) && 0 !in Order(Plug(c, x))
  {
    PlugOrder(c, x);
    DistinctParts(Before(c) + Order(x), Behind(c));
    DistinctParts(Before(c), Order(x));
    if Disjoint(Before(c) + Order(x), Behind(c)) {
      assert forall s :: s in Before(c) || s in Order(x) ==> s in Before(c) + Order(x);
    }
  }

  /** x_Adjust(x.slot, n, afterPos) moves both tags of every element behind `x`, those of
      the elements in `x` unless `afterPos`, only the end tags of the elements around
      `x`, and nothing else. */
  lemma AdjustMoves(a: seq<ElemPos>, x: Forest, c: Ctx, afterPos: bool, n: int)
    requires !x.End? && DistinctAt(c, x)
    ensures var b := Apply(a, Work(x, c, afterPos), n);
      && CtxMoved(a, b, c, n) && Moved(a, b, x.rest, n) && Moved(a, b, Kids(x), if afterPos then 0 else n)
      && (x.slot < |a| ==> b[x.slot] == a[x.slot])
  {
    hide Apply, Moved, CtxMoved;
    var w := Work(x, c, afterPos);
    WorkVisits(x, c, afterPos);
    if x.slot < |a| { ApplyMiss(a, w, n, x.slot); }
    CtxMovedBy(a, w, c, n);
    MovedBy(a, w, x.rest, n);
    if afterPos {
      NotMovedBy(a, w, Kids(x), n);
    } else {
      MovedBy(a, w, Kids(x), n);
    }
  }

  lemma ElemOrder(x: Forest)
    requires !x.End?
    ensures Order(x) == [x.slot] + Order(Kids(x)) + Order(x.rest)
  {
  }

  /** The visits of x_Adjust are to distinct slots; which ones it leaves out. */
  lemma WorkVisits(x: Forest, c: Ctx, afterPos: bool)
    requires !x.End? && DistinctAt(c, x)
    ensures var w := Work(x, c, afterPos);
      && DistinctVisits(w) && !Visited(w, x.slot)
      && (forall v :: v in CtxVisits(c) || v in Visits(x.rest) ==> v in w)
      && (forall s :: s in Still(c) ==> !Visited(w, s))
      && (if afterPos then forall s :: s in Order(Kids(x)) ==> !Visited(w, s)
          else forall v :: v in Visits(Kids(x)) ==> v in w)
  {
    hide Order, Visits, CtxVisits, Still, Before, Behind, Around, Kids;
    var ks, rs := Order(Kids(x)), Order(x.rest);
    ElemOrder(x);
    DistinctParts([x.slot] + ks, rs);
    DistinctParts([x.slot], ks);
    assert x.slot in Order(x) && forall s :: s in ks || s in rs ==> s in Order(x);
    VisitsOrder(Kids(x)); VisitsOrder(x.rest);
    CtxVisitsDistinct(c); CtxVisitsSlots(c); AroundBefore(c); StillBefore(c);
    var inner := if afterPos then [] else Visits(Kids(x));
    DistinctVisitsParts(inner, Visits(x.rest));
    DistinctVisitsParts(inner + Visits(x.rest), CtxVisits(c));
  }

  lemma {:induction false} LinkedUp(a: seq<ElemPos>, c: Ctx, head: nat)
    requires LinkedCtx(a, c, head, 0)
    ensures UpLinked(a, c)
  {
    match c
    case Top =>
    case AfterEmpty(outer, slot, _, _) => LinkedUp(a, outer, slot);
    case AfterFull(outer, slot, _, _, _, _) => LinkedUp(a, outer, slot);
    case Inside(outer, slot, _, _, _, _) => LinkedUp(a, outer, slot);
  }

  lemma {:induction false} ClearFrom(f: Forest, s: set<nat>)
    requires forall k :: k in Order(f) ==> k !in s
    ensures Clear(f, s)
  {
    if !f.End? {
      ElemOrder(f);
      if f.FullElem? { ClearFrom(f.kids, s); }
      ClearFrom(f.rest, s);
    }
  }

  lemma {:induction false} ClearCtxFrom(c: Ctx)
    requires Distinct(Before(c)) && Disjoint(Before(c), Behind(c))
    ensures ClearCtx(c)
  {
    match c
    case Top =>
    case AfterEmpty(outer, slot, _, _) =>
      DistinctParts(Before(outer), [slot]);
      ClearCtxFrom(outer);
    case AfterFull(outer, slot, _, _, kids, _) =>
      DistinctParts(Before(outer), [slot] + Order(kids));
      ClearCtxFrom(outer);
    case Inside(outer, slot, _, _, _, rest) =>
      DistinctParts(Before(outer), [slot]);
      assert forall s :: s in Before(outer) ==> s in Before(c);
      assert forall s :: s in Order(rest) || s in Behind(outer) ==> s in Behind(c);
      AroundBefore(outer);
      ClearFrom(rest, Around(outer));
      ClearCtxFrom(outer);
  }

  lemma StartGood(a: seq<ElemPos>, x: Forest, c: Ctx, afterPos: bool, head: nat)
    requires !x.End? && DistinctAt(c, x) && LinkedCtx(a, c, head, 0)
    requires 0 < x.slot < |a| && a[x.slot].parent == ParentOf(c, 0) && a[x.slot].next == First(x.rest)
    requires Linked(a, x.rest, ParentOf(c, 0))
    requires !afterPos ==> a[x.slot].child == First(Kids(x)) && Linked(a, Kids(x), x.slot)
    ensures Good(a, StartWalk(x, c, afterPos))
  {
    hide Linked, LinkedCtx, Order, Around;
    ElemOrder(x);
    LinkedUp(a, c, head);
    AroundBefore(c);
    ClearFrom(x.rest, Around(c));
    ClearFrom(Kids(x), Around(c));
    ClearCtxFrom(c);
  }

  // ---- Slot 0 stands for the document: only its end moves

  lemma {:induction false} ApplyRoot(a: seq<ElemPos>, w: seq<Visit>, n: int)
    requires 0 < |a| && forall v :: v in w && v.slot == 0 ==> !v.whole
    ensures Apply(a, w, n)[0].startR == a[0].startR
    decreases |w|
  {
    if w != [] {
      assert w[0] in w;
      assert forall v :: v in w[1..] ==> v in w;
      ApplyRoot(Update(a, w[0], n), w[1..], n);
    }
  }

  lemma {:induction false} CtxVisitsRoot(c: Ctx)
    requires 0 !in Behind(c)
    ensures forall v :: v in CtxVisits(c) && v.slot == 0 ==> !v.whole
  {
    match c
    case Top =>
    case AfterEmpty(outer, _, _, _) => CtxVisitsRoot(outer);
    case AfterFull(outer, _, _, _, _, _) => CtxVisitsRoot(outer);
    case Inside(outer, slot, _, _, _, rest) =>
      assert forall s :: s in Order(rest) || s in Behind(outer) ==> s in Behind(c);
      CtxVisitsRoot(outer);
      VisitsOrder(rest);
  }

  lemma WorkRoot(a: seq<ElemPos>, x: Forest, c: Ctx, afterPos: bool, n: int)
    requires !x.End? && DistinctAt(c, x) && 0 < |a|
    ensures Apply(a, Work(x, c, afterPos), n)[0].startR == a[0].startR
  {
    hide Apply, Order, Visits, CtxVisits;
    ElemOrder(x);
    assert forall s :: s in Order(Kids(x)) || s in Order(x.rest) ==> s in Order(x);
    VisitsOrder(Kids(x)); VisitsOrder(x.rest); CtxVisitsRoot(c);
    ApplyRoot(a, Work(x, c, afterPos), n);
  }
}
