/**
  The shape of a skip list, stated over its node store and its level-0 order.

  `order` lists the live nodes front to back. Positions count level-0 steps
  from the header: position 0 is the header, position p >= 1 is order[p - 1].
  A level-j link out of position p is right (LinkOk) when it leads to the
  next position after p whose node has more than j levels and its span is
  the distance to that position; a link with no target has span n - p, the
  distance to the end of the list.
 */
module Layout {
  import opened Elements
  import opened Ordering

  /** The header always sits at index 0 of the node store. */
  const Header: nat := 0

  /** The node at position p. */
  function At(order: seq<nat>, p: nat): nat {
    if 0 < p <= |order| then order[p - 1] else Header
  }

  function HeightOf(nodes: seq<Element>, w: nat): nat {
    if w < |nodes| then |nodes[w].level| else 0
  }

  function Height(nodes: seq<Element>, order: seq<nat>, p: nat): nat {
    HeightOf(nodes, At(order, p))
  }

  function LinkOf(nodes: seq<Element>, w: nat, j: nat): Level {
    if w < |nodes| && j < |nodes[w].level| then nodes[w].level[j] else Level(Nil, 0)
  }

  function ValueOf(nodes: seq<Element>, w: nat): int {
    if w < |nodes| then nodes[w].value else 0
  }

  function BackOf(nodes: seq<Element>, w: nat): Ptr {
    if w < |nodes| then nodes[w].backward else Nil
  }

  /** The values of the live nodes, front to back. */
  function ValuesOf(nodes: seq<Element>, order: seq<nat>): (s: seq<int>)
    ensures |s| == |order|
    ensures forall i :: 0 <= i < |order| ==> s[i] == ValueOf(nodes, order[i])
  {
    seq(|order|, i requires 0 <= i < |order| => ValueOf(nodes, order[i]))
  }

  /** The link of the last live node, or Nil for an empty list. */
  function LastRef(order: seq<nat>): Ptr {
    if |order| == 0 then Nil else Ref(order[|order| - 1])
  }

  /** Every node of the store has between 1 and MaxLevel levels; the header has all of them. */
  ghost predicate StoreOk(nodes: seq<Element>) {
    && |nodes| > 0
    && |nodes[Header].level| == MaxLevel
    && forall w :: 0 <= w < |nodes| ==> 1 <= |nodes[w].level| <= MaxLevel
  }

  /** The live nodes at positions i < j are different nodes (trivially so if i, j do not fit). */
  ghost predicate Apart(order: seq<nat>, i: int, j: int) {
    0 <= i < j < |order| ==> order[i] != order[j]
  }

  /**
    The live nodes are distinct nodes of the store, none of them the header.
    Distinctness is stated through Apart so that a proof uses it only for the
    pairs it names.
   */
  ghost predicate OrderOk(nodes: seq<Element>, order: seq<nat>) {
    && (forall i :: 0 <= i < |order| ==> 0 < order[i] < |nodes|)
    && (forall i, j {:trigger Apart(order, i, j)} :: Apart(order, i, j))
  }

  ghost predicate LinkOk(nodes: seq<Element>, order: seq<nat>, j: nat, p: nat) {
    var lk := LinkOf(nodes, At(order, p), j);
    var n := |order|;
    if lk.forward == Nil then
      && lk.span == n - p
      && forall r :: p < r <= n ==> Height(nodes, order, r) <= j
    else
      && 0 < lk.span
      && p + lk.span <= n
      && lk.forward == Ref(At(order, p + lk.span))
      && j < Height(nodes, order, p + lk.span)
      && forall r :: p < r < p + lk.span ==> Height(nodes, order, r) <= j
  }

  /** Every node on level j links to the next node on level j, with the right span. */
  ghost predicate LevelOk(nodes: seq<Element>, order: seq<nat>, j: nat) {
    forall p {:trigger LinkOk(nodes, order, j, p)} :: 0 <= p <= |order| && j < Height(nodes, order, p) ==> LinkOk(nodes, order, j, p)
  }

  /**
    The multi-level structure for `level` levels in use: no live node is
    taller than `level`, levels below `level` are linked correctly, header
    levels from `level` up are empty, and the top level in use is not empty
    (unless it is level 0).
   */
  ghost predicate Linked(nodes: seq<Element>, order: seq<nat>, level: int) {
    && 1 <= level <= MaxLevel
    && (forall r :: 1 <= r <= |order| ==> Height(nodes, order, r) <= level)
    && (forall j :: 0 <= j < level ==> LevelOk(nodes, order, j))
    && (forall j :: level <= j < MaxLevel ==> LinkOf(nodes, Header, j).forward == Nil)
    && (level == 1 || LinkOf(nodes, Header, level - 1).forward != Nil)
  }

  /** The shape a search relies on: a sound store, a sound order, correct links and sorted values. */
  ghost predicate Shaped(nodes: seq<Element>, order: seq<nat>, level: int) {
    StoreOk(nodes) && OrderOk(nodes, order) && Linked(nodes, order, level) && Sorted(ValuesOf(nodes, order))
  }

  /** Each live node's backward link is its level-0 predecessor (Nil for the first). */
  ghost predicate BackOk(nodes: seq<Element>, order: seq<nat>) {
    forall i {:trigger BackOf(nodes, order[i])} :: 0 <= i < |order| ==> BackOf(nodes, order[i]) == (if i == 0 then Nil else Ref(order[i - 1]))
  }

  /**
    The position of the last node at or before position p that is on level j
    (0, the header, if none is): the node whose level-j link a search for
    position p + 1 stops at.
   */
  ghost function Last(nodes: seq<Element>, order: seq<nat>, j: nat, p: nat): (r: nat)
    ensures r <= p
    ensures r == 0 || j < Height(nodes, order, r)
  {
    if p == 0 then 0
    else if j < Height(nodes, order, p) then p
    else Last(nodes, order, j, p - 1)
  }

  /** t brought into the positions 0..n. */
  function Clamp(t: int, n: nat): (r: nat)
    ensures r <= n
    ensures 0 <= t <= n ==> r == t
  {
    if t < 0 then 0 else if t > n then n else t
  }

  /** No position after Last(nodes, order, j, p) and up to p is on level j. */
  lemma {:induction false} LastSkips(nodes: seq<Element>, order: seq<nat>, j: nat, p: nat, q: nat)
    requires Last(nodes, order, j, p) < q <= p
    ensures Height(nodes, order, q) <= j
    decreases p
  {
    if q < p {
      LastSkips(nodes, order, j, p - 1, q);
    }
  }

  lemma LastGap(nodes: seq<Element>, order: seq<nat>, j: nat, p: nat)
    ensures forall q :: Last(nodes, order, j, p) < q <= p ==> Height(nodes, order, q) <= j
  {
    forall q | Last(nodes, order, j, p) < q <= p {
      LastSkips(nodes, order, j, p, q);
    }
  }

  /** Replaces link j of node w. */
  function SetLink(nodes: seq<Element>, w: nat, j: nat, lk: Level): (r: seq<Element>)
    requires w < |nodes| && j < |nodes[w].level|
    ensures |r| == |nodes|
    ensures forall v :: 0 <= v < |r| ==> r[v].key == nodes[v].key && r[v].value == nodes[v].value
    ensures forall v :: HeightOf(r, v) == HeightOf(nodes, v)
    ensures forall v :: BackOf(r, v) == BackOf(nodes, v)
    ensures forall v, i :: LinkOf(r, v, i) == if v == w && i == j then lk else LinkOf(nodes, v, i)
  {
    nodes[w := nodes[w].(level := nodes[w].level[j := lk])]
  }

  /** Replaces the backward link of node w. */
  function SetBackward(nodes: seq<Element>, w: nat, b: Ptr): (r: seq<Element>)
    requires w < |nodes|
    ensures |r| == |nodes|
    ensures forall v :: 0 <= v < |r| ==> r[v].key == nodes[v].key && r[v].value == nodes[v].value
    ensures forall v :: HeightOf(r, v) == HeightOf(nodes, v)
    ensures forall v :: BackOf(r, v) == if v == w then b else BackOf(nodes, v)
    ensures forall v, i :: LinkOf(r, v, i) == LinkOf(nodes, v, i)
  {
    nodes[w := nodes[w].(backward := b)]
  }

  /** Different positions hold different nodes. */
  lemma AtDistinct(nodes: seq<Element>, order: seq<nat>, a: nat, b: nat)
    requires OrderOk(nodes, order) && a <= |order| && b <= |order| && a != b
    ensures At(order, a) != At(order, b)
  {
    assert Apart(order, a - 1, b - 1) && Apart(order, b - 1, a - 1);
  }

  /** Positions before the insertion point keep their node; the rest move up by one. */
  lemma AtInsert(order: seq<nat>, p: nat, x: nat)
    requires p <= |order|
    ensures forall r: nat :: r <= p ==> At(InsertAt(order, p, x), r) == At(order, r)
    ensures At(InsertAt(order, p, x), p + 1) == x
    ensures forall r :: p + 1 < r <= |order| + 1 ==> At(InsertAt(order, p, x), r) == At(order, r - 1)
  {
  }

  /** Positions up to the removed one keep their node; the rest move down by one. */
  lemma AtRemove(order: seq<nat>, p: nat)
    requires p < |order|
    ensures forall r: nat :: r <= p ==> At(RemoveAt(order, p), r) == At(order, r)
    ensures forall r :: p < r < |order| ==> At(RemoveAt(order, p), r) == At(order, r + 1)
  {
  }

  /** Level j depends only on the heights and the level-j links of the header and the live nodes. */
  lemma LevelFrame(n0: seq<Element>, n1: seq<Element>, order: seq<nat>, j: nat)
    requires LevelOk(n0, order, j)
    requires forall p: nat :: p <= |order| ==> Height(n1, order, p) == Height(n0, order, p)
    requires forall p: nat :: p <= |order| ==> LinkOf(n1, At(order, p), j) == LinkOf(n0, At(order, p), j)
    ensures LevelOk(n1, order, j)
  {
    forall p | 0 <= p <= |order| && j < Height(n1, order, p) ensures LinkOk(n1, order, j, p) {
      assert LinkOk(n0, order, j, p);
    }
  }

  /** The search stop Last depends only on the heights. */
  lemma {:induction false} LastFrame(n0: seq<Element>, n1: seq<Element>, order: seq<nat>, j: nat, p: nat)
    requires forall r: nat :: r <= p ==> Height(n1, order, r) == Height(n0, order, r)
    ensures Last(n1, order, j, p) == Last(n0, order, j, p)
    decreases p
  {
    if p > 0 {
      LastFrame(n0, n1, order, j, p - 1);
    }
  }

  /** Last depends only on the heights of the header and the live nodes. */
  lemma LastFrameAll(n0: seq<Element>, n1: seq<Element>, order: seq<nat>)
    requires forall r: nat :: r <= |order| ==> Height(n1, order, r) == Height(n0, order, r)
    ensures forall j: nat, q: nat :: q <= |order| ==> Last(n1, order, j, q) == Last(n0, order, j, q)
  {
    forall j: nat, q: nat | q <= |order| ensures Last(n1, order, j, q) == Last(n0, order, j, q) {
      LastFrame(n0, n1, order, j, q);
    }
  }

  /** Appending a node that is not live yet changes nothing about the live ones. */
  lemma AppendNode(n0: seq<Element>, order: seq<nat>, e: Element, lvl: int)
    requires StoreOk(n0) && OrderOk(n0, order) && 1 <= |e.level| <= MaxLevel && lvl <= MaxLevel
    requires forall j :: 0 <= j < lvl ==> LevelOk(n0, order, j)
    ensures StoreOk(n0 + [e]) && OrderOk(n0 + [e], order) && |n0| !in order && Extends(n0, n0 + [e])
    ensures forall r: nat :: r <= |order| ==> Height(n0 + [e], order, r) == Height(n0, order, r)
    ensures forall j :: 0 <= j < lvl ==> LevelOk(n0 + [e], order, j)
    ensures forall w :: BackOf(n0 + [e], w) == if w == |n0| then e.backward else BackOf(n0, w)
    ensures forall w: nat, j: nat :: w != |n0| ==> LinkOf(n0 + [e], w, j) == LinkOf(n0, w, j)
  {
    var n1 := n0 + [e];
    forall j | 0 <= j < lvl ensures LevelOk(n1, order, j) {
      LevelFrame(n0, n1, order, j);
    }
  }

  /** Every live node has at least one level, so on level 0 the search stops exactly at p. */
  lemma LastOnLevelZero(nodes: seq<Element>, order: seq<nat>, p: nat)
    requires StoreOk(nodes) && OrderOk(nodes, order) && p <= |order|
    ensures Last(nodes, order, 0, p) == p
  {
    assert p == 0 || 0 < Height(nodes, order, p);
  }

  /** A level that some live node reaches is not empty at the header. */
  lemma HeaderNonEmpty(nodes: seq<Element>, order: seq<nat>, j: nat, r: nat)
    requires StoreOk(nodes) && j < MaxLevel && LevelOk(nodes, order, j)
    requires 1 <= r <= |order| && j < Height(nodes, order, r)
    ensures LinkOf(nodes, Header, j).forward != Nil
  {
    assert LinkOk(nodes, order, j, 0);
  }

  function KeyOf(nodes: seq<Element>, w: nat): int {
    if w < |nodes| then nodes[w].key else 0
  }

  /** n1 keeps the nodes of n0 (it may have more): their keys, values and heights are as they were. */
  ghost predicate Extends(n0: seq<Element>, n1: seq<Element>) {
    && |n0| <= |n1|
    && forall w :: 0 <= w < |n0| ==> n1[w].key == n0[w].key && n1[w].value == n0[w].value && |n1[w].level| == |n0[w].level|
  }

  lemma ValuesFrame(n0: seq<Element>, n1: seq<Element>, order: seq<nat>)
    requires Extends(n0, n1) && OrderOk(n0, order)
    ensures ValuesOf(n1, order) == ValuesOf(n0, order)
  {
  }

  lemma ValuesInsert(nodes: seq<Element>, order: seq<nat>, p: nat, x: nat)
    requires p <= |order|
    ensures ValuesOf(nodes, InsertAt(order, p, x)) == InsertAt(ValuesOf(nodes, order), p, ValueOf(nodes, x))
  {
  }

  lemma ValuesRemove(nodes: seq<Element>, order: seq<nat>, p: nat)
    requires p < |order|
    ensures ValuesOf(nodes, RemoveAt(order, p)) == RemoveAt(ValuesOf(nodes, order), p)
  {
  }

  /** On level 0 every live node is linked to its successor with span 1; the last one has no link. */
  lemma LevelZero(nodes: seq<Element>, order: seq<nat>, t: nat)
    requires StoreOk(nodes) && OrderOk(nodes, order) && LevelOk(nodes, order, 0) && t <= |order|
    ensures LinkOf(nodes, At(order, t), 0) == if t < |order| then Level(Ref(At(order, t + 1)), 1) else Level(Nil, 0)
  {
    assert 0 < Height(nodes, order, t);
    assert LinkOk(nodes, order, 0, t);
    assert t < |order| ==> 0 < Height(nodes, order, t + 1);
  }

  /**
    While searching for the first value not below v, a level-j link out of
    position px leads to a value below v exactly when its target lies at or
    before position CountLess(values, v).
   */
  lemma ForwardBelow(nodes: seq<Element>, order: seq<nat>, j: nat, px: nat, v: int)
    requires StoreOk(nodes) && OrderOk(nodes, order) && Sorted(ValuesOf(nodes, order))
    requires px <= |order| && LinkOk(nodes, order, j, px)
    requires LinkOf(nodes, At(order, px), j).forward != Nil
    ensures var lk := LinkOf(nodes, At(order, px), j);
            lk.forward.at < |nodes| && 0 < px + lk.span <= |order|
            && ValueOf(nodes, lk.forward.at) == ValuesOf(nodes, order)[px + lk.span - 1]
            && (ValueOf(nodes, lk.forward.at) < v <==> px + lk.span <= CountLess(ValuesOf(nodes, order), v))
  {
    SortedSplit(ValuesOf(nodes, order), v);
  }

  /** One step of a search for v along level j from the level-j position q. */
  lemma StepOn(nodes: seq<Element>, order: seq<nat>, j: nat, q: nat, v: int)
    requires StoreOk(nodes) && OrderOk(nodes, order) && Sorted(ValuesOf(nodes, order)) && j < MaxLevel && LevelOk(nodes, order, j)
    requires q <= |order| && (q == 0 || j < Height(nodes, order, q))
    requires LinkOf(nodes, At(order, q), j).forward != Nil
    ensures var lk := LinkOf(nodes, At(order, q), j);
            q < q + lk.span <= |order| && lk.forward.at == At(order, q + lk.span)
            && j < Height(nodes, order, q + lk.span)
            && (ValueOf(nodes, lk.forward.at) < v <==> q + lk.span <= CountLess(ValuesOf(nodes, order), v))
  {
    assert LinkOk(nodes, order, j, q);
    ForwardBelow(nodes, order, j, q, v);
  }

  /** Every level-j position at or before p is at or before Last(nodes, order, j, p). */
  lemma LastIsLast(nodes: seq<Element>, order: seq<nat>, j: nat, p: nat, r: nat)
    requires r <= p && (r == 0 || j < Height(nodes, order, r))
    ensures r <= Last(nodes, order, j, p)
  {
    if Last(nodes, order, j, p) < r {
      LastSkips(nodes, order, j, p, r);
    }
  }

  /**
    A search on level j that stands at a level-j position px at or before c
    and cannot move on without passing c stands at Last(nodes, order, j, c).
   */
  lemma DescentStop(nodes: seq<Element>, order: seq<nat>, j: nat, c: nat, px: nat)
    requires StoreOk(nodes) && OrderOk(nodes, order) && j < MaxLevel && LevelOk(nodes, order, j)
    requires px <= c <= |order| && (px == 0 || j < Height(nodes, order, px))
    requires var lk := LinkOf(nodes, At(order, px), j); lk.forward == Nil || c < px + lk.span
    ensures px == Last(nodes, order, j, c)
  {
    var L := Last(nodes, order, j, c);
    assert LinkOk(nodes, order, j, px);
    LastIsLast(nodes, order, j, c, px);
    assert L <= px;
  }

  /**
    A level-j link out of the search stop px for v whose target holds v
    leads to a position holding v, after every value below v; with distinct
    values it is the position right after them.
   */
  lemma RankHit(nodes: seq<Element>, order: seq<nat>, j: nat, px: nat, v: int, r: int)
    requires StoreOk(nodes) && OrderOk(nodes, order) && Sorted(ValuesOf(nodes, order))
    requires j < MaxLevel && LevelOk(nodes, order, j)
    requires px <= CountLess(ValuesOf(nodes, order), v) && (px == 0 || j < Height(nodes, order, px))
    requires LinkOf(nodes, At(order, px), j).forward != Nil
    requires ValueOf(nodes, LinkOf(nodes, At(order, px), j).forward.at) == v
    requires r == px + LinkOf(nodes, At(order, px), j).span
    ensures CountLess(ValuesOf(nodes, order), v) < r <= |order|
    ensures ValuesOf(nodes, order)[r - 1] == v && v in ValuesOf(nodes, order)
    ensures Distinct(ValuesOf(nodes, order)) ==> r == CountLess(ValuesOf(nodes, order), v) + 1
  {
    var s := ValuesOf(nodes, order);
    StepOn(nodes, order, j, px, v);
    if Distinct(s) {
      DistinctPosition(s, r - 1);
    }
  }


  /**
    If the level-0 successor of the search stop for v does not hold v, no
    live node does.
   */
  lemma RankMiss(nodes: seq<Element>, order: seq<nat>, v: int)
    requires StoreOk(nodes) && OrderOk(nodes, order) && LevelOk(nodes, order, 0) && Sorted(ValuesOf(nodes, order))
    requires var lk := LinkOf(nodes, At(order, CountLess(ValuesOf(nodes, order), v)), 0);
             lk.forward == Nil || ValueOf(nodes, lk.forward.at) != v
    ensures v !in ValuesOf(nodes, order)
  {
    var c := CountLess(ValuesOf(nodes, order), v);
    LevelZero(nodes, order, c);
    FirstNotLess(ValuesOf(nodes, order), v);
  }

  /** Each key of the map leads to a live node holding that key. */
  ghost predicate MapOk(nodes: seq<Element>, order: seq<nat>, m: map<int, nat>) {
    forall k :: k in m ==> m[k] in order && KeyOf(nodes, m[k]) == k
  }

  /** The map and the live nodes correspond one to one: every live node's key leads to it. */
  ghost predicate Indexed(nodes: seq<Element>, order: seq<nat>, m: map<int, nat>) {
    forall i :: 0 <= i < |order| ==> KeyOf(nodes, order[i]) in m && m[KeyOf(nodes, order[i])] == order[i]
  }

  /** Node e is the first live node whose value is not below e's own value. */
  ghost predicate SelfBound(nodes: seq<Element>, order: seq<nat>, e: nat) {
    var c := CountLess(ValuesOf(nodes, order), ValueOf(nodes, e));
    c < |order| && order[c] == e
  }

  /** With distinct values, a search for a live node's value finds that node. */
  lemma DistinctSelfBound(nodes: seq<Element>, order: seq<nat>, i: nat)
    requires Sorted(ValuesOf(nodes, order)) && Distinct(ValuesOf(nodes, order)) && i < |order|
    ensures SelfBound(nodes, order, order[i])
  {
    DistinctPosition(ValuesOf(nodes, order), i);
  }

  /** A header level taken into use above every live node: empty, with span n. */
  lemma GrowLevel(nodes: seq<Element>, order: seq<nat>, j: nat)
    requires OrderOk(nodes, order)
    requires forall r :: 1 <= r <= |order| ==> Height(nodes, order, r) <= j
    requires LinkOf(nodes, Header, j) == Level(Nil, |order|)
    ensures LevelOk(nodes, order, j)
  {
  }

  /**
    n1 is n0 while node x is being inserted at insertion point p (x is to
    become position p + 1), seen from level j: pu is the last level-j
    position at or before p, and on level j only the links of pu and x may
    have changed.
   */
  ghost predicate Inserting(n0: seq<Element>, n1: seq<Element>, order: seq<nat>, p: nat, x: nat, j: nat, pu: nat) {
    && StoreOk(n0) && OrderOk(n0, order) && p <= |order|
    && x < |n0| && x != Header && x !in order
    && LevelOk(n0, order, j)
    && pu == Last(n0, order, j, p)
    && (forall w :: HeightOf(n1, w) == HeightOf(n0, w))
    && (forall w :: w != x && w != At(order, pu) ==> LinkOf(n1, w, j) == LinkOf(n0, w, j))
  }

  /**
    On a level x takes part in, pu now links to x with span p - pu + 1, and
    x takes over pu's old target with the rest of pu's old span.
   */
  ghost predicate Spliced(n0: seq<Element>, n1: seq<Element>, order: seq<nat>, p: nat, x: nat, j: nat, pu: nat) {
    && Inserting(n0, n1, order, p, x, j, pu)
    && j < HeightOf(n0, x)
    && LinkOf(n1, At(order, pu), j) == Level(Ref(x), p - pu + 1)
    && LinkOf(n1, x, j) == Level(LinkOf(n0, At(order, pu), j).forward, LinkOf(n0, At(order, pu), j).span - (p - pu))
  }

  /** On a level above x, pu keeps its target and its span grows by one. */
  ghost predicate Crossed(n0: seq<Element>, n1: seq<Element>, order: seq<nat>, p: nat, x: nat, j: nat, pu: nat) {
    && Inserting(n0, n1, order, p, x, j, pu)
    && HeightOf(n0, x) <= j
    && LinkOf(n1, At(order, pu), j) == Level(LinkOf(n0, At(order, pu), j).forward, LinkOf(n0, At(order, pu), j).span + 1)
  }

  lemma InsertingHeights(n0: seq<Element>, n1: seq<Element>, order: seq<nat>, p: nat, x: nat, j: nat, pu: nat)
    requires Inserting(n0, n1, order, p, x, j, pu)
    ensures forall r: nat :: r <= p ==> At(InsertAt(order, p, x), r) == At(order, r)
    ensures At(InsertAt(order, p, x), p + 1) == x
    ensures forall r :: p + 1 < r <= |order| + 1 ==> At(InsertAt(order, p, x), r) == At(order, r - 1)
    ensures forall r: nat :: r <= p ==> Height(n1, InsertAt(order, p, x), r) == Height(n0, order, r)
    ensures forall r :: p + 1 < r <= |order| + 1 ==> Height(n1, InsertAt(order, p, x), r) == Height(n0, order, r - 1)
    ensures Height(n1, InsertAt(order, p, x), p + 1) == HeightOf(n0, x)
  {
    AtInsert(order, p, x);
  }

  /** A link out of a position before pu ends at pu at the latest, so it stays as it is. */
  lemma InsertingBefore(n0: seq<Element>, n1: seq<Element>, order: seq<nat>, p: nat, x: nat, j: nat, pu: nat, q: nat)
    requires Inserting(n0, n1, order, p, x, j, pu)
    requires q < pu && j < Height(n0, order, q)
    ensures LinkOk(n1, InsertAt(order, p, x), j, q)
  {
    var o1 := InsertAt(order, p, x);
    InsertingHeights(n0, n1, order, p, x, j, pu);
    AtDistinct(n0, order, q, pu);
    assert At(o1, q) == At(order, q) != At(order, pu);
    assert LinkOk(n0, order, j, q);
    var lk := LinkOf(n0, At(order, q), j);
    assert LinkOf(n1, At(o1, q), j) == lk;
    assert lk.forward != Nil by { assert j < Height(n0, order, pu); }
    assert q + lk.span <= pu;
  }

  /** A link out of a position after the insertion point moves up by one with its target. */
  lemma InsertingAfter(n0: seq<Element>, n1: seq<Element>, order: seq<nat>, p: nat, x: nat, j: nat, pu: nat, q: nat)
    requires Inserting(n0, n1, order, p, x, j, pu)
    requires p < q <= |order| && j < Height(n0, order, q)
    ensures LinkOk(n1, InsertAt(order, p, x), j, q + 1)
  {
    var o1 := InsertAt(order, p, x);
    InsertingHeights(n0, n1, order, p, x, j, pu);
    AtDistinct(n0, order, q, pu);
    assert At(o1, q + 1) == At(order, q) != At(order, pu);
    assert LinkOk(n0, order, j, q);
    var lk := LinkOf(n0, At(order, q), j);
    assert LinkOf(n1, At(o1, q + 1), j) == lk;
    if lk.forward != Nil {
      assert At(o1, q + 1 + lk.span) == At(order, q + lk.span);
    }
  }

  lemma SplicedPred(n0: seq<Element>, n1: seq<Element>, order: seq<nat>, p: nat, x: nat, j: nat, pu: nat)
    requires Spliced(n0, n1, order, p, x, j, pu)
    ensures LinkOk(n1, InsertAt(order, p, x), j, pu)
  {
    LastGap(n0, order, j, p);
    InsertingHeights(n0, n1, order, p, x, j, pu);
  }

  lemma SplicedNew(n0: seq<Element>, n1: seq<Element>, order: seq<nat>, p: nat, x: nat, j: nat, pu: nat)
    requires Spliced(n0, n1, order, p, x, j, pu)
    ensures LinkOk(n1, InsertAt(order, p, x), j, p + 1)
  {
    LastGap(n0, order, j, p);
    var o1 := InsertAt(order, p, x);
    InsertingHeights(n0, n1, order, p, x, j, pu);
    var u := At(order, pu);
    assert j < Height(n0, order, pu);
    assert LinkOk(n0, order, j, pu);
    var lk := LinkOf(n0, u, j);
    if lk.forward != Nil {
      assert pu + lk.span > p;
      assert At(o1, pu + lk.span + 1) == At(order, pu + lk.span);
    }
  }

  /** Splicing x into level j leaves level j correct for the order with x inserted. */
  lemma InsertLevel(n0: seq<Element>, n1: seq<Element>, order: seq<nat>, p: nat, x: nat, j: nat, pu: nat)
    requires Spliced(n0, n1, order, p, x, j, pu)
    ensures LevelOk(n1, InsertAt(order, p, x), j)
  {
    LastGap(n0, order, j, p);
    var o1 := InsertAt(order, p, x);
    InsertingHeights(n0, n1, order, p, x, j, pu);
    forall q | 0 <= q <= |order| + 1 && j < Height(n1, o1, q) ensures LinkOk(n1, o1, j, q) {
      if q < pu {
        InsertingBefore(n0, n1, order, p, x, j, pu, q);
      } else if q == pu {
        SplicedPred(n0, n1, order, p, x, j, pu);
      } else if q == p + 1 {
        SplicedNew(n0, n1, order, p, x, j, pu);
      } else {
        InsertingAfter(n0, n1, order, p, x, j, pu, q - 1);
      }
    }
  }

  lemma CrossedPred(n0: seq<Element>, n1: seq<Element>, order: seq<nat>, p: nat, x: nat, j: nat, pu: nat)
    requires Crossed(n0, n1, order, p, x, j, pu)
    ensures LinkOk(n1, InsertAt(order, p, x), j, pu)
  {
    LastGap(n0, order, j, p);
    var o1 := InsertAt(order, p, x);
    InsertingHeights(n0, n1, order, p, x, j, pu);
    var u := At(order, pu);
    assert j < Height(n0, order, pu);
    assert LinkOk(n0, order, j, pu);
    var lk := LinkOf(n0, u, j);
    if lk.forward != Nil {
      assert pu + lk.span > p;
      assert At(o1, pu + lk.span + 1) == At(order, pu + lk.span);
    }
  }

  /** On a level above x, raising pu's span by one leaves the level correct with x inserted. */
  lemma CrossLevel(n0: seq<Element>, n1: seq<Element>, order: seq<nat>, p: nat, x: nat, j: nat, pu: nat)
    requires Crossed(n0, n1, order, p, x, j, pu)
    ensures LevelOk(n1, InsertAt(order, p, x), j)
  {
    LastGap(n0, order, j, p);
    var o1 := InsertAt(order, p, x);
    InsertingHeights(n0, n1, order, p, x, j, pu);
    forall q | 0 <= q <= |order| + 1 && j < Height(n1, o1, q) ensures LinkOk(n1, o1, j, q) {
      if q < pu {
        InsertingBefore(n0, n1, order, p, x, j, pu, q);
      } else if q == pu {
        CrossedPred(n0, n1, order, p, x, j, pu);
      } else {
        InsertingAfter(n0, n1, order, p, x, j, pu, q - 1);
      }
    }
  }

  /**
    n1 is n0 with the node at position p + 1 (order[p]) taken out of level j:
    pu, the last level-j position at or before p, either linked to it and
    now takes over its target and span, or jumped over it and its span
    shrinks by one.
   */
  ghost predicate Unlinked(n0: seq<Element>, n1: seq<Element>, order: seq<nat>, p: nat, j: nat, pu: nat) {
    && StoreOk(n0) && OrderOk(n0, order) && p < |order|
    && LevelOk(n0, order, j)
    && pu == Last(n0, order, j, p)
    && (forall w :: HeightOf(n1, w) == HeightOf(n0, w))
    && (forall w :: w != At(order, pu) ==> LinkOf(n1, w, j) == LinkOf(n0, w, j))
    && var u := LinkOf(n0, At(order, pu), j);
       var e := LinkOf(n0, order[p], j);
       LinkOf(n1, At(order, pu), j) ==
         if u.forward == Ref(order[p]) then Level(e.forward, u.span + e.span - 1)
         else Level(u.forward, u.span - 1)
  }

  lemma UnlinkedHeights(n0: seq<Element>, n1: seq<Element>, order: seq<nat>, p: nat, j: nat, pu: nat)
    requires Unlinked(n0, n1, order, p, j, pu)
    ensures forall r: nat :: r <= p ==> At(RemoveAt(order, p), r) == At(order, r)
    ensures forall r :: p < r < |order| ==> At(RemoveAt(order, p), r) == At(order, r + 1)
    ensures forall r: nat :: r <= p ==> Height(n1, RemoveAt(order, p), r) == Height(n0, order, r)
    ensures forall r :: p < r < |order| ==> Height(n1, RemoveAt(order, p), r) == Height(n0, order, r + 1)
  {
    AtRemove(order, p);
  }

  lemma UnlinkedBefore(n0: seq<Element>, n1: seq<Element>, order: seq<nat>, p: nat, j: nat, pu: nat, q: nat)
    requires Unlinked(n0, n1, order, p, j, pu)
    requires q < pu && j < Height(n0, order, q)
    ensures LinkOk(n1, RemoveAt(order, p), j, q)
  {
    var o1 := RemoveAt(order, p);
    UnlinkedHeights(n0, n1, order, p, j, pu);
    AtDistinct(n0, order, q, pu);
    assert At(o1, q) == At(order, q) != At(order, pu);
    assert LinkOk(n0, order, j, q);
    var lk := LinkOf(n0, At(order, q), j);
    assert LinkOf(n1, At(o1, q), j) == lk;
    assert lk.forward != Nil by { assert j < Height(n0, order, pu); }
    assert q + lk.span <= pu;
  }

  lemma UnlinkedAfter(n0: seq<Element>, n1: seq<Element>, order: seq<nat>, p: nat, j: nat, pu: nat, q: nat)
    requires Unlinked(n0, n1, order, p, j, pu)
    requires p + 1 < q <= |order| && j < Height(n0, order, q)
    ensures LinkOk(n1, RemoveAt(order, p), j, q - 1)
  {
    var o1 := RemoveAt(order, p);
    UnlinkedHeights(n0, n1, order, p, j, pu);
    AtDistinct(n0, order, q, pu);
    assert At(o1, q - 1) == At(order, q) != At(order, pu);
    assert LinkOk(n0, order, j, q);
    var lk := LinkOf(n0, At(order, q), j);
    assert LinkOf(n1, At(o1, q - 1), j) == lk;
    if lk.forward != Nil {
      assert At(o1, q - 1 + lk.span) == At(order, q + lk.span);
    }
  }

  lemma UnlinkedPred(n0: seq<Element>, n1: seq<Element>, order: seq<nat>, p: nat, j: nat, pu: nat)
    requires Unlinked(n0, n1, order, p, j, pu)
    ensures LinkOk(n1, RemoveAt(order, p), j, pu)
  {
    if j < Height(n0, order, p + 1) {
      UnlinkedPredOn(n0, n1, order, p, j, pu);
    } else {
      UnlinkedPredOver(n0, n1, order, p, j, pu);
    }
  }

  /** On a level that e takes part in, the search stop now links to e's successor there. */
  lemma UnlinkedPredOn(n0: seq<Element>, n1: seq<Element>, order: seq<nat>, p: nat, j: nat, pu: nat)
    requires Unlinked(n0, n1, order, p, j, pu) && j < Height(n0, order, p + 1)
    ensures LinkOk(n1, RemoveAt(order, p), j, pu)
  {
    LastGap(n0, order, j, p);
    var o1 := RemoveAt(order, p);
    UnlinkedHeights(n0, n1, order, p, j, pu);
    assert j < Height(n0, order, pu);
    assert LinkOk(n0, order, j, pu);
    assert At(order, p + 1) == order[p];
    assert LinkOf(n0, At(order, pu), j).forward == Ref(order[p]);
    assert LinkOk(n0, order, j, p + 1);
    var le := LinkOf(n0, order[p], j);
    if le.forward != Nil {
      assert At(o1, p + le.span) == At(order, p + 1 + le.span);
    }
  }

  /** On a level above e, the search stop keeps its target and its span shrinks by one. */
  lemma UnlinkedPredOver(n0: seq<Element>, n1: seq<Element>, order: seq<nat>, p: nat, j: nat, pu: nat)
    requires Unlinked(n0, n1, order, p, j, pu) && Height(n0, order, p + 1) <= j
    ensures LinkOk(n1, RemoveAt(order, p), j, pu)
  {
    LastGap(n0, order, j, p);
    var o1 := RemoveAt(order, p);
    UnlinkedHeights(n0, n1, order, p, j, pu);
    assert j < Height(n0, order, pu);
    assert LinkOk(n0, order, j, pu);
    assert At(order, p + 1) == order[p];
    var lk := LinkOf(n0, At(order, pu), j);
    if lk.forward != Nil {
      assert pu + lk.span > p + 1;
      assert At(order, pu + lk.span) != order[p];
      assert At(o1, pu + lk.span - 1) == At(order, pu + lk.span);
    }
  }



  /** Taking order[p] out of level j leaves level j correct for the order without it. */
  lemma DeleteLevel(n0: seq<Element>, n1: seq<Element>, order: seq<nat>, p: nat, j: nat, pu: nat)
    requires Unlinked(n0, n1, order, p, j, pu)
    ensures LevelOk(n1, RemoveAt(order, p), j)
  {
    LastGap(n0, order, j, p);
    var o1 := RemoveAt(order, p);
    UnlinkedHeights(n0, n1, order, p, j, pu);
    forall q | 0 <= q <= |o1| && j < Height(n1, o1, q) ensures LinkOk(n1, o1, j, q) {
      if q < pu {
        UnlinkedBefore(n0, n1, order, p, j, pu, q);
      } else if q == pu {
        UnlinkedPred(n0, n1, order, p, j, pu);
      } else {
        UnlinkedAfter(n0, n1, order, p, j, pu, q + 1);
      }
    }
  }

  /**
    Taking order[p] out of the order, over a store n1 with the same nodes as
    n0 (only links changed), keeps the store, the order and the sorted values
    sound, and no live node gets taller.
   */
  lemma RemoveShape(n0: seq<Element>, n1: seq<Element>, order: seq<nat>, p: nat, lvl: int)
    requires StoreOk(n0) && OrderOk(n0, order) && Sorted(ValuesOf(n0, order)) && p < |order|
    requires forall r :: 1 <= r <= |order| ==> Height(n0, order, r) <= lvl
    requires |n1| == |n0| && Extends(n0, n1)
    ensures StoreOk(n1) && OrderOk(n1, RemoveAt(order, p))
    ensures ValuesOf(n1, RemoveAt(order, p)) == RemoveAt(ValuesOf(n0, order), p)
    ensures Sorted(ValuesOf(n1, RemoveAt(order, p)))
    ensures forall r :: 1 <= r <= |order| - 1 ==> Height(n1, RemoveAt(order, p), r) <= lvl
  {
    var o1 := RemoveAt(order, p);
    forall i, j ensures Apart(o1, i, j) {
      assert Apart(order, if i < p then i else i + 1, if j < p then j else j + 1);
    }
    ValuesFrame(n0, n1, order);
    ValuesRemove(n1, order, p);
    RemoveSorted(ValuesOf(n0, order), p);
    AtRemove(order, p);
    forall r | 1 <= r <= |order| - 1 ensures Height(n1, o1, r) <= lvl {
      assert Height(n0, order, if r <= p then r else r + 1) <= lvl;
    }
  }

  /**
    After order[p] is taken out, its successor's backward link must be
    order[p]'s own: then every backward link is right for the shorter order,
    and the last live node is order[p]'s predecessor when order[p] was last.
   */
  lemma BackRemove(n0: seq<Element>, n1: seq<Element>, order: seq<nat>, p: nat)
    requires OrderOk(n0, order) && BackOk(n0, order) && p < |order|
    requires forall w :: BackOf(n1, w) == if p + 1 < |order| && w == order[p + 1] then BackOf(n0, order[p]) else BackOf(n0, w)
    ensures BackOk(n1, RemoveAt(order, p))
    ensures LastRef(RemoveAt(order, p)) == if p + 1 < |order| then LastRef(order) else BackOf(n0, order[p])
  {
    var o1 := RemoveAt(order, p);
    forall i | 0 <= i < |o1| ensures BackOf(n1, o1[i]) == (if i == 0 then Nil else Ref(o1[i - 1])) {
      if i < p {
        assert BackOf(n0, order[i]) == (if i == 0 then Nil else Ref(order[i - 1]));
        assert Apart(order, i, p + 1);
      } else if i == p {
        assert BackOf(n0, order[p]) == (if p == 0 then Nil else Ref(order[p - 1]));
      } else {
        assert BackOf(n0, order[i + 1]) == Ref(order[i]);
        assert Apart(order, p + 1, i + 1);
      }
    }
    if p + 1 == |order| {
      assert BackOf(n0, order[p]) == (if p == 0 then Nil else Ref(order[p - 1]));
    }
  }

  /**
    Deleting the key of order[p] from a sound map leaves a sound map for
    the shorter order, and a one-to-one map stays one-to-one.
   */
  lemma MapRemove(n0: seq<Element>, n1: seq<Element>, order: seq<nat>, p: nat, m: map<int, nat>)
    requires OrderOk(n0, order) && MapOk(n0, order, m) && p < |order|
    requires |n1| == |n0| && Extends(n0, n1)
    ensures MapOk(n1, RemoveAt(order, p), m - {KeyOf(n0, order[p])})
    ensures Indexed(n0, order, m) ==> Indexed(n1, RemoveAt(order, p), m - {KeyOf(n0, order[p])})
  {
    var o1 := RemoveAt(order, p);
    var ke := KeyOf(n0, order[p]);
    forall k | k in m - {ke} ensures m[k] in o1 && KeyOf(n1, m[k]) == k {
      var i :| 0 <= i < |order| && order[i] == m[k];
      assert i != p;
      assert o1[if i < p then i else i - 1] == m[k];
    }
    if Indexed(n0, order, m) {
      forall i | 0 <= i < |o1| ensures KeyOf(n1, o1[i]) in m - {ke} && (m - {ke})[KeyOf(n1, o1[i])] == o1[i] {
        var i' := if i < p then i else i + 1;
        assert o1[i] == order[i'];
        assert Apart(order, i', p) && Apart(order, p, i');
        assert m[ke] == order[p];
      }
    }
  }

  /**
    Inserting the appended node x (x = |n0|) at insertion point p, over a
    store n1 that keeps the nodes of n0 and gives x the value v, keeps the
    store, the order and the values sound; when p is where v belongs, the
    values stay sorted.
   */
  lemma InsertShape(n0: seq<Element>, n1: seq<Element>, order: seq<nat>, p: nat, x: nat, v: int, lvl: int)
    requires StoreOk(n0) && OrderOk(n0, order) && Sorted(ValuesOf(n0, order))
    requires p == CountLess(ValuesOf(n0, order), v)
    requires forall r :: 1 <= r <= |order| ==> Height(n0, order, r) <= lvl
    requires x == |n0| && |n1| == |n0| + 1 && Extends(n0, n1)
    requires n1[x].value == v && 1 <= |n1[x].level| <= lvl && lvl <= MaxLevel
    ensures StoreOk(n1) && OrderOk(n1, InsertAt(order, p, x))
    ensures ValuesOf(n1, InsertAt(order, p, x)) == InsertAt(ValuesOf(n0, order), p, v)
    ensures Sorted(ValuesOf(n1, InsertAt(order, p, x)))
    ensures forall r :: 1 <= r <= |order| + 1 ==> Height(n1, InsertAt(order, p, x), r) <= lvl
  {
    var o1 := InsertAt(order, p, x);
    forall i, j ensures Apart(o1, i, j) {
      if 0 <= i < j < |o1| && i != p && j != p {
        assert Apart(order, if i < p then i else i - 1, if j < p then j else j - 1);
      }
    }
    ValuesFrame(n0, n1, order);
    ValuesInsert(n1, order, p, x);
    InsertSorted(ValuesOf(n0, order), v);
    AtInsert(order, p, x);
    forall r | 1 <= r <= |order| + 1 ensures Height(n1, o1, r) <= lvl {
      if r != p + 1 {
        assert Height(n0, order, if r <= p then r else r - 1) <= lvl;
      }
    }
  }

  /**
    Node x of height h, linked in at insertion point p on every level below
    lv = max(lvl, h), leaves the list shaped for lv levels, with v among
    the values at position p.
   */
  lemma InsertLinked(n0: seq<Element>, n1: seq<Element>, order: seq<nat>, p: nat, x: nat, v: int, lvl: int, lv: int)
    requires Shaped(n0, order, lvl) && p == CountLess(ValuesOf(n0, order), v)
    requires x == |n0| && |n1| == |n0| + 1 && Extends(n0, n1) && n1[x].value == v
    requires 1 <= |n1[x].level| <= MaxLevel && lv == if lvl < |n1[x].level| then |n1[x].level| else lvl
    requires forall j :: 0 <= j < lv ==> LevelOk(n1, InsertAt(order, p, x), j)
    requires forall j :: lv <= j < MaxLevel ==> LinkOf(n1, Header, j).forward == Nil
    ensures Shaped(n1, InsertAt(order, p, x), lv)
    ensures ValuesOf(n1, InsertAt(order, p, x)) == InsertAt(ValuesOf(n0, order), p, v)
  {
    InsertShape(n0, n1, order, p, x, v, lv);
    if lvl < |n1[x].level| {
      TopByNew(n1, order, p, x, lv - 1);
    } else if lvl > 1 {
      TopKept(n0, n1, order, p, x, lvl - 1);
    }
  }

  /** A level the new node takes part in is not empty at the header. */
  lemma TopByNew(n1: seq<Element>, order: seq<nat>, p: nat, x: nat, j: nat)
    requires StoreOk(n1) && p <= |order| && x < |n1| && j < |n1[x].level| && j < MaxLevel
    requires LevelOk(n1, InsertAt(order, p, x), j)
    ensures LinkOf(n1, Header, j).forward != Nil
  {
    AtInsert(order, p, x);
    HeaderNonEmpty(n1, InsertAt(order, p, x), j, p + 1);
  }

  /** A level that was not empty at the header is not empty after an insertion. */
  lemma TopKept(n0: seq<Element>, n1: seq<Element>, order: seq<nat>, p: nat, x: nat, j: nat)
    requires StoreOk(n0) && StoreOk(n1) && Extends(n0, n1) && OrderOk(n0, order) && p <= |order| && j < MaxLevel
    requires LevelOk(n0, order, j) && LinkOf(n0, Header, j).forward != Nil
    requires LevelOk(n1, InsertAt(order, p, x), j)
    ensures LinkOf(n1, Header, j).forward != Nil
  {
    NonEmptyWitness(n0, order, j);
    var r :| 1 <= r <= |order| && j < Height(n0, order, r);
    var r1 := if r <= p then r else r + 1;
    AtInsert(order, p, x);
    assert At(InsertAt(order, p, x), r1) == order[r - 1];
    HeaderNonEmpty(n1, InsertAt(order, p, x), j, r1);
  }

  /**
    Node x, inserted at insertion point p, takes the predecessor of that
    point as its backward link and becomes the backward link of its
    successor: then every backward link is right for the longer order, and
    x is the last live node when it was inserted at the end.
   */
  lemma BackInsert(n0: seq<Element>, n1: seq<Element>, order: seq<nat>, p: nat, x: nat)
    requires OrderOk(n0, order) && BackOk(n0, order) && p <= |order| && x !in order
    requires forall w :: BackOf(n1, w) ==
               if w == x then (if p == 0 then Nil else Ref(order[p - 1]))
               else if p < |order| && w == order[p] then Ref(x)
               else BackOf(n0, w)
    ensures BackOk(n1, InsertAt(order, p, x))
    ensures LastRef(InsertAt(order, p, x)) == if p == |order| then Ref(x) else LastRef(order)
  {
    var o1 := InsertAt(order, p, x);
    forall i | 0 <= i < |o1| ensures BackOf(n1, o1[i]) == (if i == 0 then Nil else Ref(o1[i - 1])) {
      if i < p {
        assert BackOf(n0, order[i]) == (if i == 0 then Nil else Ref(order[i - 1]));
        assert Apart(order, i, p);
      } else if i > p + 1 {
        assert BackOf(n0, order[i - 1]) == Ref(order[i - 2]);
        assert Apart(order, p, i - 1);
      }
    }
  }

  /**
    Mapping key k to the inserted node x keeps a sound map sound, and keeps
    a one-to-one map one-to-one when k was not mapped before.
   */
  lemma MapInsert(n0: seq<Element>, n1: seq<Element>, order: seq<nat>, p: nat, x: nat, m: map<int, nat>, k: int)
    requires OrderOk(n0, order) && MapOk(n0, order, m) && p <= |order| && x == |n0|
    requires |n1| == |n0| + 1 && Extends(n0, n1) && n1[x].key == k
    ensures MapOk(n1, InsertAt(order, p, x), m[k := x])
    ensures Indexed(n0, order, m) && k !in m ==> Indexed(n1, InsertAt(order, p, x), m[k := x])
  {
    var o1 := InsertAt(order, p, x);
    assert o1[p] == x;
    forall k' | k' in m && k' != k ensures m[k'] in o1 && KeyOf(n1, m[k']) == k' {
      var i :| 0 <= i < |order| && order[i] == m[k'];
      assert o1[if i < p then i else i + 1] == m[k'];
    }
    if Indexed(n0, order, m) && k !in m {
      forall i | 0 <= i < |o1| ensures KeyOf(n1, o1[i]) in m[k := x] && m[k := x][KeyOf(n1, o1[i])] == o1[i] {
        if i != p {
          var i' := if i < p then i else i - 1;
          assert o1[i] == order[i'];
        }
      }
    }
  }

  /** A non-empty header level leads to a live node that reaches it. */
  lemma NonEmptyWitness(nodes: seq<Element>, order: seq<nat>, j: nat)
    requires StoreOk(nodes) && j < MaxLevel && LevelOk(nodes, order, j)
    requires LinkOf(nodes, Header, j).forward != Nil
    ensures exists r :: 1 <= r <= |order| && j < Height(nodes, order, r)
  {
    assert LinkOk(nodes, order, j, 0);
    var r := LinkOf(nodes, Header, j).span;
    assert 1 <= r <= |order| && j < Height(nodes, order, r);
  }
}
