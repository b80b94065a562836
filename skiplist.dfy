/**
  The skip list: a header node, the level-0 order of its live nodes, the
  search scratch arrays `update` and `rank`, and the map from keys to nodes.

  Nodes live in the store `nodes`; a handle is an index into it and the
  header is index 0. The ghost field `order` is the level-0 sequence of live
  nodes, front to back, that all operations are specified against.
 */
module SkipLists {
  import opened Elements
  import opened Ordering
  import opened Layout

  datatype Option<T> = None | Some(value: T)

  /**
    upd[j] holds the level-j node a search for insertion point p stops at,
    and rk[j] that node's position, for the levels below lvl.
   */
  ghost predicate Stopped(upd: array<nat>, rk: array<int>, ns: seq<Element>, os: seq<nat>, lvl: int, p: nat)
    reads upd, rk
  {
    && Updated(upd, ns, os, lvl, p) && rk.Length == MaxLevel
    && forall j :: 0 <= j < lvl ==> rk[j] == Last(ns, os, j, p)
  }

  /** upd[j] holds the level-j node a search for insertion point p stops at, for the levels below lvl. */
  ghost predicate Updated(upd: array<nat>, ns: seq<Element>, os: seq<nat>, lvl: int, p: nat)
    reads upd
  {
    && upd.Length == MaxLevel && lvl <= MaxLevel
    && forall j :: 0 <= j < lvl ==> upd[j] == At(os, Last(ns, os, j, p))
  }

  /** The search stops depend only on the heights of the header and the live nodes. */
  lemma StoppedFrame(upd: array<nat>, rk: array<int>, n0: seq<Element>, n1: seq<Element>, os: seq<nat>, lvl: int, p: nat)
    requires Stopped(upd, rk, n0, os, lvl, p) && p <= |os|
    requires forall r: nat :: r <= |os| ==> Height(n1, os, r) == Height(n0, os, r)
    ensures Stopped(upd, rk, n1, os, lvl, p)
  {
    LastFrameAll(n0, n1, os);
  }

  /** Mapping k afresh gives the same map whether or not k was removed first. */
  lemma Overwrite(m0: map<int, nat>, m1: map<int, nat>, k: int, r: nat)
    requires m1 == m0 || m1 == m0 - {k}
    ensures m1[k := r] == m0[k := r]
  {
  }

  class SkipList {
    var nodes: seq<Element>
    var tail: Ptr
    var update: array<nat>
    var rank: array<int>
    var length: int
    var level: int
    var elementMap: map<int, nat>
    ghost var order: seq<nat>

    ghost predicate Valid()
      reads this
    {
      && update.Length == MaxLevel && rank.Length == MaxLevel
      && Shaped(nodes, order, level)
      && length == |order|
      && BackOk(nodes, order)
      && tail == LastRef(order)
      && MapOk(nodes, order, elementMap)
    }

    /** The values of the live nodes, front to back. */
    ghost function Values(): seq<int>
      reads this
    {
      ValuesOf(nodes, order)
    }

    /** update[j] holds the level-j node a search for insertion point p stops at, for every level in use. */
    ghost predicate Stops(upd: array<nat>, p: nat)
      reads this, upd
    {
      Updated(upd, nodes, order, level, p)
    }

    /** The live nodes after removing the node `key` maps to, when the removal finds it. */
    ghost function AfterRemove(key: int): seq<nat>
      reads this
      requires Valid()
    {
      if key in elementMap && SelfBound(nodes, order, elementMap[key])
      then RemoveAt(order, CountLess(Values(), ValueOf(nodes, elementMap[key])))
      else order
    }

    /** New: an empty list whose header has every level. */
    constructor ()
      ensures Valid() && fresh(update) && fresh(rank)
      ensures order == [] && elementMap == map[] && level == 1
      ensures Len() == 0 && Front() == Nil && Back() == Nil
    {
      nodes := [NewElement(MaxLevel, 0, 0)];
      tail := Nil;
      update := new nat[MaxLevel];
      rank := new int[MaxLevel];
      length := 0;
      level := 1;
      elementMap := map[];
      order := [];
    }

    /**
      Init clears the list and returns it. It puts a fresh header in place
      and keeps the removed nodes in the store, so a handle taken before Init
      never names a node created after it.
     */
    method Init() returns (r: SkipList)
      requires StoreOk(nodes)
      modifies this
      ensures r == this && Valid() && fresh(update) && fresh(rank)
      ensures order == [] && elementMap == map[] && level == 1
      ensures Len() == 0 && Front() == Nil && Back() == Nil
      ensures nodes == old(nodes)[Header := NewElement(MaxLevel, 0, 0)]
    {
      nodes := nodes[Header := NewElement(MaxLevel, 0, 0)];
      tail := Nil;
      update := new nat[MaxLevel];
      rank := new int[MaxLevel];
      length := 0;
      level := 1;
      elementMap := map[];
      order := [];
      r := this;
    }

    /** The first live node, or Nil. */
    function Front(): (r: Ptr)
      reads this
      requires Valid()
      ensures |order| == 0 ==> r == Nil
      ensures |order| > 0 ==> r == Ref(order[0])
    {
      LevelZero(nodes, order, 0);
      nodes[Header].level[0].forward
    }

    /** The last live node, or Nil. */
    function Back(): (r: Ptr)
      reads this
      requires Valid()
      ensures |order| == 0 ==> r == Nil
      ensures |order| > 0 ==> r == Ref(order[|order| - 1])
    {
      tail
    }

    function Len(): (r: int)
      reads this
      requires Valid()
      ensures r == |order|
    {
      length
    }

    /** Element.Next and Element.Prev walk the live nodes in order. */
    lemma NextPrev(i: nat)
      requires Valid() && i < |order|
      ensures |nodes[order[i]].level| > 0
      ensures nodes[order[i]].Next() == if i + 1 < |order| then Ref(order[i + 1]) else Nil
      ensures nodes[order[i]].Prev() == if i == 0 then Nil else Ref(order[i - 1])
    {
      assert LevelOk(nodes, order, 0);
      LevelZero(nodes, order, i + 1);
      assert At(order, i + 1) == order[i];
      assert i + 1 < |order| ==> At(order, i + 2) == order[i + 1];
      assert BackOf(nodes, order[i]) == nodes[order[i]].Prev();
    }

    /** The node `key` maps to, or Nil. */
    function GetElement(key: int): (r: Ptr)
      reads this
      requires Valid()
      ensures r != Nil <==> key in elementMap
      ensures r != Nil ==> r.at in order && KeyOf(nodes, r.at) == key
    {
      if key in elementMap then Ref(elementMap[key]) else Nil
    }

    /** The value of the node `key` maps to, or None. */
    function Get(key: int): (r: Option<int>)
      reads this
      requires Valid()
      ensures r.Some? <==> key in elementMap
      ensures r.Some? ==> exists i :: 0 <= i < |order| && order[i] == elementMap[key] && Values()[i] == r.value
    {
      if key in elementMap then
        var e := elementMap[key];
        ghost var i :| 0 <= i < |order| && order[i] == e;
        Some(nodes[e].value)
      else None
    }

    /**
      The walk along level i shared by every search: from the level-i node x
      at position px, follow level-i links while the next node's value is
      below v. The walk stops at the last level-i node whose value is below v
      (the header if none is) and reports the span it covered.
     */
    static method Advance(ns: seq<Element>, ghost os: seq<nat>, i: nat, x: nat, ghost px: nat, v: int) returns (y: nat, gone: int)
      requires StoreOk(ns) && OrderOk(ns, os) && Sorted(ValuesOf(ns, os)) && i < MaxLevel && LevelOk(ns, os, i)
      requires px <= CountLess(ValuesOf(ns, os), v) && x == At(os, px) && (px == 0 || i < Height(ns, os, px))
      ensures 0 <= gone && px + gone == Last(ns, os, i, CountLess(ValuesOf(ns, os), v))
      ensures y == At(os, px + gone)
    {
      ghost var c := CountLess(ValuesOf(ns, os), v);
      ghost var q := px;
      y, gone := x, 0;
      while LinkOf(ns, y, i).forward != Nil && ValueOf(ns, LinkOf(ns, y, i).forward.at) < v
        invariant 0 <= gone && q == px + gone && q <= c && y == At(os, q)
        invariant q == 0 || i < Height(ns, os, q)
        decreases c - gone
      {
        StepOn(ns, os, i, q, v);
        gone := gone + LinkOf(ns, y, i).span;
        q := q + LinkOf(ns, y, i).span;
        y := LinkOf(ns, y, i).forward.at;
      }
      if LinkOf(ns, y, i).forward != Nil {
        StepOn(ns, os, i, q, v);
      }
      DescentStop(ns, os, i, c, q);
    }

    /** One level of find: walk level i and record in upd[i] where the walk stops. */
    static method FindLevel(ns: seq<Element>, ghost os: seq<nat>, i: nat, x: nat, ghost px: nat, v: int, upd: array<nat>) returns (y: nat, ghost py: nat)
      requires StoreOk(ns) && OrderOk(ns, os) && Sorted(ValuesOf(ns, os)) && i < MaxLevel && LevelOk(ns, os, i)
      requires px <= CountLess(ValuesOf(ns, os), v) && x == At(os, px) && (px == 0 || i < Height(ns, os, px))
      requires i < upd.Length
      modifies upd
      ensures py == Last(ns, os, i, CountLess(ValuesOf(ns, os), v)) && y == At(os, py) && upd[i] == y
      ensures forall j :: 0 <= j < upd.Length && j != i ==> upd[j] == old(upd[j])
    {
      var gone;
      y, gone := Advance(ns, os, i, x, px, v);
      py := px + gone;
      upd[i] := y;
    }

    /**
      find: the first live node whose value is not below v, or Nil; update
      receives the node each level's search stops at.
     */
    method FindLowerBound(v: int) returns (r: Ptr)
      requires Valid()
      modifies update
      ensures Stops(update, CountLess(Values(), v))
      ensures var c := CountLess(Values(), v); r == if c < |order| then Ref(order[c]) else Nil
    {
      var ns := nodes;
      ghost var os := order;
      ghost var c := CountLess(ValuesOf(ns, os), v);
      var x := Header;
      ghost var px: nat := 0;
      var i := level - 1;
      while i >= 0
        invariant -1 <= i < level
        invariant px <= c && x == At(os, px) && (px == 0 || i < Height(ns, os, px))
        invariant forall j :: i < j < level ==> update[j] == At(os, Last(ns, os, j, c))
        invariant i < 0 ==> px == c
        decreases i
      {
        assert LevelOk(ns, os, i);
        x, px := FindLevel(ns, os, i, x, px, v, update);
        if i == 0 {
          LastOnLevelZero(ns, os, c);
        }
        i := i - 1;
      }
      LevelZero(ns, os, c);
      r := LinkOf(ns, x, 0).forward;
    }

    /** Find: the first live node whose value is v, or Nil. */
    method Find(v: int) returns (r: Ptr)
      requires Valid()
      modifies update
      ensures Stops(update, CountLess(Values(), v))
      ensures var c := CountLess(Values(), v); r == if c < |order| && Values()[c] == v then Ref(order[c]) else Nil
      ensures r != Nil <==> v in Values()
    {
      FirstNotLess(Values(), v);
      SortedSplit(Values(), v);
      var x := FindLowerBound(v);
      if x != Nil && !(v < ValueOf(nodes, x.at)) {
        r := x;
      } else {
        r := Nil;
      }
    }

    /**
      getRankByData: the 1-based position of a live node whose value is v,
      or 0 if there is none. The search stops at the first level on which
      the next node holds v; with distinct values that is the only such node.
     */
    method GetRankByData(v: int) returns (r: int)
      requires Valid()
      ensures r == 0 <==> v !in Values()
      ensures r != 0 ==> CountLess(Values(), v) < r <= |order| && Values()[r - 1] == v
      ensures r != 0 && Distinct(Values()) ==> r == CountLess(Values(), v) + 1
    {
      r := RankByData(nodes, order, level, v);
    }

    /** The search of getRankByData over the node store. */
    static method RankByData(ns: seq<Element>, ghost os: seq<nat>, lvl: int, v: int) returns (r: int)
      requires Shaped(ns, os, lvl)
      ensures r == 0 <==> v !in ValuesOf(ns, os)
      ensures r != 0 ==> CountLess(ValuesOf(ns, os), v) < r <= |os| && ValuesOf(ns, os)[r - 1] == v
      ensures r != 0 && Distinct(ValuesOf(ns, os)) ==> r == CountLess(ValuesOf(ns, os), v) + 1
    {
      ghost var c := CountLess(ValuesOf(ns, os), v);
      var x := Header;
      var rank := 0;
      var i := lvl - 1;
      while i >= 0
        invariant -1 <= i < lvl
        invariant 0 <= rank <= c && x == At(os, rank) && (rank == 0 || i < Height(ns, os, rank))
        invariant i < 0 ==> v !in ValuesOf(ns, os)
        decreases i
      {
        var gone;
        assert LevelOk(ns, os, i);
        x, gone := Advance(ns, os, i, x, rank, v);
        rank := rank + gone;
        if LinkOf(ns, x, i).forward != Nil && !(ValueOf(ns, LinkOf(ns, x, i).forward.at) < v) && !(v < ValueOf(ns, LinkOf(ns, x, i).forward.at)) {
          r := rank + LinkOf(ns, x, i).span;
          RankHit(ns, os, i, rank, v, r);
          return;
        }
        if i == 0 {
          LastOnLevelZero(ns, os, c);
          RankMiss(ns, os, v);
        }
        i := i - 1;
      }
      r := 0;
    }

    /** GetRank: the rank of the node `key` maps to, or 0 if the key is absent. */
    method GetRank(key: int) returns (r: int)
      requires Valid()
      ensures r == 0 <==> key !in elementMap
      ensures key in elementMap ==> 0 < r <= |order| && Values()[r - 1] == ValueOf(nodes, elementMap[key])
      ensures key in elementMap && Distinct(Values()) ==> order[r - 1] == elementMap[key]
    {
      var e := GetElement(key);
      if e != Nil {
        ghost var i :| 0 <= i < |order| && order[i] == e.at;
        r := GetRankByData(ValueOf(nodes, e.at));
        if Distinct(Values()) {
          DistinctPosition(Values(), i);
        }
      } else {
        r := 0;
      }
    }

    /**
      The level-i walk of GetElementByRank: from the level-i node x at
      position t, follow level-i links while they do not pass position
      rank. It stops at the last level-i node at or before rank, clamped
      to the list.
     */
    static method Reach(ns: seq<Element>, ghost os: seq<nat>, lvl: int, i: int, x: nat, t: int, rank: int) returns (y: nat, u: int)
      requires Shaped(ns, os, lvl) && 0 <= i < lvl
      requires 0 <= t <= Clamp(rank, |os|) && x == At(os, t) && (t == 0 || i < Height(ns, os, t))
      ensures u == Last(ns, os, i, Clamp(rank, |os|)) && y == At(os, u)
    {
      ghost var R := Clamp(rank, |os|);
      assert LevelOk(ns, os, i);
      y, u := x, t;
      while LinkOf(ns, y, i).forward != Nil && u + LinkOf(ns, y, i).span <= rank
        invariant t <= u <= R && y == At(os, u)
        invariant u == 0 || i < Height(ns, os, u)
        invariant LinkOk(ns, os, i, u)
        decreases R - u
      {
        u := u + LinkOf(ns, y, i).span;
        y := LinkOf(ns, y, i).forward.at;
      }
      DescentStop(ns, os, i, R, u);
    }

    /**
      GetElementByRank: the node at 1-based position rank. Rank 0 gives the
      header, as the descent returns it before it moves; a rank outside
      0..Len() gives Nil.
     */
    method GetElementByRank(rank: int) returns (r: Ptr)
      requires Valid()
      ensures r == if 0 <= rank <= |order| then Ref(At(order, rank)) else Nil
    {
      var ns := nodes;
      ghost var os := order;
      ghost var R := Clamp(rank, |os|);
      var x := Header;
      var traversed := 0;
      var i := level - 1;
      while i >= 0
        invariant -1 <= i < level
        invariant 0 <= traversed <= R && x == At(os, traversed) && (traversed == 0 || i < Height(ns, os, traversed))
        invariant i < 0 ==> traversed != rank && !(0 <= rank <= |os|)
        decreases i
      {
        x, traversed := Reach(ns, os, level, i, x, traversed, rank);
        if traversed == rank {
          return Ref(x);
        }
        if i == 0 {
          LastOnLevelZero(ns, os, R);
        }
        i := i - 1;
      }
      r := Nil;
    }

    /**
      The level loop of deleteElement over the node store: on every level in
      use, the search stop upd[i] either linked to e and takes over e's link
      and span, or jumped over e and its span shrinks by one.
     */
    static method UnlinkLevels(ns: seq<Element>, ghost os: seq<nat>, lvl: int, e: nat, upd: array<nat>, ghost p: nat) returns (r: seq<Element>)
      requires Shaped(ns, os, lvl) && p < |os| && e == os[p]
      requires upd.Length == MaxLevel && forall j :: 0 <= j < lvl ==> upd[j] == At(os, Last(ns, os, j, p))
      ensures |r| == |ns| && Extends(ns, r)
      ensures forall w :: BackOf(r, w) == BackOf(ns, w)
      ensures forall j :: 0 <= j < lvl ==> LevelOk(r, RemoveAt(os, p), j)
      ensures forall j :: lvl <= j < MaxLevel ==> LinkOf(r, Header, j) == LinkOf(ns, Header, j)
      ensures forall j :: LinkOf(r, e, j) == LinkOf(ns, e, j)
    {
      ghost var o1 := RemoveAt(os, p);
      r := ns;
      var i := 0;
      while i < lvl
        invariant 0 <= i <= lvl
        invariant |r| == |ns| && Extends(ns, r)
        invariant forall w :: HeightOf(r, w) == HeightOf(ns, w)
        invariant forall w :: BackOf(r, w) == BackOf(ns, w)
        invariant forall j :: 0 <= j < i ==> LevelOk(r, o1, j)
        invariant forall w, j :: i <= j ==> LinkOf(r, w, j) == LinkOf(ns, w, j)
        invariant forall j :: LinkOf(r, e, j) == LinkOf(ns, e, j)
        decreases lvl - i
      {
        ghost var pu := Last(ns, os, i, p);
        var u := upd[i];
        assert LevelOk(ns, os, i);
        AtDistinct(ns, os, pu, p + 1);
        var next;
        if LinkOf(r, u, i).forward == Ref(e) {
          next := Level(LinkOf(r, e, i).forward, LinkOf(r, u, i).span + LinkOf(r, e, i).span - 1);
        } else {
          next := Level(LinkOf(r, u, i).forward, LinkOf(r, u, i).span - 1);
        }
        ghost var prev := r;
        r := SetLink(r, u, i, next);
        assert Unlinked(ns, r, os, p, i, pu);
        DeleteLevel(ns, r, os, p, i, pu);
        forall j | 0 <= j < i ensures LevelOk(r, o1, j) {
          LevelFrame(prev, r, o1, j);
        }
        i := i + 1;
      }
    }

    /** The loop of deleteElement that lowers the level while its top header level is empty. */
    static method DropEmptyLevels(ns: seq<Element>, ghost os: seq<nat>, lvl: int) returns (lv: int)
      requires StoreOk(ns) && 1 <= lvl <= MaxLevel
      requires forall r :: 1 <= r <= |os| ==> Height(ns, os, r) <= lvl
      requires forall j :: 0 <= j < lvl ==> LevelOk(ns, os, j)
      requires forall j :: lvl <= j < MaxLevel ==> LinkOf(ns, Header, j).forward == Nil
      ensures 1 <= lv <= lvl && Linked(ns, os, lv)
    {
      lv := lvl;
      while lv > 1 && LinkOf(ns, Header, lv - 1).forward == Nil
        invariant 1 <= lv <= lvl
        invariant forall r :: 1 <= r <= |os| ==> Height(ns, os, r) <= lv
        invariant forall j :: lv <= j < MaxLevel ==> LinkOf(ns, Header, j).forward == Nil
        decreases lv
      {
        assert LevelOk(ns, os, lv - 1);
        assert LinkOk(ns, os, lv - 1, 0);
        lv := lv - 1;
      }
    }

    /**
      The node-store part of deleteElement: takes order[p] = e out of every
      level, given the search stops for it in upd, fixes the backward link
      of e's successor (or the tail, when e was last) and drops empty top
      levels.
     */
    static method Unlink(ns: seq<Element>, ghost os: seq<nat>, lvl: int, tl: Ptr, e: nat, upd: array<nat>, ghost p: nat)
      returns (n1: seq<Element>, t1: Ptr, lv: int)
      requires Shaped(ns, os, lvl) && BackOk(ns, os) && tl == LastRef(os) && p < |os| && e == os[p]
      requires upd.Length == MaxLevel && forall j :: 0 <= j < lvl ==> upd[j] == At(os, Last(ns, os, j, p))
      ensures Shaped(n1, RemoveAt(os, p), lv) && BackOk(n1, RemoveAt(os, p)) && t1 == LastRef(RemoveAt(os, p))
      ensures |n1| == |ns| && Extends(ns, n1)
      ensures ValuesOf(n1, RemoveAt(os, p)) == RemoveAt(ValuesOf(ns, os), p)
    {
      ghost var o1 := RemoveAt(os, p);
      n1 := UnlinkLevels(ns, os, lvl, e, upd, p);
      ghost var unlinked := n1;
      t1 := tl;
      assert LevelOk(ns, os, 0);
      LevelZero(ns, os, p + 1);
      if LinkOf(n1, e, 0).forward != Nil {
        n1 := SetBackward(n1, LinkOf(n1, e, 0).forward.at, BackOf(n1, e));
        forall j | 0 <= j < lvl ensures LevelOk(n1, o1, j) {
          LevelFrame(unlinked, n1, o1, j);
        }
      } else {
        t1 := BackOf(n1, e);
      }
      BackRemove(ns, n1, os, p);
      RemoveShape(ns, n1, os, p, lvl);
      lv := DropEmptyLevels(n1, o1, lvl);
    }

    /**
      deleteElement: takes order[p] = e out of the list, given the search
      stops for it in upd, and forgets e's key.
     */
    method DeleteElement(e: nat, upd: array<nat>, ghost p: nat)
      requires Valid() && p < |order| && e == order[p] && Stops(upd, p)
      modifies this
      ensures Valid()
      ensures order == RemoveAt(old(order), p)
      ensures elementMap == old(elementMap) - {KeyOf(old(nodes), e)}
      ensures |nodes| == |old(nodes)| && Extends(old(nodes), nodes)
      ensures Values() == RemoveAt(old(Values()), p)
      ensures update == old(update) && rank == old(rank)
      ensures old(Indexed(nodes, order, elementMap)) ==> Indexed(nodes, order, elementMap)
    {
      var ns := nodes;
      ghost var os := order;
      var n1, t1, lv := Unlink(ns, os, level, tail, e, upd, p);
      MapRemove(ns, n1, os, p, elementMap);
      nodes, tail, level, length := n1, t1, lv, length - 1;
      elementMap := elementMap - {KeyOf(ns, e)};
      order := RemoveAt(os, p);
    }

    /**
      removeByElement: removes node e when a search for its value finds it,
      and returns its value; otherwise changes nothing and returns None. A
      live node is always found when values are distinct (DistinctSelfBound).
     */
    method RemoveByElement(e: nat) returns (r: Option<int>)
      requires Valid()
      modifies this, update
      ensures Valid() && update == old(update) && rank == old(rank)
      ensures r == if old(SelfBound(nodes, order, e)) then Some(ValueOf(nodes, e)) else None
      ensures old(SelfBound(nodes, order, e))
              ==> order == RemoveAt(old(order), old(CountLess(Values(), ValueOf(nodes, e))))
                  && elementMap == old(elementMap) - {KeyOf(nodes, e)}
      ensures !old(SelfBound(nodes, order, e)) ==> order == old(order) && elementMap == old(elementMap)
      ensures |nodes| == |old(nodes)| && Extends(old(nodes), nodes)
      ensures old(Indexed(nodes, order, elementMap)) ==> Indexed(nodes, order, elementMap)
    {
      ghost var c := CountLess(Values(), ValueOf(nodes, e));
      var x := FindLowerBound(ValueOf(nodes, e));
      if x == Ref(e) && !(ValueOf(nodes, e) < ValueOf(nodes, x.at)) {
        DeleteElement(x.at, update, c);
        r := Some(ValueOf(nodes, x.at));
      } else {
        r := None;
      }
    }

    /** remove and Remove: remove the node `key` maps to, if a search for its value finds it. */
    method Remove(key: int) returns (r: Option<int>)
      requires Valid()
      modifies this, update
      ensures Valid() && update == old(update) && rank == old(rank)
      ensures order == old(AfterRemove(key))
      ensures r.Some? <==> old(key in elementMap && SelfBound(nodes, order, elementMap[key]))
      ensures r.Some? ==> r.value == old(ValueOf(nodes, elementMap[key])) && elementMap == old(elementMap) - {key}
      ensures r.None? ==> elementMap == old(elementMap)
      ensures |nodes| == |old(nodes)| && Extends(old(nodes), nodes)
      ensures old(Indexed(nodes, order, elementMap)) ==> Indexed(nodes, order, elementMap)
    {
      var e := GetElement(key);
      if e != Nil {
        r := RemoveByElement(e.at);
      } else {
        r := None;
      }
    }

    /**
      RemoveByData: removes the first live node whose value is v, and
      returns v; None when no live node holds v.
     */
    method RemoveByData(v: int) returns (r: Option<int>)
      requires Valid()
      modifies this, update
      ensures Valid() && update == old(update) && rank == old(rank)
      ensures r == if v in old(Values()) then Some(v) else None
      ensures v in old(Values())
              ==> old(CountLess(Values(), v)) < old(|order|)
                  && order == RemoveAt(old(order), old(CountLess(Values(), v)))
                  && elementMap == old(elementMap) - {old(KeyOf(nodes, order[CountLess(Values(), v)]))}
      ensures v !in old(Values()) ==> order == old(order) && elementMap == old(elementMap)
      ensures |nodes| == |old(nodes)| && Extends(old(nodes), nodes)
      ensures old(Indexed(nodes, order, elementMap)) ==> Indexed(nodes, order, elementMap)
    {
      ghost var c := CountLess(Values(), v);
      FirstNotLess(Values(), v);
      SortedSplit(Values(), v);
      var x := FindLowerBound(v);
      if x != Nil && !(v < ValueOf(nodes, x.at)) {
        var value := ValueOf(nodes, x.at);
        DeleteElement(x.at, update, c);
        r := Some(value);
      } else {
        r := None;
      }
    }

    /**
      The descent of Set: like find, but rank[i] also receives the position
      of the node update[i], counted by the spans crossed on the way.
     */
    static method DescendLevel(ns: seq<Element>, ghost os: seq<nat>, i: nat, x: nat, ghost px: nat, v: int, crossed: int, upd: array<nat>, rk: array<int>) returns (y: nat)
      requires StoreOk(ns) && OrderOk(ns, os) && Sorted(ValuesOf(ns, os)) && i < MaxLevel && LevelOk(ns, os, i)
      requires px <= CountLess(ValuesOf(ns, os), v) && x == At(os, px) && (px == 0 || i < Height(ns, os, px))
      requires crossed == px && upd.Length == MaxLevel && rk.Length == MaxLevel
      modifies upd, rk
      ensures rk[i] == Last(ns, os, i, CountLess(ValuesOf(ns, os), v)) && y == upd[i] && y == At(os, rk[i])
      ensures forall j :: 0 <= j < MaxLevel && j != i ==> upd[j] == old(upd[j]) && rk[j] == old(rk[j])
    {
      var gone;
      y, gone := Advance(ns, os, i, x, px, v);
      rk[i] := crossed + gone;
      upd[i] := y;
    }

    static method Descend(ns: seq<Element>, ghost os: seq<nat>, lvl: int, v: int, upd: array<nat>, rk: array<int>)
      requires Shaped(ns, os, lvl) && upd.Length == MaxLevel && rk.Length == MaxLevel
      modifies upd, rk
      ensures Stopped(upd, rk, ns, os, lvl, CountLess(ValuesOf(ns, os), v))
    {
      ghost var c := CountLess(ValuesOf(ns, os), v);
      var x := Header;
      ghost var px: nat := 0;
      var i := lvl - 1;
      while i >= 0
        invariant -1 <= i < lvl
        invariant px <= c && x == At(os, px) && (px == 0 || i < Height(ns, os, px))
        invariant i + 1 == lvl ==> px == 0
        invariant i + 1 < lvl ==> rk[i + 1] == px
        invariant forall j :: i < j < lvl ==> upd[j] == At(os, Last(ns, os, j, c))
        invariant forall j :: i < j < lvl ==> rk[j] == Last(ns, os, j, c)
        invariant i < 0 ==> px == c
        decreases i
      {
        var crossed := if i == lvl - 1 then 0 else rk[i + 1];
        assert LevelOk(ns, os, i);
        x := DescendLevel(ns, os, i, x, px, v, crossed, upd, rk);
        px := rk[i];
        i := i - 1;
      }
    }

    /** Set's update[i] := y and rank[i] := q. */
    static method Record(upd: array<nat>, rk: array<int>, i: nat, y: nat, q: int)
      requires upd.Length == MaxLevel && rk.Length == MaxLevel && i < MaxLevel
      modifies upd, rk
      ensures upd[i] == y && rk[i] == q
      ensures forall j :: 0 <= j < MaxLevel && j != i ==> upd[j] == old(upd[j]) && rk[j] == old(rk[j])
    {
      rk[i] := q;
      upd[i] := y;
    }

    /**
      The growth loop of Set: the header levels from lvl up to h are taken
      into use, each empty with span len, and every search stops at the
      header on them.
     */
    static method GrowLevels(ns: seq<Element>, ghost os: seq<nat>, lvl: int, h: int, len: int, upd: array<nat>, rk: array<int>, ghost p: nat)
      returns (r: seq<Element>)
      requires Shaped(ns, os, lvl) && len == |os| && lvl < h <= MaxLevel && p <= |os|
      requires Stopped(upd, rk, ns, os, lvl, p)
      modifies upd, rk
      ensures |r| == |ns| && Extends(ns, r) && forall w :: BackOf(r, w) == BackOf(ns, w)
      ensures forall j :: 0 <= j < h ==> LevelOk(r, os, j)
      ensures forall j :: h <= j < MaxLevel ==> LinkOf(r, Header, j).forward == Nil
      ensures Stopped(upd, rk, ns, os, h, p)
    {
      r := ns;
      var i := lvl;
      while i < h
        invariant lvl <= i <= h
        invariant |r| == |ns| && Extends(ns, r)
        invariant forall w :: HeightOf(r, w) == HeightOf(ns, w)
        invariant forall w :: BackOf(r, w) == BackOf(ns, w)
        invariant forall j :: 0 <= j < i ==> LevelOk(r, os, j)
        invariant forall w, j :: i <= j ==> LinkOf(r, w, j) == LinkOf(ns, w, j)
        invariant forall j :: lvl <= j < MaxLevel ==> LinkOf(r, Header, j).forward == Nil
        invariant Stopped(upd, rk, ns, os, i, p)
        decreases h - i
      {
        assert Last(ns, os, i, p) == 0;
        Record(upd, rk, i, Header, 0);
        ghost var prev := r;
        r := SetLink(r, Header, i, Level(LinkOf(r, Header, i).forward, len));
        forall j | 0 <= j < i ensures LevelOk(r, os, j) {
          LevelFrame(prev, r, os, j);
        }
        assert forall q :: 1 <= q <= |os| ==> Height(r, os, q) == Height(ns, os, q) <= i;
        GrowLevel(r, os, i);
        i := i + 1;
      }
    }

    /**
      The splice loop of Set: on each of the h levels of the new node x,
      x takes over the link of the search stop update[i] with the rest of
      its span, and the stop links to x with span rank[0] - rank[i] + 1.
     */
    static method SpliceLevels(n0: seq<Element>, ghost os: seq<nat>, x: nat, h: int, upd: array<nat>, rk: array<int>, ghost p: nat)
      returns (r: seq<Element>)
      requires StoreOk(n0) && OrderOk(n0, os) && p <= |os| && x < |n0| && x != Header && x !in os
      requires 1 <= h <= MaxLevel && HeightOf(n0, x) == h
      requires forall j :: 0 <= j < h ==> LevelOk(n0, os, j)
      requires Stopped(upd, rk, n0, os, h, p)
      ensures |r| == |n0| && Extends(n0, r) && forall w :: BackOf(r, w) == BackOf(n0, w)
      ensures forall j :: 0 <= j < h ==> LevelOk(r, InsertAt(os, p, x), j)
      ensures forall w, j :: h <= j ==> LinkOf(r, w, j) == LinkOf(n0, w, j)
      ensures LinkOf(r, x, 0).forward == LinkOf(n0, At(os, p), 0).forward
    {
      ghost var o1 := InsertAt(os, p, x);
      LastOnLevelZero(n0, os, p);
      r := n0;
      var i := 0;
      while i < h
        invariant 0 <= i <= h
        invariant |r| == |n0| && Extends(n0, r)
        invariant forall w :: HeightOf(r, w) == HeightOf(n0, w)
        invariant forall w :: BackOf(r, w) == BackOf(n0, w)
        invariant forall j :: 0 <= j < i ==> LevelOk(r, o1, j)
        invariant forall w, j :: i <= j ==> LinkOf(r, w, j) == LinkOf(n0, w, j)
        invariant 0 < i ==> LinkOf(r, x, 0).forward == LinkOf(n0, At(os, p), 0).forward
        decreases h - i
      {
        ghost var pu := rk[i];
        var u := upd[i];
        assert u != x by {
          assert pu == 0 || os[pu - 1] in os;
        }
        ghost var prev := r;
        r := SetLink(r, x, i, Level(LinkOf(r, u, i).forward, LinkOf(r, u, i).span - rk[0] + rk[i]));
        r := SetLink(r, u, i, Level(Ref(x), rk[0] - rk[i] + 1));
        assert Spliced(n0, r, os, p, x, i, pu);
        InsertLevel(n0, r, os, p, x, i, pu);
        forall j | 0 <= j < i ensures LevelOk(r, o1, j) {
          LevelFrame(prev, r, o1, j);
        }
        i := i + 1;
      }
    }

    /**
      The loop of Set over the levels in use above the new node x: each
      search stop's link now jumps over one more node.
     */
    static method CrossLevels(n0: seq<Element>, ghost os: seq<nat>, x: nat, h: int, lvl: int, upd: array<nat>, rk: array<int>, ghost p: nat)
      returns (r: seq<Element>)
      requires StoreOk(n0) && OrderOk(n0, os) && p <= |os| && x < |n0| && x != Header && x !in os
      requires 1 <= h && HeightOf(n0, x) == h && lvl <= MaxLevel
      requires forall j :: 0 <= j < h ==> LevelOk(n0, InsertAt(os, p, x), j)
      requires forall j :: h <= j < lvl ==> LevelOk(n0, os, j)
      requires Stopped(upd, rk, n0, os, lvl, p)
      ensures |r| == |n0| && Extends(n0, r) && forall w :: BackOf(r, w) == BackOf(n0, w)
      ensures forall j :: 0 <= j < lvl ==> LevelOk(r, InsertAt(os, p, x), j)
      ensures forall w: nat, j: nat :: j < h || lvl <= j ==> LinkOf(r, w, j) == LinkOf(n0, w, j)
    {
      ghost var o1 := InsertAt(os, p, x);
      r := n0;
      var i := h;
      while i < lvl
        invariant h <= i && (i <= lvl || i == h)
        invariant |r| == |n0| && Extends(n0, r)
        invariant forall w :: HeightOf(r, w) == HeightOf(n0, w)
        invariant forall w :: BackOf(r, w) == BackOf(n0, w)
        invariant forall j :: 0 <= j < i && j < lvl ==> LevelOk(r, o1, j)
        invariant forall w: nat, j: nat :: j < h || i <= j ==> LinkOf(r, w, j) == LinkOf(n0, w, j)
        decreases lvl - i
      {
        ghost var pu := rk[i];
        var u := upd[i];
        ghost var prev := r;
        r := SetLink(r, u, i, Level(LinkOf(r, u, i).forward, LinkOf(r, u, i).span + 1));
        assert Crossed(n0, r, os, p, x, i, pu);
        CrossLevel(n0, r, os, p, x, i, pu);
        forall j | 0 <= j < i ensures LevelOk(r, o1, j) {
          LevelFrame(prev, r, o1, j);
        }
        i := i + 1;
      }
    }

    /**
      The linking part of Set: grows the level to h when needed, appends
      the new node x = |ns| of height h holding k and v, and links it in at
      insertion point p on every level in use, given the search stops for
      p in upd and rk.
     */
    static method LinkNew(ns: seq<Element>, ghost os: seq<nat>, lvl: int, len: int, upd: array<nat>, rk: array<int>, h: int, k: int, v: int, ghost p: nat)
      returns (n1: seq<Element>, lv: int, x: nat)
      requires Shaped(ns, os, lvl) && len == |os| && p <= |os| && 1 <= h <= MaxLevel
      requires Stopped(upd, rk, ns, os, lvl, p)
      modifies upd, rk
      ensures x == |ns| && |n1| == |ns| + 1 && Extends(ns, n1)
      ensures n1[x].key == k && n1[x].value == v && |n1[x].level| == h
      ensures forall w :: BackOf(n1, w) == BackOf(ns, w)
      ensures lv == if lvl < h then h else lvl
      ensures forall j :: 0 <= j < lv ==> LevelOk(n1, InsertAt(os, p, x), j)
      ensures forall j :: lv <= j < MaxLevel ==> LinkOf(n1, Header, j).forward == Nil
      ensures LinkOf(n1, x, 0).forward == if p < |os| then Ref(os[p]) else Nil
      ensures upd[0] == At(os, p)
    {
      var n0 := ns;
      lv := lvl;
      if lvl < h {
        n0 := GrowLevels(ns, os, lvl, h, len, upd, rk, p);
        lv := h;
        StoppedFrame(upd, rk, ns, n0, os, lv, p);
      }
      x := |n0|;
      var e := NewElement(h, k, v);
      AppendNode(n0, os, e, lv);
      var na := n0 + [e];
      StoppedFrame(upd, rk, n0, na, os, lv, p);
      LastOnLevelZero(na, os, p);
      LevelZero(na, os, p);
      var n2 := SpliceLevels(na, os, x, h, upd, rk, p);
      forall j | h <= j < lv ensures LevelOk(n2, os, j) {
        LevelFrame(na, n2, os, j);
      }
      StoppedFrame(upd, rk, na, n2, os, lv, p);
      n1 := CrossLevels(n2, os, x, h, lv, upd, rk, p);
    }

    /**
      The node-store part of Set: searches for the insertion point of v,
      recording the stops in upd and their positions in rk, and links the
      new node x = |ns| of height h holding k and v in front of
      the first live node whose value is not below v.
     */
    static method Insert(ns: seq<Element>, ghost os: seq<nat>, lvl: int, tl: Ptr, len: int, upd: array<nat>, rk: array<int>, h: int, k: int, v: int, ghost p: nat)
      returns (n1: seq<Element>, t1: Ptr, lv: int, x: nat)
      requires Shaped(ns, os, lvl) && BackOk(ns, os) && tl == LastRef(os) && len == |os|
      requires p == CountLess(ValuesOf(ns, os), v)
      requires upd.Length == MaxLevel && rk.Length == MaxLevel && 1 <= h <= MaxLevel
      modifies upd, rk
      ensures x == |ns| && |n1| == |ns| + 1 && Extends(ns, n1)
      ensures n1[x].key == k && n1[x].value == v && |n1[x].level| == h
      ensures Shaped(n1, InsertAt(os, p, x), lv) && BackOk(n1, InsertAt(os, p, x)) && t1 == LastRef(InsertAt(os, p, x))
      ensures ValuesOf(n1, InsertAt(os, p, x)) == InsertAt(ValuesOf(ns, os), p, v)
    {
      Descend(ns, os, lvl, v, upd, rk);
      n1, t1, lv, x := Place(ns, os, lvl, tl, len, upd, rk, h, k, v, p);
    }

    /**
      Links the new node x = |ns| of height h holding k and v in at
      insertion point p, the first position whose value is not below v,
      given the search stops for p, and sets its backward link and its
      successor's (or the tail).
     */
    static method Place(ns: seq<Element>, ghost os: seq<nat>, lvl: int, tl: Ptr, len: int, upd: array<nat>, rk: array<int>, h: int, k: int, v: int, ghost p: nat)
      returns (n1: seq<Element>, t1: Ptr, lv: int, x: nat)
      requires Shaped(ns, os, lvl) && BackOk(ns, os) && tl == LastRef(os) && len == |os|
      requires p == CountLess(ValuesOf(ns, os), v)
      requires Stopped(upd, rk, ns, os, lvl, p) && 1 <= h <= MaxLevel
      modifies upd, rk
      ensures x == |ns| && |n1| == |ns| + 1 && Extends(ns, n1)
      ensures n1[x].key == k && n1[x].value == v && |n1[x].level| == h
      ensures Shaped(n1, InsertAt(os, p, x), lv) && BackOk(n1, InsertAt(os, p, x)) && t1 == LastRef(InsertAt(os, p, x))
      ensures ValuesOf(n1, InsertAt(os, p, x)) == InsertAt(ValuesOf(ns, os), p, v)
    {
      var linked;
      linked, lv, x := LinkNew(ns, os, lvl, len, upd, rk, h, k, v, p);
      ghost var o1 := InsertAt(os, p, x);
      n1, t1 := LinkBack(linked, os, tl, x, upd[0], p);
      forall j | 0 <= j < lv ensures LevelOk(n1, o1, j) {
        LevelFrame(linked, n1, o1, j);
      }
      BackInsert(ns, n1, os, p, x);
      InsertLinked(ns, n1, os, p, x, v, lvl, lv);
    }

    /**
      The backward links of Set: the new node x, linked in at insertion
      point p after node u, points back to u (or to nothing when u is the
      header); its successor points back to x, or x becomes the tail.
     */
    static method LinkBack(n0: seq<Element>, ghost os: seq<nat>, tl: Ptr, x: nat, u: nat, ghost p: nat) returns (n1: seq<Element>, t1: Ptr)
      requires OrderOk(n0, os) && p <= |os| && x < |n0| && x !in os && u == At(os, p) && tl == LastRef(os)
      requires LinkOf(n0, x, 0).forward == if p < |os| then Ref(os[p]) else Nil
      ensures |n1| == |n0| && Extends(n0, n1)
      ensures forall w :: HeightOf(n1, w) == HeightOf(n0, w)
      ensures forall w, j :: LinkOf(n1, w, j) == LinkOf(n0, w, j)
      ensures forall w :: BackOf(n1, w) ==
                if w == x then (if p == 0 then Nil else Ref(os[p - 1]))
                else if p < |os| && w == os[p] then Ref(x)
                else BackOf(n0, w)
      ensures t1 == if p == |os| then Ref(x) else tl
    {
      assert u == Header <==> p == 0;
      n1 := SetBackward(n0, x, if u == Header then Nil else Ref(u));
      t1 := tl;
      if LinkOf(n1, x, 0).forward != Nil {
        n1 := SetBackward(n1, LinkOf(n1, x, 0).forward.at, Ref(x));
      } else {
        t1 := Ref(x);
      }
    }

    /**
      Set: removes the node k maps to (when a search for its value finds
      it), then links a new node of the drawn height holding k and v in
      front of the first live node whose value is not below v, and maps k
      to it. The new node's index is returned.
     */
    method Set(k: int, v: int, draw: nat -> int) returns (r: nat)
      requires Valid()
      modifies this, update, rank
      ensures Valid() && update == old(update) && rank == old(rank)
      ensures r == |old(nodes)| && |nodes| == r + 1 && Extends(old(nodes), nodes)
      ensures nodes[r].key == k && nodes[r].value == v
      ensures |nodes[r].level| == 1 + LeadingSuccesses(draw, 0, MaxLevel - 1)
      ensures order == InsertAt(old(AfterRemove(k)), CountLess(old(ValuesOf(nodes, AfterRemove(k))), v), r)
      ensures Values() == InsertAt(old(ValuesOf(nodes, AfterRemove(k))), CountLess(old(ValuesOf(nodes, AfterRemove(k))), v), v)
      ensures elementMap == old(elementMap)[k := r] && Get(k) == Some(v)
      ensures Len() == if old(k in elementMap && SelfBound(nodes, order, elementMap[k])) then old(Len()) else old(Len()) + 1
      ensures old(Indexed(nodes, order, elementMap) && (k in elementMap ==> SelfBound(nodes, order, elementMap[k])))
              ==> Indexed(nodes, order, elementMap)
    {
      ghost var n0, m0, len0 := nodes, elementMap, |order|;
      var removed := Remove(k);
      ValuesFrame(n0, nodes, order);
      ghost var m1 := elementMap;
      assert |order| == if removed.Some? then len0 - 1 else len0;
      var h := RandomLevel(draw);
      r := InsertNew(k, v, h);
      Overwrite(m0, m1, k, r);
    }

    /**
      The insertion part of Set: a new node of height h holding k
      and v, linked in front of the first live node whose value is not
      below v, with k mapped to it.
     */
    method InsertNew(k: int, v: int, h: int) returns (r: nat)
      requires Valid() && 1 <= h <= MaxLevel
      modifies this, update, rank
      ensures Valid() && update == old(update) && rank == old(rank)
      ensures r == |old(nodes)| && |nodes| == r + 1 && Extends(old(nodes), nodes)
      ensures nodes[r].key == k && nodes[r].value == v && |nodes[r].level| == h
      ensures order == InsertAt(old(order), old(CountLess(Values(), v)), r)
      ensures Values() == InsertAt(old(Values()), old(CountLess(Values(), v)), v)
      ensures elementMap == old(elementMap)[k := r] && Get(k) == Some(v) && Len() == old(Len()) + 1
      ensures old(Indexed(nodes, order, elementMap) && k !in elementMap) ==> Indexed(nodes, order, elementMap)
    {
      var ns := nodes;
      ghost var os := order;
      ghost var c := CountLess(ValuesOf(ns, os), v);
      var n1, t1, lv, x := Insert(ns, os, level, tail, length, update, rank, h, k, v, c);
      Install(n1, t1, lv, x, c);
      r := x;
    }

    /**
      The last steps of Set: the store with node x linked in at insertion
      point p becomes the list's, the length grows by one and x's key is
      mapped to x.
     */
    method Install(n1: seq<Element>, t1: Ptr, lv: int, x: nat, ghost p: nat)
      requires Valid() && p <= |order| && x == |nodes| && |n1| == |nodes| + 1 && Extends(nodes, n1)
      requires Shaped(n1, InsertAt(order, p, x), lv) && BackOk(n1, InsertAt(order, p, x)) && t1 == LastRef(InsertAt(order, p, x))
      modifies this
      ensures Valid() && update == old(update) && rank == old(rank) && nodes == n1
      ensures order == InsertAt(old(order), p, x)
      ensures elementMap == old(elementMap)[n1[x].key := x]
      ensures old(Indexed(nodes, order, elementMap) && n1[x].key !in elementMap) ==> Indexed(nodes, order, elementMap)
    {
      ghost var os := order;
      MapInsert(nodes, n1, os, p, x, elementMap, n1[x].key);
      nodes, tail, level, length := n1, t1, lv, length + 1;
      elementMap := elementMap[n1[x].key := x];
      order := InsertAt(os, p, x);
    }
  }
}
