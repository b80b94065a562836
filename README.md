# Skip list with ranks, modelled in Dafny

This project models a skip list that serves as an ordered index of
(key, value) pairs. Values sit in non-decreasing order on level 0, which is
doubly linked through `backward` and `tail`. Each level-i link carries a
`span`: the number of level-0 steps it covers. Rank queries use the spans in
both directions, from value to rank and from rank to node. A key-to-node map
gives lookup and upsert by key.

Layout of the model:

- `elements.dfy` (module `Elements`): the node type (`Element`, `Level`,
  `Ptr`), `NewElement`, and the drawing of a node's height (`RandomLevel`).
  It also defines the constants `MaxLevel = 32` and `Branch = 2`.
- `ordering.dfy` (module `Ordering`): facts about the level-0 sequence of
  values:
  - sortedness;
  - `CountLess`, the number of values below a probe;
  - insertion and removal at a position.
- `layout.dfy` (module `Layout`): the node store and its invariants, plus
  one lemma per structural step of an insertion or a removal. The
  invariants cover:
  - the span invariant `LinkOk` / `LevelOk`;
  - the multi-level shape `Linked` / `Shaped`;
  - backward links (`BackOk`);
  - the key map (`MapOk`, `Indexed`).
- `skiplist.dfy` (module `SkipLists`): the class `SkipList` with the
  source's fields:
  - `nodes`, the node store, with the header at index 0;
  - `tail`, `length`, `level` and `elementMap`;
  - the scratch arrays `update` and `rank`;
  - a ghost field `order`, the level-0 sequence of live nodes. Every
    operation is specified against it.

Nodes are indices into the store `nodes`. Removed nodes stay in the store,
just as a Go object outlives its removal while a handle refers to it.

`Valid()` is the class invariant. It says:

- level 0 holds the live nodes in order, sorted by value;
- every link on every level in use has the right target and span, and nil
  links count the rest of the list;
- `1 <= level <= MaxLevel`, and the top level in use is not empty unless it
  is level 0;
- the backward links, `tail` and `length` agree with level 0;
- every key of `elementMap` leads to a live node with that key.

Every operation that changes the list keeps `Valid()`.

The search loops run over a snapshot of the store (`static` methods such as
`Advance`, `Descend` and `UnlinkLevels`). They write `update` and `rank`
just as the source writes `sl.update` and `sl.rank`. `find` leaves its stops
in `update`, and the removal paths hand that same array to
`DeleteElement`.

`Set` on a mapped key removes the old node through `removeByElement`
(skiplist.go:71, 157-159, 175-177), which removes it only when a search for
its value lands on it. When a node with an equal value sits in front of the
old node, the search stops there instead: the old node stays live, and
skiplist.go:126 maps the key to the new node. `Set`'s contract states
exactly this through `SelfBound`, and `Layout.DistinctSelfBound` shows that
with distinct values every live node is `SelfBound`.

## Model

| member | source | states |
|---|---|---|
| Elements.NewElement | element.go:33-40 | the node has exactly `height` levels, each with a nil forward link and span 0, a nil backward link, and the given key and value |
| Elements.RandomLevel | element.go:43-55 | the height is between 1 and 32, and equals 1 plus the number of non-zero draws before the first zero draw, counting at most 31 draws |
| SkipLists.SkipList.constructor | skiplist.go:21-31 | a valid empty list: no live nodes, empty map, level 1, `Len() == 0`, `Front()` and `Back()` nil, fresh scratch arrays |
| SkipLists.SkipList.Init | skiplist.go:34-44 | clears the list to the same empty state with a fresh header and fresh scratch arrays, keeps the old nodes detached so no index is reused, and returns the receiver itself |
| SkipLists.SkipList.Front | skiplist.go:47-49 | the header's level-0 link is the first live node, or nil when the list is empty |
| SkipLists.SkipList.Back | skiplist.go:52-57 | `tail` is the last live node, or nil when the list is empty |
| SkipLists.SkipList.Len | skiplist.go:60-65 | `length` is the number of live nodes |
| SkipLists.SkipList.NextPrev | element.go:23-30 | on a live node, `Next` is its level-0 successor (nil for the last) and `Prev` its predecessor (nil for the first) |
| SkipLists.SkipList.GetElement | skiplist.go:244-250 | non-nil exactly when the key is mapped; then it is a live node holding that key |
| SkipLists.SkipList.Get | skiplist.go:234-242 | `Some` exactly when the key is mapped; the value is the one at the mapped node's level-0 position |
| SkipLists.SkipList.Advance | skiplist.go:224-226 | the level-i walk stops at the last level-i node whose value is below v (the header if none), and `gone` is the span it covered |
| SkipLists.SkipList.FindLevel | skiplist.go:223-228 | one level of `find`: `upd[i]` receives that stop, and no other slot of `upd` changes |
| SkipLists.SkipList.FindLowerBound | skiplist.go:221-231 | the result is the first live node whose value is not below v, or nil when there is none; `update[j]` holds the level-j stop for that position on every level in use |
| SkipLists.SkipList.Find | skiplist.go:209-218 | non-nil exactly when v is a live value, and then it is the first node holding v |
| SkipLists.SkipList.RankByData | skiplist.go:265-281 | 0 exactly when no live node holds v; otherwise a 1-based position holding v after every value below v, and with distinct values exactly 1 + the number of values below v |
| SkipLists.SkipList.GetRankByData | skiplist.go:287-292 | the same result over the list's own nodes and level |
| SkipLists.SkipList.GetRank | skiplist.go:254-263 | 0 exactly when the key is not mapped; otherwise a position holding the mapped node's value, and with distinct values the mapped node's own position |
| SkipLists.SkipList.Reach | skiplist.go:303-306 | the level-i walk by rank stops at the last level-i node at or before `rank` (clamped to the list) |
| SkipLists.SkipList.GetElementByRank | skiplist.go:297-313 | for `0 <= rank <= Len()` the node at 1-based position rank (the header for 0); nil otherwise |
| SkipLists.SkipList.UnlinkLevels | skiplist.go:133-140 | after each level's stop takes over e's link (or its span shrinks by one), every level in use is correct for the order without e; the header's unused levels and e's own links are unchanged |
| SkipLists.SkipList.DropEmptyLevels | skiplist.go:148-150 | the level drops while its top header level is empty, never below 1, and the shape holds for the new level |
| SkipLists.SkipList.Unlink | skiplist.go:132-150 | the store without e: shaped and sorted, backward links and tail right for the order without e, and the values are the old ones minus the one at e's position |
| SkipLists.SkipList.DeleteElement | skiplist.go:132-154 | e leaves `order` at its position, its key leaves the map, `Valid()` holds, the 1:1 key map is kept, and the scratch arrays are the same objects |
| SkipLists.SkipList.RemoveByElement | skiplist.go:174-192 | removes e and returns its value exactly when a search for e's value lands on e (`SelfBound`); otherwise nothing changes and the result is None |
| SkipLists.SkipList.Remove | skiplist.go:156-172 | removes the node the key maps to exactly when the key is mapped and that node is `SelfBound`, and returns its value; otherwise nothing changes |
| SkipLists.SkipList.RemoveByData | skiplist.go:195-206 | returns `Some(v)` exactly when v is a live value, and then removes the first node holding v and that node's key; otherwise nothing changes |
| SkipLists.SkipList.DescendLevel | skiplist.go:75-84 | one level of `Set`'s descent: `rank[i]` is the position of the level-i stop (rank carried from the level above plus the span crossed), `update[i]` is that node, and no other slots change |
| SkipLists.SkipList.Descend | skiplist.go:72-85 | for every level in use, `update[j]` and `rank[j]` are the stop for the insertion point `CountLess(values, v)` and its position |
| SkipLists.SkipList.Record | skiplist.go:92-93 | writes `rank[i]` and `update[i]` and leaves every other slot alone |
| SkipLists.SkipList.GrowLevels | skiplist.go:90-97 | the header levels from `level` up to h become empty levels of span `length`; each is correct, and every search stops at the header there |
| SkipLists.SkipList.SpliceLevels | skiplist.go:100-107 | on each of x's h levels, x takes the stop's old target with the rest of its span, and the stop links to x with span `rank[0] - rank[i] + 1`; these levels are then correct for the order with x inserted |
| SkipLists.SkipList.CrossLevels | skiplist.go:110-112 | on the levels above x that are in use, each stop's span grows by one and the levels are correct for the order with x inserted |
| SkipLists.SkipList.LinkNew | skiplist.go:89-112 | grows the level when needed, appends the new node with k and v, and links it in on every level; x's level-0 successor is the node that was at the insertion point |
| SkipLists.SkipList.LinkBack | skiplist.go:114-123 | x points back to the stop (nil if the stop is the header); x's successor points back to x, or x becomes the tail |
| SkipLists.SkipList.Place | skiplist.go:89-123 | given the stops, the new store is shaped for the order with x at the insertion point, its backward links and tail are right, and the values gain v there |
| SkipLists.SkipList.Insert | skiplist.go:72-123 | the new node is appended, holds k and v with height h, and sits at position `CountLess(values, v)` in a shaped, sorted store |
| SkipLists.SkipList.Install | skiplist.go:125-126 | installs the new store, grows `length` and maps the node's key to the node, keeping `Valid()` and the 1:1 map when the key was free |
| SkipLists.SkipList.InsertNew | skiplist.go:72-128 | a new node holding k and v sits in front of the first node whose value is not below v, `Len()` grows by one, `Get(k) == Some(v)`, and the map gains k |
| SkipLists.SkipList.Set | skiplist.go:68-129 | returns a new node holding k and v, of the drawn height, placed in front of the first live node whose value is not below v; `Get(k) == Some(v)`; `Len()` is unchanged when the old node of k was removed and grows by one otherwise; the rest of the order is the order after `remove(k)` |
| Ordering.InsertSorted | skiplist.go:80-84 | inserting v in front of the first value not below v keeps the values sorted |
| Ordering.RemoveSorted | skiplist.go:132-154 | removing any position keeps the values sorted |
| Ordering.SortedSplit | skiplist.go:220-231 | in a sorted sequence the values below v are exactly the first `CountLess(s, v)` |
| Ordering.FirstNotLess | skiplist.go:212-214 | v is present exactly when the first value not below v equals v |
| Ordering.DistinctPosition | skiplist.go:254-263 | with distinct values, value `s[i]` has exactly i values below it |
| Layout.StepOn | skiplist.go:224-225 | a level-j link out of a level-j position leads, by its span, to the next level-j position, and its target's value is below v exactly when it does not pass `CountLess(values, v)` |
| Layout.DescentStop | skiplist.go:223-227 | a walk that cannot move on without passing position c stands at the last level-j position at or before c |
| Layout.RankHit | skiplist.go:273-276 | when the link out of a search stop reaches a node holding v, rank plus span is a position holding v after every value below v, and with distinct values it is 1 + `CountLess` |
| Layout.RankMiss | skiplist.go:268-280 | when the level-0 link after the last stop does not hold v, v is not a live value |
| Layout.LevelZero | skiplist.go:119-123 | on level 0 each live node links to its successor with span 1, and the last one has a nil link of span 0 |
| Layout.GrowLevel | skiplist.go:91-95 | an empty header level of span `length` above every node is a correct level |
| Layout.InsertLevel | skiplist.go:100-107 | the splice on one of x's levels makes that level correct for the order with x inserted |
| Layout.CrossLevel | skiplist.go:110-112 | the span increment on a level above x makes that level correct for the order with x inserted |
| Layout.DeleteLevel | skiplist.go:133-140 | the unlink on one level makes that level correct for the order without e |
| Layout.InsertShape | skiplist.go:99-107 | the order with x inserted at `CountLess(values, v)` is a sound, sorted order, with v at that position and no node above the level |
| Layout.RemoveShape | skiplist.go:132-154 | the order without position p is a sound, sorted order whose values are the old ones without position p |
| Layout.BackInsert | skiplist.go:114-123 | the new backward links are right for the order with x inserted, and x is the tail exactly when it was inserted at the end |
| Layout.BackRemove | skiplist.go:142-146 | the new backward links are right for the order without e, and the tail is e's predecessor when e was last |
| Layout.MapInsert | skiplist.go:126 | mapping k to x keeps every key leading to a live node with that key, and the 1:1 correspondence when k was free |
| Layout.MapRemove | skiplist.go:153 | deleting e's key keeps every key leading to a live node with that key, and the 1:1 correspondence |
| Layout.DistinctSelfBound | skiplist.go:175-176 | with distinct values, a search for a live node's value lands on that node, so `removeByElement` always finds it |
| Layout.InsertLinked | skiplist.go:89-112 | a node linked in on every level below max(level, h) leaves the list shaped for that level, including the top level being non-empty |

## Left out

- The `sync.RWMutex` and every lock and unlock: the model is sequential.
- Generic values and keys: values and keys are `int`, and `Less` is `<` on
  `int`. The source's `interface{}` keys and the `Interface.Less`
  comparator are not modelled.
- `math/rand`: `RandomLevel` takes a parameter `draw` in its place, where
  `draw(t)` stands for the t-th result of `rand.Int31n(Branch)`. The model
  tests only `draw(t) == 0` and does not constrain the range of `draw`.
  The distribution of heights and the expected logarithmic cost are not
  stated.
- `SkipLists.SkipList.RemoveByElement`: two error paths of the source are
  not modelled. On a non-empty list, passing the header handle makes Go
  call the caller's `Less` on the header's nil value, which panics for
  comparators that type-assert their argument; the model compares the
  header's stored value and returns None. A nil handle, such as the result
  of `Find` for an absent value, dereferences nil in Go; a handle here is a
  `nat` index, so it cannot be nil.
- `SkipLists.SkipList.Init`: Go's `Init` also initializes a zero-valued
  `SkipList`. The model has no zero value, since every list starts from the
  constructor. `Init` therefore requires the sound store that the
  constructor builds and every operation keeps. `Init` replaces only the
  header and keeps the old nodes, detached, in the store. A handle taken
  before `Init` keeps its index, and nodes created later get new indices,
  so such a handle never names a live node of the cleared list.
- Stale handles after removal: a removed node keeps its index, key and value
  in the store. The model does not consider its links beyond what
  `RemoveByElement` checks: a search for its value must land on it.
- Node aliasing: the Go pointers are indices into `nodes`, and each
  operation replaces the store value in one step. The model has no separate
  heap object per node.
- `SkipLists.SkipList.GetElementByRank`: as in the source, rank 0 returns
  the header sentinel rather than nil. The contract states this and does
  not exclude rank 0.
- `SkipLists.SkipList.GetRank`, `SkipLists.SkipList.RankByData`: without
  distinct values, the model states only that the rank points at a position
  holding the value. The exact rank is stated only for distinct values,
  since among equal values the search may stop at any of them.
- `SkipLists.SkipList.Set`, `SkipLists.SkipList.Remove`: with equal values
  under different keys, `Set` on a mapped key whose node is not the first
  among its equals keeps the old node live. The model follows the source
  here. The 1:1 key map is shown to be kept only when the old node is the
  first among its equals, which always holds with distinct values.
- The Go tests, benchmarks and debugging output.
