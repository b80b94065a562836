/**
  Nodes of the skip list and the drawing of a node's height.

  A node holds a key, a value, a backward link to its level-0 predecessor and
  one `Level` slot per level it takes part in. Links between nodes are indices
  into the list's node store (`Ref(i)`), or `Nil`.
 */
module Elements {

  /** Highest level a node or the header can have. */
  const MaxLevel: nat := 32

  /** The range of each draw: a node climbs one more level on a non-zero draw, with probability (Branch - 1)/Branch. */
  const Branch: nat := 2

  /** A link to a node of the store, or none. */
  datatype Ptr = Nil | Ref(at: nat)

  /** One level of a node: the next node on that level and how many level-0 steps the link covers. */
  datatype Level = Level(forward: Ptr, span: int)

  datatype Element = Element(key: int, value: int, backward: Ptr, level: seq<Level>)
  {
    /** The level-0 successor; `SkipList.Next` states what it is for a live node. */
    function Next(): Ptr
      requires |level| > 0
    {
      level[0].forward
    }

    /** The level-0 predecessor; `SkipList.Prev` states what it is for a live node. */
    function Prev(): Ptr {
      backward
    }
  }

  /** A fresh node with `height` empty levels and no backward link. */
  function NewElement(height: nat, k: int, v: int): (e: Element)
    ensures e.key == k && e.value == v && e.backward == Nil
    ensures |e.level| == height
    ensures forall i :: 0 <= i < height ==> e.level[i].forward == Nil && e.level[i].span == 0
  {
    Element(k, v, Nil, seq(height, _ => Level(Nil, 0)))
  }

  /**
    How many of the draws `draw(from)`, `draw(from + 1)`, ... before index
    `limit` are non-zero before the first zero one.
   */
  function LeadingSuccesses(draw: nat -> int, from: nat, limit: nat): (c: nat)
    ensures from <= limit ==> c <= limit - from
    ensures from < limit && draw(from) != 0 ==> c >= 1
    decreases limit - from
  {
    if from >= limit || draw(from) == 0 then 0
    else 1 + LeadingSuccesses(draw, from + 1, limit)
  }

  /**
    The height drawn from the random source: `draw(t)` is the t-th result of a
    uniform draw from [0, Branch). Every non-zero draw adds a level; a zero draw
    or reaching MaxLevel stops.
   */
  method RandomLevel(draw: nat -> int) returns (level: nat)
    ensures 1 <= level <= MaxLevel
    ensures level == 1 + LeadingSuccesses(draw, 0, MaxLevel - 1)
  {
    level := 1;
    while true
      invariant 1 <= level <= MaxLevel - 1
      invariant LeadingSuccesses(draw, 0, MaxLevel - 1) == level - 1 + LeadingSuccesses(draw, level - 1, MaxLevel - 1)
      decreases MaxLevel - level
    {
      if draw(level - 1) == 0 {
        break;
      }
      level := level + 1;
      if level >= MaxLevel {
        break;
      }
    }
  }
}
