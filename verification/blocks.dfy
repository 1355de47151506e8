/**
 * Block reads and writes through chunk storage, and the physics fan-out that
 * follows a write. Chunk storage and the block registry are collaborators the
 * level only calls: storage is a function from a column and an in-column
 * position to the block stored there, and "is this block air" is a parameter.
 */
module Blocks {
  import opened Addressing
  import opened Seqs

  /** A block as the registry resolves it from its id and metadata. */
  datatype Block = Block(id: int, metadata: int)

  /** The contents of every chunk column, as the chunk provider exposes them. */
  type Storage = (ChunkCoord, Local) -> Block

  /** The block at world position `c`: its column is `ChunkOf(c)`, its cell `LocalOf(c)`. */
  function GetBlock(st: Storage, c: Coord): (b: Block)
    ensures forall cc, l :: InColumn(l) && WorldOf(cc, l) == c ==> b == st(cc, l)
  {
    SplitUnique(c);
    st(ChunkOf(c), LocalOf(c))
  }

  /** Storage after the cell addressed by `c` is overwritten with `b`. */
  function Store(st: Storage, c: Coord, b: Block): Storage
  {
    (cc: ChunkCoord, l: Local) => if cc == ChunkOf(c) && l == LocalOf(c) then b else st(cc, l)
  }

  /** After a store, the stored position reads the new block and every other position reads as before. */
  lemma StoreReads(st: Storage, c: Coord, b: Block)
    ensures GetBlock(Store(st, c, b), c) == b
    ensures forall d :: d != c ==> GetBlock(Store(st, c, b), d) == GetBlock(st, d)
  {
    forall d | d != c ensures GetBlock(Store(st, c, b), d) == GetBlock(st, d) {
      SplitInjective(c, d);
    }
  }

  /** What a block write produces besides the new storage. */
  datatype Written = Written(storage: Storage, dirty: ChunkCoord, physics: seq<Coord>, announced: bool)

  /**
   * `SetBlock(block, broadcast, applyPhysics)`: store the block in its column,
   * mark that column dirty, run physics around the written position (against
   * the storage that already holds the new block), and announce the change
   * when asked to.
   */
  function SetBlock(st: Storage, isAir: Block -> bool, c: Coord, b: Block, broadcast: bool, applyPhysics: bool)
    : (w: Written)
    ensures GetBlock(w.storage, c) == b
    ensures forall d :: d != c ==> GetBlock(w.storage, d) == GetBlock(st, d)
    ensures w.dirty.x * 16 <= c.x < w.dirty.x * 16 + 16
    ensures w.dirty.z * 16 <= c.z < w.dirty.z * 16 + 16
    ensures !applyPhysics ==> w.physics == []
    ensures applyPhysics ==> w.physics == ApplyPhysics(w.storage, isAir, c)
    ensures w.announced == broadcast
  {
    var st' := Store(st, c, b);
    StoreReads(st, c, b);
    Written(st', ChunkOf(c), if applyPhysics then ApplyPhysics(st', isAir, c) else [], broadcast)
  }

  /** Whether `a` and `b` are face neighbours: one unit apart along exactly one axis. */
  predicate Adjacent(a: Coord, b: Coord)
  {
    || (b.y == a.y && b.z == a.z && (b.x == a.x - 1 || b.x == a.x + 1))
    || (b.x == a.x && b.z == a.z && (b.y == a.y - 1 || b.y == a.y + 1))
    || (b.x == a.x && b.y == a.y && (b.z == a.z - 1 || b.z == a.z + 1))
  }

  /** The six face neighbours in the order the level visits them: x, then y, then z, lower side first. */
  function Neighbours(c: Coord): (ns: seq<Coord>)
    ensures |ns| == 6
    ensures forall i :: 0 <= i < 6 ==> Adjacent(c, ns[i])
    ensures ns[0].x < c.x && ns[1].x > c.x
    ensures ns[2].y < c.y && ns[3].y > c.y
    ensures ns[4].z < c.z && ns[5].z > c.z
  {
    [Coord(c.x - 1, c.y, c.z), Coord(c.x + 1, c.y, c.z),
     Coord(c.x, c.y - 1, c.z), Coord(c.x, c.y + 1, c.z),
     Coord(c.x, c.y, c.z - 1), Coord(c.x, c.y, c.z + 1)]
  }

  /** The neighbour list is exactly the set of face neighbours, without repeats and without `c` itself. */
  lemma NeighboursExact(c: Coord)
    ensures forall n :: n in Neighbours(c) <==> Adjacent(c, n)
    ensures c !in Neighbours(c)
    ensures forall i, j :: 0 <= i < j < 6 ==> Neighbours(c)[i] != Neighbours(c)[j]
  {
  }

  /** `DoPhysics`: a neighbour whose block is air is skipped, any other has its physics callback run. */
  function DoPhysics(st: Storage, isAir: Block -> bool, n: Coord): (fired: seq<Coord>)
    ensures |fired| <= 1
    ensures forall m :: m in fired <==> m == n && !isAir(GetBlock(st, n))
  {
    if isAir(GetBlock(st, n)) then [] else [n]
  }

  /** The `DoPhysics` calls over `ns`, in order: the positions whose physics callback runs. */
  function PhysicsOver(st: Storage, isAir: Block -> bool, ns: seq<Coord>): (fired: seq<Coord>)
    ensures |fired| <= |ns|
    ensures forall n :: n in fired <==> n in ns && !isAir(GetBlock(st, n))
    ensures IsSubsequence(fired, ns)
    ensures forall n :: multiset(fired)[n] == if isAir(GetBlock(st, n)) then 0 else multiset(ns)[n]
  {
    if |ns| == 0 then []
    else
      var rest := PhysicsOver(st, isAir, ns[1..]);
      SubsequenceCons(rest, ns[0], ns[1..]);
      assert [ns[0]] + ns[1..] == ns;
      var here := DoPhysics(st, isAir, ns[0]);
      FiredCount(st, isAir, ns, rest);
      assert here == [] ==> here + rest == rest;
      assert here != [] ==> (here + rest)[1..] == rest;
      here + rest
  }

  /** One more visit in front adds one firing of its position exactly when its block is not air. */
  lemma FiredCount(st: Storage, isAir: Block -> bool, ns: seq<Coord>, rest: seq<Coord>)
    requires |ns| > 0
    requires forall n :: multiset(rest)[n] == if isAir(GetBlock(st, n)) then 0 else multiset(ns[1..])[n]
    ensures forall n :: multiset(DoPhysics(st, isAir, ns[0]) + rest)[n]
                        == if isAir(GetBlock(st, n)) then 0 else multiset(ns)[n]
  {
    assert ns == [ns[0]] + ns[1..];
    assert multiset(ns) == multiset{ns[0]} + multiset(ns[1..]);
    var here := DoPhysics(st, isAir, ns[0]);
    assert multiset(here + rest) == multiset(here) + multiset(rest);
    assert here == [] || here == [ns[0]];
  }

  /**
   * `ApplyPhysics`: the positions whose block physics callback runs, in call
   * order. What the callbacks themselves do (including recursive propagation)
   * belongs to the block behaviours and is not modelled.
   */
  function ApplyPhysics(st: Storage, isAir: Block -> bool, c: Coord): (fired: seq<Coord>)
    ensures |fired| <= 6
    ensures forall n :: n in fired <==> Adjacent(c, n) && !isAir(GetBlock(st, n))
    ensures c !in fired
    ensures IsSubsequence(fired, Neighbours(c))
  {
    NeighboursExact(c);
    PhysicsOver(st, isAir, Neighbours(c))
  }
}
