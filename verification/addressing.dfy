/**
 * Integer block coordinates and their split into a chunk column and an
 * in-column position: the horizontal axes are shifted right by 4 to name the
 * 16 x 16 column, and reduced with a positive modulo 16 for the offset inside it.
 */
module Addressing {
  import opened CSharpInt

  /** A block position in the world. */
  datatype Coord = Coord(x: int, y: int, z: int)

  /** The horizontal position of a chunk column. */
  datatype ChunkCoord = ChunkCoord(x: int, z: int)

  /** A block position inside one chunk column. */
  datatype Local = Local(x: int, y: int, z: int)

  /** The level's positive modulo: `((v % 16) + 16) % 16` with C#'s truncating `%`. */
  function Mod(v: int): (r: int)
    ensures 0 <= r < 16
  {
    TruncRem(TruncRem(v, 16) + 16, 16)
  }

  /** `Mod(v)` differs from `v` by a whole number of chunk widths. */
  lemma ModCongruent(v: int) returns (k: int)
    ensures v == k * 16 + Mod(v)
  {
    var t := TruncRem(v, 16);
    var q1 := TruncDiv(v, 16);
    var q2 := TruncDiv(t + 16, 16);
    assert t == v - q1 * 16;
    assert Mod(v) == t + 16 - q2 * 16;
    k := q1 + q2 - 1;
  }

  /** The arithmetic shift and the positive modulo split every integer exactly. */
  lemma ShiftModSplit(v: int)
    ensures ShiftRight4(v) * 16 + Mod(v) == v
  {
  }

  /** The column that holds the block at `c`. */
  function ChunkOf(c: Coord): (cc: ChunkCoord)
    ensures cc.x * 16 <= c.x < cc.x * 16 + 16
    ensures cc.z * 16 <= c.z < cc.z * 16 + 16
  {
    ChunkCoord(ShiftRight4(c.x), ShiftRight4(c.z))
  }

  /** Where the block at `c` sits inside its column. */
  function LocalOf(c: Coord): (l: Local)
    ensures 0 <= l.x < 16 && 0 <= l.z < 16
    ensures l.y == c.y
  {
    Local(Mod(c.x), c.y, Mod(c.z))
  }

  /** Whether `l` is a position inside a column. */
  predicate InColumn(l: Local)
  {
    0 <= l.x < 16 && 0 <= l.z < 16
  }

  /** The world position of the in-column position `l` of column `cc`. */
  function WorldOf(cc: ChunkCoord, l: Local): Coord
  {
    Coord(cc.x * 16 + l.x, l.y, cc.z * 16 + l.z)
  }

  /** Splitting a position and putting it back together gives the position. */
  lemma SplitRoundTrip(c: Coord)
    ensures WorldOf(ChunkOf(c), LocalOf(c)) == c
  {
  }

  /** Joining a column and an in-column position and splitting again gives them back. */
  lemma {:induction false} JoinRoundTrip(cc: ChunkCoord, l: Local)
    requires InColumn(l)
    ensures ChunkOf(WorldOf(cc, l)) == cc
    ensures LocalOf(WorldOf(cc, l)) == l
  {
    var c := WorldOf(cc, l);
    SplitRoundTrip(c);
    var d := ChunkOf(c);
  }

  /** The only column cell whose world position is `c` is the one `c` splits into. */
  lemma {:induction false} SplitUnique(c: Coord)
    ensures forall cc, l :: InColumn(l) && WorldOf(cc, l) == c ==> cc == ChunkOf(c) && l == LocalOf(c)
  {
    forall cc, l | InColumn(l) && WorldOf(cc, l) == c
      ensures cc == ChunkOf(c) && l == LocalOf(c)
    {
      JoinRoundTrip(cc, l);
    }
  }

  /** Distinct positions never share a column cell. */
  lemma {:induction false} SplitInjective(a: Coord, b: Coord)
    ensures ChunkOf(a) == ChunkOf(b) && LocalOf(a) == LocalOf(b) <==> a == b
  {
    SplitRoundTrip(a);
    SplitRoundTrip(b);
  }
}
