/** The per-cell rule of the typed Game of Life.
    A board is a rectangular grid of integer cell values: 0 dead, 1 player,
    2 enemy, 3 shrapnel, 4 base.  Any nonzero value counts as alive, and the
    colouring arithmetic can produce values outside 0..4 (5 and 6), so the
    board holds plain integers rather than a closed enumeration.
    Neighbourhoods are toroidal: the row above row 0 is the last row, and so
    on, exactly as a sum of rolled arrays sees them. */
module LifeRules {

  type Board = seq<seq<int>>

  /** A non-empty rectangular board. */
  predicate IsBoard(g: Board) {
    |g| > 0 && |g[0]| > 0 && forall i :: 0 <= i < |g| ==> |g[i]| == |g[0]|
  }

  predicate InBoard(g: Board, r: int, c: int)
    requires IsBoard(g)
  {
    0 <= r < |g| && 0 <= c < |g[0]|
  }

  /** The cell at (r, c) with both indices wrapped around the board. */
  function At(g: Board, r: int, c: int): int
    requires IsBoard(g)
  {
    g[r % |g|][c % |g[0]|]
  }

  /** The eight neighbour offsets (row, column), in the order the rolled
      arrays are added up: above, below, left, right, and the four corners. */
  const Offsets: seq<(int, int)> :=
    [(-1, 0), (1, 0), (0, -1), (0, 1), (-1, -1), (-1, 1), (1, -1), (1, 1)]

  /** What a rolled indicator array marks: every living cell, or the cells
      holding one particular value. */
  datatype Probe = AnyLive | OfKind(kind: int)

  predicate Hits(p: Probe, v: int) {
    match p
    case AnyLive => v != 0
    case OfKind(k) => v == k
  }

  /** Does the neighbour at offset number k of (r, c) match the probe? */
  predicate HitAt(g: Board, r: int, c: int, p: Probe, k: nat)
    requires IsBoard(g) && k < |Offsets|
  {
    Hits(p, At(g, r + Offsets[k].0, c + Offsets[k].1))
  }

  /** The sum of the rolled indicator arrays at (r, c), offsets k.. only. */
  function CountFrom(g: Board, r: int, c: int, p: Probe, k: nat): (n: nat)
    requires IsBoard(g) && k <= |Offsets|
    ensures n <= |Offsets| - k
    decreases |Offsets| - k
  {
    if k == |Offsets| then 0
    else (if HitAt(g, r, c, p, k) then 1 else 0) + CountFrom(g, r, c, p, k + 1)
  }

  /** Number of the eight wrapped neighbours of (r, c) that match the probe. */
  function Count(g: Board, r: int, c: int, p: Probe): nat
    requires IsBoard(g)
  {
    CountFrom(g, r, c, p, 0)
  }

  /** The indices of the offsets whose neighbour matches the probe: an
      independent description of what the rolled sum counts. */
  function HitOffsets(g: Board, r: int, c: int, p: Probe, k: nat): set<nat>
    requires IsBoard(g)
  {
    set i: nat | k <= i < |Offsets| && HitAt(g, r, c, p, i)
  }

  /** Live-neighbour count, as the sum of eight rolled copies of the 0/1
      liveness array. */
  function Neighbours(g: Board, r: int, c: int): (n: nat)
    requires IsBoard(g)
    ensures n <= 8
  {
    Count(g, r, c, AnyLive)
  }

  /** Has (r, c) at least one neighbour holding value k? */
  predicate HasNeighbour(g: Board, r: int, c: int, k: int)
    requires IsBoard(g)
  {
    Count(g, r, c, OfKind(k)) > 0
  }

  /** B3/S23: is (r, c) alive in the next generation? */
  predicate NextAlive(g: Board, r: int, c: int)
    requires IsBoard(g) && InBoard(g, r, c)
    ensures NextAlive(g, r, c) ==> Neighbours(g, r, c) == 2 || Neighbours(g, r, c) == 3
    ensures Neighbours(g, r, c) == 3 ==> NextAlive(g, r, c)
    ensures Neighbours(g, r, c) == 2 ==> (NextAlive(g, r, c) <==> g[r][c] != 0)
  {
    var n := Neighbours(g, r, c);
    var living := g[r][c] != 0;
    var becomeLiving := n == 3 && !living;
    var stayLiving := living && (n == 3 || n == 2);
    becomeLiving || stayLiving
  }

  function Ind(b: bool): int {
    if b then 1 else 0
  }

  /** How many of the kinds 1..4 occur among the neighbours of (r, c). */
  function KindsAround(g: Board, r: int, c: int): int
    requires IsBoard(g)
  {
    Ind(HasNeighbour(g, r, c, 1)) + Ind(HasNeighbour(g, r, c, 2))
      + Ind(HasNeighbour(g, r, c, 3)) + Ind(HasNeighbour(g, r, c, 4))
  }

  /** The colour field at (r, c): the type masks of kinds 1..4, each
      multiplied by its kind and added up.  Shrapnel (3) wins over the
      other masks; the masks of 1, 2 and 4 are not exclusive of each other. */
  function Colour(g: Board, r: int, c: int): (col: int)
    requires IsBoard(g) && InBoard(g, r, c)
    ensures g[r][c] == 3 || (g[r][c] == 0 && (HasNeighbour(g, r, c, 3) || KindsAround(g, r, c) > 1)) ==> col == 3
    ensures g[r][c] == 0 && KindsAround(g, r, c) == 0 ==> col == 0
    ensures g[r][c] in {1, 2, 4} && KindsAround(g, r, c) != 1 ==> col == g[r][c]
  {
    var v := g[r][c];
    var single := KindsAround(g, r, c) == 1;
    var mult := KindsAround(g, r, c) > 1;
    var t3 := v == 3 || (v == 0 && (HasNeighbour(g, r, c, 3) || mult));
    var t1 := (v == 1 || (HasNeighbour(g, r, c, 1) && single)) && !t3;
    var t2 := (v == 2 || (HasNeighbour(g, r, c, 2) && single)) && !t3;
    var t4 := (v == 4 || (HasNeighbour(g, r, c, 4) && single)) && !t3;
    Ind(t1) * 1 + Ind(t2) * 2 + Ind(t3) * 3 + Ind(t4) * 4
  }

  /** The typed next value of (r, c) before the border is cleared: the
      colour field masked by next-generation liveness. */
  function NextKind(g: Board, r: int, c: int): (k: int)
    requires IsBoard(g) && InBoard(g, r, c)
    ensures 0 <= k <= 6
    ensures k != 0 ==> NextAlive(g, r, c)
  {
    KindsAroundIsCardinality(g, r, c);
    Colour(g, r, c) * Ind(NextAlive(g, r, c))
  }

  /** The untyped next value of (r, c) before the border is cleared. */
  function NextLiving(g: Board, r: int, c: int): int
    requires IsBoard(g) && InBoard(g, r, c)
  {
    Ind(NextAlive(g, r, c))
  }

  /** Is (r, c) within n cells of the edge of an h-by-w board? */
  predicate EdgeBand(h: int, w: int, n: int, r: int, c: int) {
    r < n || r >= h - n || c < n || c >= w - n
  }

  /** The two outermost rows and columns, which every update clears. */
  predicate InBorder(h: int, w: int, r: int, c: int) {
    EdgeBand(h, w, 2, r, c)
  }

  /** A cell of the base-mask exclusive-or: does "was a base when the grid
      was made" differ from "is a base now"? */
  predicate BaseDamaged(wasBase: bool, v: int) {
    wasBase != (v == 4)
  }

  /** The whole next generation of the typed engine: the typed next value
      of every cell, with the two-cell border cleared.  The board keeps its
      dimensions and its border is dead. */
  function TypedStep(g: Board): (n: Board)
    requires IsBoard(g)
    ensures IsBoard(n) && |n| == |g| && |n[0]| == |g[0]|
    ensures forall r, c :: InBoard(g, r, c) && InBorder(|g|, |g[0]|, r, c) ==> n[r][c] == 0
  {
    seq(|g|, r requires 0 <= r < |g| =>
      seq(|g[0]|, c requires 0 <= c < |g[0]| =>
        if InBorder(|g|, |g[0]|, r, c) then 0 else NextKind(g, r, c)))
  }

  /** The whole next generation of the plain engine: 0/1 liveness with the
      two-cell border cleared.  Every value is 0 or 1, and an inner cell is 1
      exactly when it is alive in the next generation. */
  function PlainStep(g: Board): (n: Board)
    requires IsBoard(g)
    ensures IsBoard(n) && |n| == |g| && |n[0]| == |g[0]|
    ensures forall r, c :: InBoard(g, r, c) ==> n[r][c] in {0, 1}
    ensures forall r, c :: InBoard(g, r, c) && !InBorder(|g|, |g[0]|, r, c) ==>
      (n[r][c] == 1 <==> NextAlive(g, r, c))
    ensures forall r, c :: InBoard(g, r, c) && InBorder(|g|, |g[0]|, r, c) ==> n[r][c] == 0
  {
    seq(|g|, r requires 0 <= r < |g| =>
      seq(|g[0]|, c requires 0 <= c < |g[0]| =>
        if InBorder(|g|, |g[0]|, r, c) then 0 else NextLiving(g, r, c)))
  }

  // ---------------------------------------------------------------------
  // Neighbour counting

  /** A set made of a set that lacks k and, optionally, k itself. */
  lemma SizeWithOptional(s: set<nat>, rest: set<nat>, k: nat, hit: bool)
    requires k !in rest
    requires forall i :: i in s <==> (i == k && hit) || i in rest
    ensures |s| == |rest| + (if hit then 1 else 0)
  {
    if hit {
      assert s == rest + {k};
    } else {
      assert s == rest;
    }
  }

  lemma {:induction false} CountFromIsHitCount(g: Board, r: int, c: int, p: Probe, k: nat)
    requires IsBoard(g) && k <= |Offsets|
    ensures CountFrom(g, r, c, p, k) == |HitOffsets(g, r, c, p, k)|
    decreases |Offsets| - k
  {
    if k == |Offsets| {
      assert HitOffsets(g, r, c, p, k) == {};
    } else {
      CountFromIsHitCount(g, r, c, p, k + 1);
      var s, rest := HitOffsets(g, r, c, p, k), HitOffsets(g, r, c, p, k + 1);
      forall i
        ensures i in s <==> (i == k && HitAt(g, r, c, p, k)) || i in rest
      {
      }
      SizeWithOptional(s, rest, k, HitAt(g, r, c, p, k));
    }
  }

  /** The neighbour count is the number of the eight wrapped neighbour
      positions that hold a nonzero value, so it lies in 0..8. */
  lemma NeighboursCountsLiveOffsets(g: Board, r: int, c: int)
    requires IsBoard(g)
    ensures Neighbours(g, r, c) == |HitOffsets(g, r, c, AnyLive, 0)|
    ensures 0 <= Neighbours(g, r, c) <= 8
  {
    CountFromIsHitCount(g, r, c, AnyLive, 0);
  }

  /** A cell has a neighbour of kind k exactly when one of its eight wrapped
      neighbours holds k. */
  lemma HasNeighbourWitness(g: Board, r: int, c: int, k: int)
    requires IsBoard(g)
    ensures HasNeighbour(g, r, c, k) <==>
      exists i :: 0 <= i < |Offsets| && At(g, r + Offsets[i].0, c + Offsets[i].1) == k
  {
    CountFromIsHitCount(g, r, c, OfKind(k), 0);
    var hits := HitOffsets(g, r, c, OfKind(k), 0);
    if HasNeighbour(g, r, c, k) {
      assert hits != {};
      var i :| i in hits;
      assert HitAt(g, r, c, OfKind(k), i);
    }
  }

  // ---------------------------------------------------------------------
  // Liveness

  /** B3/S23 in terms of the number of live neighbour positions: a dead
      cell is born with exactly three, a live cell survives with two or
      three, and every other cell is dead in the next generation. */
  lemma LivenessRule(g: Board, r: int, c: int)
    requires IsBoard(g) && InBoard(g, r, c)
    ensures var n := |HitOffsets(g, r, c, AnyLive, 0)|;
      (g[r][c] == 0 ==> (NextAlive(g, r, c) <==> n == 3)) &&
      (g[r][c] != 0 ==> (NextAlive(g, r, c) <==> n == 2 || n == 3))
  {
    NeighboursCountsLiveOffsets(g, r, c);
  }

  // ---------------------------------------------------------------------
  // Kind resolution

  /** The set holding each of 1..4 whose flag is set. */
  function Flagged(b1: bool, b2: bool, b3: bool, b4: bool): (fs: set<int>)
    ensures fs <= {1, 2, 3, 4}
  {
    (if b1 then {1} else {}) + (if b2 then {2} else {}) + (if b3 then {3} else {}) + (if b4 then {4} else {})
  }

  /** The kinds 1..4 present among the neighbours of (r, c). */
  function NeighbourKinds(g: Board, r: int, c: int): set<int>
    requires IsBoard(g)
  {
    Flagged(HasNeighbour(g, r, c, 1), HasNeighbour(g, r, c, 2), HasNeighbour(g, r, c, 3), HasNeighbour(g, r, c, 4))
  }

  /** The kind a cell holding v receives when it is alive in the next
      generation and its neighbours show the kinds ks, stated case by case:
      - a newborn takes the one kind around it, becomes shrapnel (3) among
        two or more kinds, and gets 0 when no neighbour has a kind 1..4;
      - shrapnel stays shrapnel;
      - a player, enemy or base keeps its kind, except that among one
        single other kind j of 1, 2, 4 the two kinds are added (1+2 = 3,
        1+4 = 5, 2+4 = 6);
      - any other living value turns into the single kind 1, 2 or 4 around
        it, and to 0 otherwise. */
  ghost function ResolveKind(v: int, ks: set<int>): int
    requires ks <= {1, 2, 3, 4}
  {
    if v == 0 then
      if |ks| == 0 then 0
      else if |ks| == 1 then (var k :| k in ks; k)
      else 3
    else if v == 3 then 3
    else if |ks| == 1 then
      var j :| j in ks;
      if v in {1, 2, 4} then (if j in {1, 2, 4} && j != v then v + j else v)
      else if j in {1, 2, 4} then j else 0
    else if v in {1, 2, 4} then v
    else 0
  }

  lemma CardinalityOfFlags(b1: bool, b2: bool, b3: bool, b4: bool)
    ensures |Flagged(b1, b2, b3, b4)| == Ind(b1) + Ind(b2) + Ind(b3) + Ind(b4)
  {
    var s1: set<int> := if b1 then {1} else {};
    var s2: set<int> := if b2 then {2} else {};
    var s3: set<int> := if b3 then {3} else {};
    var s4: set<int> := if b4 then {4} else {};
    assert s1 !! s2;
    assert s1 + s2 !! s3;
    assert s1 + s2 + s3 !! s4;
  }

  lemma KindsAroundIsCardinality(g: Board, r: int, c: int)
    requires IsBoard(g)
    ensures KindsAround(g, r, c) == |NeighbourKinds(g, r, c)|
  {
    CardinalityOfFlags(HasNeighbour(g, r, c, 1), HasNeighbour(g, r, c, 2),
      HasNeighbour(g, r, c, 3), HasNeighbour(g, r, c, 4));
  }

  /** When exactly one flag is set, the one member of the flagged set names it. */
  lemma SingleFlag(b1: bool, b2: bool, b3: bool, b4: bool, j: int)
    requires |Flagged(b1, b2, b3, b4)| == 1 && j in Flagged(b1, b2, b3, b4)
    ensures (b1 <==> j == 1) && (b2 <==> j == 2) && (b3 <==> j == 3) && (b4 <==> j == 4)
  {
    var ks := Flagged(b1, b2, b3, b4);
    var rest := ks - {j};
    assert |rest| == 0;
    assert rest == {};
  }

  /** The mask arithmetic of the colour field agrees, for every cell that is
      alive in the next generation, with the case-by-case rule ResolveKind;
      a cell that is not alive next is 0. */
  lemma NextKindResolves(g: Board, r: int, c: int)
    requires IsBoard(g) && InBoard(g, r, c)
    ensures NextKind(g, r, c) ==
      if NextAlive(g, r, c) then ResolveKind(g[r][c], NeighbourKinds(g, r, c)) else 0
  {
    KindsAroundIsCardinality(g, r, c);
    var ks := NeighbourKinds(g, r, c);
    if |ks| == 1 {
      var j :| j in ks;
      SingleFlag(HasNeighbour(g, r, c, 1), HasNeighbour(g, r, c, 2), HasNeighbour(g, r, c, 3),
        HasNeighbour(g, r, c, 4), j);
    }
  }

  /** The value one cell takes in a typed generation. */
  lemma TypedStepAt(g: Board, r: int, c: int)
    requires IsBoard(g) && InBoard(g, r, c)
    ensures TypedStep(g)[r][c] == if InBorder(|g|, |g[0]|, r, c) then 0 else NextKind(g, r, c)
  {
  }

  /** One cell of a typed generation: see TypedStepCells. */
  lemma TypedStepCell(g: Board, r: int, c: int)
    requires IsBoard(g) && InBoard(g, r, c)
    ensures !InBorder(|g|, |g[0]|, r, c) ==>
      TypedStep(g)[r][c] == if NextAlive(g, r, c) then ResolveKind(g[r][c], NeighbourKinds(g, r, c)) else 0
    ensures 0 <= TypedStep(g)[r][c] <= 6
    ensures TypedStep(g)[r][c] != 0 ==> PlainStep(g)[r][c] == 1
  {
    TypedStepAt(g, r, c);
    NextKindResolves(g, r, c);
  }

  /** One typed generation, cell by cell: an inner cell holds the kind
      ResolveKind gives it when it is alive next and 0 otherwise; every
      value lies in 0..6; and a cell holding a kind is a cell the plain
      engine makes alive, so the typed engine only colours plain liveness. */
  lemma TypedStepCells(g: Board)
    requires IsBoard(g)
    ensures forall r, c :: InBoard(g, r, c) && !InBorder(|g|, |g[0]|, r, c) ==>
      TypedStep(g)[r][c] == if NextAlive(g, r, c) then ResolveKind(g[r][c], NeighbourKinds(g, r, c)) else 0
    ensures forall r, c :: InBoard(g, r, c) ==> 0 <= TypedStep(g)[r][c] <= 6
    ensures forall r, c :: InBoard(g, r, c) && TypedStep(g)[r][c] != 0 ==> PlainStep(g)[r][c] == 1
  {
    forall r, c | InBoard(g, r, c) {
      TypedStepCell(g, r, c);
    }
  }
}
