/** The Game-of-Life engine objects.  A grid owns a 2-D integer array; an
    update computes the whole next generation into a fresh array from the
    current one (every mask is taken from the old array before it is
    replaced), installs it, and then clears the two outermost rows and
    columns in place. */
module LifeGrid {
  import opened LifeRules

  /** The contents of a 2-D array as a board value. */
  function Snapshot(a: array2<int>): (g: Board)
    reads a
    ensures |g| == a.Length0
    ensures forall i :: 0 <= i < |g| ==> |g[i]| == a.Length1
    ensures forall i, j :: 0 <= i < a.Length0 && 0 <= j < a.Length1 ==> g[i][j] == a[i, j]
  {
    seq(a.Length0, i requires 0 <= i < a.Length0 reads a =>
      seq(a.Length1, j requires 0 <= j < a.Length1 reads a => a[i, j]))
  }

  lemma SnapshotIsBoard(a: array2<int>)
    requires a.Length0 > 0 && a.Length1 > 0
    ensures IsBoard(Snapshot(a))
  {
  }

  /** An array equals a board when they agree cell by cell. */
  lemma SnapshotEquals(a: array2<int>, g: Board)
    requires |g| == a.Length0 && forall i :: 0 <= i < |g| ==> |g[i]| == a.Length1
    requires forall i, j :: 0 <= i < a.Length0 && 0 <= j < a.Length1 ==> a[i, j] == g[i][j]
    ensures Snapshot(a) == g
  {
    var s := Snapshot(a);
    forall i | 0 <= i < |g|
      ensures s[i] == g[i]
    {
    }
  }

  /** The cells of g that hold a base (kind 4). */
  function BaseMask(g: Board): (m: seq<seq<bool>>)
    ensures |m| == |g| && forall i :: 0 <= i < |g| ==> |m[i]| == |g[i]|
    ensures forall i, j :: 0 <= i < |g| && 0 <= j < |g[i]| ==> (m[i][j] <==> g[i][j] == 4)
  {
    seq(|g|, i requires 0 <= i < |g| => seq(|g[i]|, j requires 0 <= j < |g[i]| => g[i][j] == 4))
  }

  /** A fresh h-by-w array whose cell (i, j) is f(i, j): one element-wise
      array expression, evaluated cell by cell. */
  method Tabulate<T(0)>(h: nat, w: nat, f: (nat, nat) --> T) returns (a: array2<T>)
    requires forall i: nat, j: nat :: i < h && j < w ==> f.requires(i, j)
    ensures fresh(a) && a.Length0 == h && a.Length1 == w
    ensures forall i: nat, j: nat :: i < h && j < w ==> a[i, j] == f(i, j)
  {
    a := new T[h, w];
    for r := 0 to h
      invariant forall i: nat, j: nat :: i < r && j < w ==> a[i, j] == f(i, j)
    {
      for c := 0 to w
        invariant forall i: nat, j: nat :: i < r && j < w ==> a[i, j] == f(i, j)
        invariant forall j: nat :: j < c ==> a[r, j] == f(r, j)
      {
        a[r, c] := f(r, c);
      }
    }
  }

  /** Zeroes rows 0, 1, h-2, h-1 and columns 0, 1, w-2, w-1, one band at a
      time, and leaves every other cell as it was. */
  method ClearEdges(a: array2<int>)
    requires a.Length0 >= 2 && a.Length1 >= 2
    modifies a
    ensures forall i, j :: 0 <= i < a.Length0 && 0 <= j < a.Length1 ==>
      a[i, j] == if InBorder(a.Length0, a.Length1, i, j) then 0 else old(a[i, j])
  {
    var h, w := a.Length0, a.Length1;
    for n := 0 to 2
      invariant forall i, j :: 0 <= i < h && 0 <= j < w ==>
        a[i, j] == if EdgeBand(h, w, n, i, j) then 0 else old(a[i, j])
    {
      for j := 0 to w
        invariant forall i, k :: 0 <= i < h && 0 <= k < w ==>
          a[i, k] == if EdgeBand(h, w, n, i, k) || ((i == n || i == h - 1 - n) && k < j) then 0
                     else old(a[i, k])
      {
        a[n, j] := 0;
        a[h - 1 - n, j] := 0;
      }
      for i := 0 to h
        invariant forall m, k :: 0 <= m < h && 0 <= k < w ==>
          a[m, k] == if EdgeBand(h, w, n, m, k) || m == n || m == h - 1 - n
                        || ((k == n || k == w - 1 - n) && m < i) then 0
                     else old(a[m, k])
      {
        a[i, n] := 0;
        a[i, w - 1 - n] := 0;
      }
    }
  }

  /** The plain engine: a cell is 1 when alive in the next generation and 0
      otherwise. */
  class Grid {
    var cells: array2<int>

    constructor (a: array2<int>)
      ensures cells == a
    {
      cells := a;
    }

    /** One generation of B3/S23: the new array holds the 0/1 liveness of
        the next generation, with the border cleared. */
    method Update()
      requires cells.Length0 >= 2 && cells.Length1 >= 2
      modifies this
      ensures fresh(cells)
      ensures cells.Length0 == old(cells.Length0) && cells.Length1 == old(cells.Length1)
      ensures IsBoard(old(Snapshot(cells))) && Snapshot(cells) == PlainStep(old(Snapshot(cells)))
    {
      var g := Snapshot(cells);
      SnapshotIsBoard(cells);
      var next := Tabulate(|g|, |g[0]|, (i: nat, j: nat) requires i < |g| && j < |g[0]| => NextLiving(g, i, j));
      cells := next;
      ClearEdges(cells);
      SnapshotEquals(cells, PlainStep(g));
    }
  }

  /** The typed engine.  The base mask is frozen at construction; every
      update recomputes the per-cell damage mask against it. */
  class ColouredGrid {
    var cells: array2<int>
    const bases: seq<seq<bool>>
    /** Has no entries until the first update. */
    var damagedBase: array2<bool>

    ghost predicate Valid()
      reads this
    {
      |bases| == cells.Length0 &&
      forall i :: 0 <= i < |bases| ==> |bases[i]| == cells.Length1
    }

    constructor (a: array2<int>)
      ensures Valid()
      ensures cells == a && fresh(damagedBase)
      ensures damagedBase.Length0 == 0 && damagedBase.Length1 == 0
      ensures forall i, j :: 0 <= i < a.Length0 && 0 <= j < a.Length1 ==>
        (bases[i][j] <==> a[i, j] == 4)
    {
      cells := a;
      bases := BaseMask(Snapshot(a));
      damagedBase := new bool[0, 0];
    }

    /** One generation of the typed rule: the new array holds the typed next
        value of each cell, with the border cleared; the damage mask compares
        the frozen base mask with the values computed before the border is
        cleared. */
    method Update()
      requires Valid() && cells.Length0 >= 2 && cells.Length1 >= 2
      modifies this
      ensures Valid() && fresh(cells) && fresh(damagedBase)
      ensures cells.Length0 == old(cells.Length0) && cells.Length1 == old(cells.Length1)
      ensures damagedBase.Length0 == cells.Length0 && damagedBase.Length1 == cells.Length1
      ensures IsBoard(old(Snapshot(cells))) && Snapshot(cells) == TypedStep(old(Snapshot(cells)))
      ensures forall r, c :: 0 <= r < cells.Length0 && 0 <= c < cells.Length1 ==>
        damagedBase[r, c] == BaseDamaged(bases[r][c], NextKind(old(Snapshot(cells)), r, c))
      ensures forall r, c ::
        0 <= r < cells.Length0 && 0 <= c < cells.Length1 && !InBorder(cells.Length0, cells.Length1, r, c) ==>
        damagedBase[r, c] == BaseDamaged(bases[r][c], cells[r, c])
    {
      var g := Snapshot(cells);
      SnapshotIsBoard(cells);
      var next := Tabulate(|g|, |g[0]|, (i: nat, j: nat) requires i < |g| && j < |g[0]| => NextKind(g, i, j));
      var damage := Tabulate(|g|, |g[0]|,
        (i: nat, j: nat) requires i < |g| && j < |g[0]| => BaseDamaged(bases[i][j], NextKind(g, i, j)));
      cells := next;
      damagedBase := damage;
      ClearEdges(cells);
      SnapshotEquals(cells, TypedStep(g));
    }
  }
}
