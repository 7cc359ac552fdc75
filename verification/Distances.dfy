/** The distance buffer of the matcher: a flat, column-major block of integers that stands
    for the given costs with row and column potentials taken off. */
module Distances {
  import opened Assignment
  import opened Hungarian

  /** Column-major place of entry `(r, c)`. */
  function Ix(n: int, r: int, c: int): int { r + n * c }

  lemma MulAtLeast(n: int, k: int)
    requires n > 0 && k > 0
    ensures n * k >= n
  {}

  lemma IxBounds(n: int, m: int, r: int, c: int)
    requires 0 <= r < n && 0 <= c < m
    ensures 0 <= Ix(n, r, c) < n * m
  {
    assert n * m == n * c + n * (m - c);
    MulAtLeast(n, m - c);
    if c > 0 { MulAtLeast(n, c); }
  }

  lemma IxInjective(n: int, r: int, c: int, q: int, e: int)
    requires 0 <= r < n && 0 <= q < n && Ix(n, r, c) == Ix(n, q, e)
    ensures r == q && c == e
  {
    assert n * (e - c) == n * e - n * c;
    assert n * (c - e) == n * c - n * e;
    if c < e { MulAtLeast(n, e - c); }
    if e < c { MulAtLeast(n, c - e); }
  }

  /** The number of entries. */
  function Area(n: nat, m: nat): nat { n * m }

  /** The matrix a flat buffer holds. */
  ghost function Unflatten(a: seq<int>, n: nat, m: nat): (cost: Matrix)
    ensures IsMatrix(cost, n, m)
  {
    seq(n, r => seq(m, c => var i := Ix(n, r, c); if 0 <= i < |a| then a[i] else 0))
  }

  lemma UnflattenAt(a: seq<int>, n: nat, m: nat, r: int, c: int)
    requires Area(n, m) <= |a| && 0 <= r < n && 0 <= c < m
    ensures 0 <= r + n * c < n * m && Area(n, m) == n * m && Ix(n, r, c) == r + n * c
    ensures Unflatten(a, n, m)[r][c] == a[r + n * c]
  {
    IxBounds(n, m, r, c);
  }

  /** A sequence after some writes, each of a value at an index. */
  function Replay(s: seq<int>, log: seq<(int, int)>): (r: seq<int>)
    ensures |r| == |s|
  {
    if log == [] then s
    else
      var w, r := log[|log| - 1], Replay(s, log[..|log| - 1]);
      if 0 <= w.0 < |r| then r[w.0 := w.1] else r
  }

  lemma ReplayOne(s: seq<int>, log: seq<(int, int)>, i: int, x: int)
    requires 0 <= i < |s|
    ensures Replay(s, log + [(i, x)]) == Replay(s, log)[i := x]
  {
    assert (log + [(i, x)])[..|log|] == log;
  }

  /** Every value written lies in `0 .. top`. */
  predicate Within(log: seq<(int, int)>, top: int) { forall k :: 0 <= k < |log| ==> 0 <= log[k].1 <= top }

  class Buffer {
    const nrows: int
    const ncols: int
    const cells: array<int>
    ghost const size: int
    ghost const p: Problem
    ghost const rest: seq<int>  // what lies beyond the matrix
    ghost const start: seq<int>
    ghost var log: seq<(int, int)>  // every write since then
    ghost var d: Potentials

    ghost predicate Logged()
      reads this`log, cells
    {
      cells[..] == Replay(start, log) && Within(log, 2 * p.span)
    }

    ghost predicate Valid()
      reads this, cells
    {
      && Sized(p, d) && p.rows == nrows && p.cols == ncols
      && 0 <= size <= cells.Length && cells[size..] == rest && Logged()
      && (forall r, c {:trigger Ix(nrows, r, c)} :: 0 <= r < nrows && 0 <= c < ncols ==>
            0 <= Ix(nrows, r, c) < size && cells[Ix(nrows, r, c)] == Entry(p, d, r, c))
    }

    /** The entries lie before `size`. */
    ghost predicate Inside() {
      && 0 <= size <= cells.Length
      && forall r, c {:trigger Ix(nrows, r, c)} :: 0 <= r < nrows && 0 <= c < ncols ==> 0 <= Ix(nrows, r, c) < size
    }

    constructor (cells: array<int>, nrows: nat, ncols: nat, ghost lo: int, ghost span: int)
      requires Area(nrows, ncols) <= cells.Length
      requires forall i :: 0 <= i < Area(nrows, ncols) ==> lo <= cells[i] <= lo + span
      ensures Valid() && this.cells == cells && this.nrows == nrows && this.ncols == ncols
      ensures p == Problem(nrows, ncols, Unflatten(cells[..], nrows, ncols), lo, span)
      ensures size == Area(nrows, ncols) && rest == cells[size..]
      ensures d == Zero(nrows, ncols) && start == cells[..]
    {
      this.cells, this.nrows, this.ncols := cells, nrows, ncols;
      p := Problem(nrows, ncols, Unflatten(cells[..], nrows, ncols), lo, span);
      size, rest := Area(nrows, ncols), cells[Area(nrows, ncols)..];
      d, start, log := Zero(nrows, ncols), cells[..], [];
      new;
      forall r, c | 0 <= r < nrows && 0 <= c < ncols
        ensures 0 <= Ix(nrows, r, c) < size && p.cost[r][c] == cells[Ix(nrows, r, c)]
        ensures lo <= p.cost[r][c] <= lo + span
      {
        UnflattenAt(cells[..], nrows, ncols, r, c);
      }
    }

    method Get(r: int, c: int) returns (x: int)
      requires Valid() && 0 <= r < nrows && 0 <= c < ncols
      ensures x == Entry(p, d, r, c)
    {
      assert 0 <= Ix(nrows, r, c) < size;
      x := cells[Ix(nrows, r, c)];
    }

    /** The only write to the buffer: every value stored lies in `0 .. 2 * span`. */
    method Store(i: int, x: int)
      requires Logged() && 0 <= i < cells.Length && 0 <= x <= 2 * p.span
      modifies cells, this`log
      ensures Logged() && log == old(log) + [(i, x)]
      ensures cells[..] == old(cells[..])[i := x]
    {
      hide Replay;
      assert |start| == cells.Length;
      ReplayOne(start, log, i, x);
      cells[i] := x;
      log := log + [(i, x)];
    }

    /** Add to one entry. */
    method Bump(row: int, col: int, h: int)
      requires Inside() && Logged() && 0 <= row < nrows && 0 <= col < ncols
      requires 0 <= cells[Ix(nrows, row, col)] + h <= 2 * p.span
      modifies cells, this`log
      ensures Logged() && cells[size..] == old(cells[size..])
      ensures forall r, c {:trigger Ix(nrows, r, c)} :: 0 <= r < nrows && 0 <= c < ncols ==>
                cells[Ix(nrows, r, c)] == old(cells[Ix(nrows, r, c)]) + if r == row && c == col then h else 0
    {
      hide Buffer.Logged; hide Ix;
      ghost var was := cells[..];
      var at := Ix(nrows, row, col);
      Store(at, cells[at] + h);
      assert cells[size..] == cells[..][size..] == was[size..];
      forall r, c | 0 <= r < nrows && 0 <= c < ncols
        ensures cells[Ix(nrows, r, c)] == was[Ix(nrows, r, c)] + if r == row && c == col then h else 0
      {
        assert cells[..][Ix(nrows, r, c)] == cells[Ix(nrows, r, c)];
        if Ix(nrows, r, c) == at { IxInjective(nrows, r, c, row, col); }
      }
    }

    method AddToRow(row: int, h: int)
      requires Valid() && 0 <= row < nrows
      requires forall c :: 0 <= c < ncols ==> 0 <= Entry(p, d, row, c) + h <= 2 * p.span
      modifies cells, this`d, this`log
      ensures Valid()
      ensures d == old(d).(u := old(d).u[row := old(d).u[row] - h])
    {
      hide Buffer.Logged; hide Ix;
      var col := 0;
      while col < ncols
        invariant 0 <= col <= ncols && d == old(d) && Inside()
        invariant cells[size..] == rest && Logged()
        invariant forall r, c {:trigger Ix(nrows, r, c)} :: 0 <= r < nrows && 0 <= c < ncols ==>
          cells[Ix(nrows, r, c)] == Entry(p, d, r, c) + if r == row && c < col then h else 0
      {
        assert 0 <= Ix(nrows, row, col) < size;
        Bump(row, col, h);
        col := col + 1;
      }
      d := d.(u := d.u[row := d.u[row] - h]);
    }

    method SubtractFromColumn(col: int, h: int)
      requires Valid() && 0 <= col < ncols
      requires forall r :: 0 <= r < nrows ==> 0 <= Entry(p, d, r, col) - h <= 2 * p.span
      modifies cells, this`d, this`log
      ensures Valid()
      ensures d == old(d).(v := old(d).v[col := old(d).v[col] + h])
    {
      hide Buffer.Logged; hide Ix;
      var row := 0;
      while row < nrows
        invariant 0 <= row <= nrows && d == old(d) && Inside()
        invariant cells[size..] == rest && Logged()
        invariant forall r, c {:trigger Ix(nrows, r, c)} :: 0 <= r < nrows && 0 <= c < ncols ==>
          cells[Ix(nrows, r, c)] == Entry(p, d, r, c) - if c == col && r < row then h else 0
      {
        assert 0 <= Ix(nrows, row, col) < size;
        Bump(row, col, -h);
        row := row + 1;
      }
      d := d.(v := d.v[col := d.v[col] + h]);
    }

    /** The constant added to every column no star has reached is only tracked, not stored. */
    ghost method RaiseTop(h: int)
      requires Valid()
      modifies this`d
      ensures Valid() && d == old(d).(top := old(d).top + h)
    {
      d := d.(top := d.top + h);
    }
  }
}
