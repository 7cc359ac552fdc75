/** The matcher of `match.c`: the steps of the Hungarian method as mutually calling methods
    over the distance buffer and the bit masks, proved to return an optimal assignment. */
module Matcher {
  import opened Assignment
  import opened BitMask
  import opened Hungarian
  import opened Distances

  class Solver {
    const nrows: int
    const ncols: int
    const dmin: int
    const ix: array<int>
    const dist: Buffer
    const ccol: Mask
    const crow: Mask
    const mstar: MaskMatrix
    const mprime: MaskMatrix
    const nmstar: MaskMatrix

    ghost const p: Problem
    ghost const rest: seq<int>  // what lies beyond the vector
    ghost var rank: map<int, int>

    ghost function Parts(): set<object> {
      {ix, dist, dist.cells, ccol, crow, mstar, mprime, nmstar}
    }

    ghost predicate RestKept()
      reads ix
    {
      0 <= nrows <= ix.Length && ix[nrows..] == rest
    }

    ghost predicate Wired()
      reads this, Parts()
    {
      && dist.Valid() && dist.p == p && dist.nrows == nrows && dist.ncols == ncols
      && Sized(p, dist.d) && p.rows == nrows && p.cols == ncols && dmin == p.Size()
      && 0 <= nrows <= DIM_FINGER && 0 <= ncols <= DIM_FINGER
      && ix != dist.cells && ccol != crow && mstar != mprime && mstar != nmstar && mprime != nmstar
      && ccol.Valid() && crow.Valid() && mstar.Valid() && mprime.Valid() && nmstar.Valid()
      && RestKept()
    }

    ghost predicate Blank()
      reads this, ix
    {
      nrows <= ix.Length && forall r :: 0 <= r < nrows ==> ix[r] == -1
    }

    ghost function K(): Cover
      reads this, mprime, ccol, crow
    {
      Cover(mprime.M, ccol.S, crow.S, rank)
    }

    /** The state between steps. */
    ghost predicate Ready()
      reads this, Parts()
    {
      Wired() && Blank() && DualInv(p, dist.d, mstar.M) && CoverInv(p, dist.d, mstar.M, K())
    }

    ghost predicate Done()
      reads this, Parts()
    {
      Wired() && IsOptimal(p.cost, ix[..nrows], nrows, ncols)
    }

    constructor (ix: array<int>, mdist: array<int>, nrows: nat, ncols: nat, ghost lo: int, ghost span: int)
      requires nrows <= DIM_FINGER && ncols <= DIM_FINGER
      requires nrows <= ix.Length && Area(nrows, ncols) <= mdist.Length && ix != mdist
      requires forall i :: 0 <= i < Area(nrows, ncols) ==> lo <= mdist[i] <= lo + span
      ensures Wired() && fresh(Parts() - {ix, mdist})
      ensures this.ix == ix && dist.cells == mdist && this.nrows == nrows && this.ncols == ncols
      ensures p == Problem(nrows, ncols, Unflatten(mdist[..], nrows, ncols), lo, span)
      ensures rest == ix[nrows..] && dist.rest == mdist[Area(nrows, ncols)..] && dist.size == Area(nrows, ncols)
      ensures dist.start == mdist[..]
      ensures dist.d == Zero(nrows, ncols)
      ensures ccol.S == crow.S == {} && mstar.M == mprime.M == map[] && rank == map[]
    {
      hide Mask.Valid; hide MaskMatrix.Valid; hide Buffer.Valid; hide Entry; hide Unflatten; hide Ix; hide Area;
      this.ix, this.nrows, this.ncols := ix, nrows, ncols;
      dmin := Min(nrows, ncols);
      dist := new Buffer(mdist, nrows, ncols, lo, span);
      ccol := new Mask();
      crow := new Mask();
      mstar := new MaskMatrix();
      mprime := new MaskMatrix();
      nmstar := new MaskMatrix();
      p := Problem(nrows, ncols, Unflatten(mdist[..], nrows, ncols), lo, span);
      rest := ix[nrows..];
      rank := map[];
    }

    // ----- searches in a mask matrix

    method FindInRow(m: MaskMatrix, row: int) returns (col: int)
      requires m.Valid() && 0 <= row < nrows <= 32 && 0 <= ncols <= 32
      requires row in m.M ==> m.M[row] < ncols
      ensures if row in m.M then col == m.M[row] else col == ncols
    {
      col := 0;
      while col < ncols
        invariant 0 <= col <= ncols
        invariant row in m.M ==> m.M[row] >= col
      {
        var b := m.Get(row, col);
        if b { break; }
        col := col + 1;
      }
    }

    method FindInColumn(m: MaskMatrix, col: int) returns (row: int)
      requires m.Valid() && 0 <= nrows <= 32 && 0 <= col < 32
      requires forall r :: r in m.M ==> 0 <= r < nrows
      ensures 0 <= row <= nrows
      ensures if row == nrows then !Starred(m.M, col) else row in m.M && m.M[row] == col
    {
      row := 0;
      while row < nrows
        invariant 0 <= row <= nrows
        invariant forall r :: r in m.M && m.M[r] == col ==> r >= row
      {
        var b := m.Get(row, col);
        if b { break; }
        row := row + 1;
      }
    }

    // ----- the steps

    method BuildIxVector()
      requires Ready() && |mstar.M| == dmin
      modifies ix
      ensures Done()
    {
      hide Mask.Valid; hide MaskMatrix.Valid; hide Buffer.Valid; hide Tight; hide Extremal; hide Windowed;
      hide CoverInv; hide IsOptimal; hide Entry;
      var row := 0;
      while row < nrows
        invariant 0 <= row <= nrows && Wired()
        invariant forall r :: 0 <= r < row ==> ix[r] == if r in mstar.M then mstar.M[r] else -1
        invariant forall r :: row <= r < nrows ==> ix[r] == -1
      {
        var col := FindInRow(mstar, row);
        if col < ncols {
          ix[row] := col;
        }
        row := row + 1;
      }
      FullStarsOptimal(p, dist.d, mstar.M, ix[..nrows]);
    }

    method Step2a()
      requires Wired() && Blank() && DualInv(p, dist.d, mstar.M)
      requires mprime.M == map[] && crow.S == {} && rank == map[]
      requires forall c :: c in ccol.S ==> Starred(mstar.M, c)
      modifies this, Parts()
      ensures Done()
      decreases dmin - |mstar.M|, nrows + 1, 1
    {
      hide Mask.Valid; hide MaskMatrix.Valid; hide Buffer.Valid; hide RestKept; hide Tight; hide Extremal;
      hide Windowed; hide CoverInv; hide IsOptimal; hide Entry;
      StarsWithin(p, mstar.M);
      CoverStarredColumns();
      FreshCover(p, dist.d, mstar.M, ccol.S);
      Step2b();
    }

    method CoverStarredColumns()
      requires Wired() && Matching(p, mstar.M)
      requires forall c :: c in ccol.S ==> Starred(mstar.M, c)
      modifies ccol
      ensures Wired() && ccol.S == Columns(mstar.M)
    {
      hide Mask.Valid; hide MaskMatrix.Valid; hide Buffer.Valid; hide RestKept; hide Entry;
      var col := 0;
      while col < ncols
        invariant 0 <= col <= ncols && Wired()
        invariant forall c :: c in ccol.S ==> Starred(mstar.M, c)
        invariant forall c :: 0 <= c < col && Starred(mstar.M, c) ==> c in ccol.S
      {
        var row := FindInColumn(mstar, col);
        if row < nrows {
          ccol.Set(col);
        }
        col := col + 1;
      }
      SameColumns(mstar.M, ccol.S);
    }

    method Step2b()
      requires Ready() && crow.S == {}
      modifies this, Parts()
      ensures Done()
      decreases dmin - |mstar.M|, nrows + 1, 0
    {
      hide Mask.Valid; hide MaskMatrix.Valid; hide Buffer.Valid; hide RestKept; hide DualInv; hide CoverInv;
      hide IsOptimal; hide Entry;
      CoverIsColumns(p, dist.d, mstar.M, K());
      var ncc := CountCovered();
      if ncc == dmin {
        BuildIxVector();
      } else {
        Step3();
      }
    }

    method CountCovered() returns (ncc: int)
      requires Wired() && forall c :: c in ccol.S ==> 0 <= c < ncols
      ensures ncc == |ccol.S|
    {
      hide Mask.Valid; hide MaskMatrix.Valid; hide Buffer.Valid; hide RestKept; hide Entry;
      var col := 0;
      ncc := 0;
      while col < ncols
        invariant 0 <= col <= ncols
        invariant ncc == |set c | c in ccol.S && c < col|
      {
        ghost var before := set c | c in ccol.S && c < col;
        var b := ccol.Get(col);
        assert (set c | c in ccol.S && c < col + 1) == if b then before + {col} else before;
        if b { ncc := ncc + 1; }
        col := col + 1;
      }
      assert (set c | c in ccol.S && c < ncols) == ccol.S;
    }

    /** Prime an uncovered zero. Without a star in its row the search is over; otherwise the
        row is covered in place of the star's column. */
    method PrimeZero(row: int, col: int) returns (augment: bool)
      requires Ready() && Uncovered(p, K(), row, col) && Entry(p, dist.d, row, col) == 0
      modifies this`rank, mprime, crow, ccol
      ensures Wired() && (augment <==> row !in mstar.M)
      ensures augment ==> row !in old(mprime.M) && mprime.M == old(mprime.M)[row := col]
      ensures augment ==> crow.S == old(crow.S) && ccol.S == old(ccol.S) && rank == old(rank)
      ensures !augment ==> Ready() && |crow.S| == |old(crow.S)| + 1
    {
      hide Mask.Valid; hide MaskMatrix.Valid; hide Buffer.Valid; hide RestKept; hide DualInv; hide CoverInv; hide Entry;
      hide Sized;
      ghost var k := K();
      PrimeFacts(p, dist.d, mstar.M, k, row);
      mprime.Set(row, col);
      var cstar := FindInRow(mstar, row);
      augment := cstar == ncols;
      if !augment {
        SwapLines(row, cstar, k);
        PrimeKeeps(p, dist.d, mstar.M, k, row, col);
        assert K() == Primed(k, row, col, cstar);
      }
    }

    /** Cover the row in place of the column of its star. */
    method SwapLines(row: int, cstar: int, ghost k: Cover)
      requires crow.Valid() && ccol.Valid() && crow != ccol && 0 <= row < 32 && 0 <= cstar < 32
      requires crow.S == k.rows && ccol.S == k.cols && rank == k.rank
      modifies this`rank, crow, ccol
      ensures crow.Valid() && ccol.Valid()
      ensures crow.S == k.rows + {row} && ccol.S == k.cols - {cstar} && rank == k.rank[row := |k.rows|]
    {
      hide Mask.Valid;
      crow.Set(row);
      ccol.Clear(cstar);
      rank := rank[row := |k.rows|];
    }

    /** First uncovered row with a zero in the column, or the row count. */
    method FindZero(col: int) returns (row: int)
      requires Wired() && 0 <= col < ncols
      ensures 0 <= row <= nrows
      ensures row < nrows ==> row !in crow.S && Entry(p, dist.d, row, col) == 0
      ensures row == nrows ==> forall r :: 0 <= r < nrows && r !in crow.S ==> Entry(p, dist.d, r, col) != 0
    {
      hide Mask.Valid; hide MaskMatrix.Valid; hide Buffer.Valid; hide RestKept; hide Entry;
      row := 0;
      while row < nrows
        invariant 0 <= row <= nrows
        invariant forall r :: 0 <= r < row && r !in crow.S ==> Entry(p, dist.d, r, col) != 0
      {
        var x := dist.Get(row, col);
        if x == 0 {
          var covered := crow.Get(row);
          if !covered { return; }
        }
        row := row + 1;
      }
    }

    /** One sweep over the columns: either a zero is primed whose row has no star, and the sweep
        stops there, or rows were covered, or no uncovered zero is left. */
    method Sweep() returns (zerosFound: bool, row: int, col: int)
      requires Ready()
      modifies this`rank, mprime, crow, ccol
      ensures Wired() && -1 <= row < nrows
      ensures row < 0 ==> Ready()
      ensures row < 0 && zerosFound ==> |crow.S| > |old(crow.S)|
      ensures row < 0 && !zerosFound ==> K() == old(K()) && !UncoveredZero(p, dist.d, K())
      ensures row >= 0 ==> Augmentable(row, col) && |crow.S| >= |old(crow.S)|
    {
      hide Mask.Valid; hide MaskMatrix.Valid; hide Buffer.Valid; hide RestKept; hide DualInv; hide CoverInv; hide Entry;
      hide Sized;
      zerosFound, row, col := false, -1, 0;
      ghost var k := K();
      while col < ncols
        invariant 0 <= col <= ncols && Ready() && |crow.S| >= |k.rows|
        invariant if zerosFound then |crow.S| > |k.rows| else K() == k
        invariant !zerosFound ==> forall r, c :: Uncovered(p, k, r, c) && c < col ==> Entry(p, dist.d, r, c) != 0
      {
        var covered := ccol.Get(col);
        if !covered {
          var at := FindZero(col);
          if at < nrows {
            ghost var j := K();
            var augment := PrimeZero(at, col);
            if augment {
              assert mprime.M - {at} == j.prime;
              assert Cover(mprime.M - {at}, ccol.S, crow.S, rank) == j;
              row := at;
              return;
            }
            zerosFound := true;
          }
        }
        col := col + 1;
      }
    }

    /** A primed zero in a row without a star: a path starts here. */
    ghost predicate Augmentable(row: int, col: int)
      reads this, Parts()
    {
      && Wired() && Blank() && DualInv(p, dist.d, mstar.M)
      && row in mprime.M && mprime.M[row] == col && row !in mstar.M
      && CoverInv(p, dist.d, mstar.M, Cover(mprime.M - {row}, ccol.S, crow.S, rank))
      && Uncovered(p, K(), row, col) && Entry(p, dist.d, row, col) == 0
    }

    method Step3()
      requires Ready() && |mstar.M| < dmin
      modifies this, Parts()
      ensures Done()
      decreases dmin - |mstar.M|, nrows - |crow.S|, if UncoveredZero(p, dist.d, K()) then 1 else 3
    {
      hide Mask.Valid; hide MaskMatrix.Valid; hide Buffer.Valid; hide RestKept; hide DualInv; hide CoverInv;
      hide IsOptimal;
      hide Entry; hide Sized; hide Augmentable;
      CoveredRowsWithin(p, dist.d, mstar.M, K());
      var zerosFound := true;
      while zerosFound
        invariant Ready() && mstar.M == old(mstar.M) && dist.d == old(dist.d)
        invariant K() == old(K()) || |crow.S| > |old(crow.S)|
        invariant |crow.S| <= nrows
        invariant !zerosFound ==> !UncoveredZero(p, dist.d, K())
        decreases nrows - |crow.S|, zerosFound
      {
        var row, col;
        zerosFound, row, col := Sweep();
        if row >= 0 {
          Step4(row, col);
          return;
        }
        CoveredRowsWithin(p, dist.d, mstar.M, K());
      }
      Step5();
    }

    method Step4(row: int, col: int)
      requires Augmentable(row, col) && |mstar.M| < dmin
      modifies this, Parts()
      ensures Done()
      decreases dmin - |mstar.M|, nrows - |crow.S|, 0
    {
      hide Mask.Valid; hide MaskMatrix.Valid; hide Buffer.Valid; hide RestKept; hide Tight; hide Extremal;
      hide Windowed; hide CoverInv; hide IsOptimal; hide Entry;
      ghost var k := Cover(mprime.M - {row}, ccol.S, crow.S, rank);
      CoveredRowsWithin(p, dist.d, mstar.M, k);
      AugmentAlongPath(row, col);
      StarsWithin(p, nmstar.M);
      mstar.CopyFrom(nmstar);
      mprime.Reset();
      crow.Reset();
      rank := map[];
      Step2a();
    }

    /** Unstar a starred zero in favour of the prime in its row, and look up the star in the
        prime's column. */
    method MoveStar(rstar: int, cstar: int) returns (primeCol: int, next: int)
      requires Wired() && Matching(p, mstar.M) && 0 <= rstar < nrows && 0 <= cstar < ncols
      requires rstar in nmstar.M && nmstar.M[rstar] == cstar
      requires rstar in mprime.M && 0 <= mprime.M[rstar] < ncols
      modifies nmstar
      ensures Wired() && primeCol == mprime.M[rstar] && nmstar.M == old(nmstar.M)[rstar := primeCol]
      ensures 0 <= next <= nrows
      ensures if next == nrows then !Starred(mstar.M, primeCol) else next in mstar.M && mstar.M[next] == primeCol
    {
      hide Mask.Valid; hide MaskMatrix.Valid; hide Buffer.Valid; hide RestKept; hide Entry;
      nmstar.Clear(rstar, cstar);
      primeCol := FindInRow(mprime, rstar);
      nmstar.Set(rstar, primeCol);
      assert nmstar.M == old(nmstar.M)[rstar := primeCol];
      next := FindInColumn(mstar, primeCol);
    }

    /** The alternating walk from the new zero, recorded in `nmstar`. */
    method AugmentAlongPath(row: int, col: int)
      requires Augmentable(row, col)
      modifies nmstar
      ensures Wired() && DualInv(p, dist.d, nmstar.M) && |nmstar.M| == |mstar.M| + 1
      ensures forall c :: c in ccol.S ==> Starred(nmstar.M, c)
    {
      hide Mask.Valid; hide MaskMatrix.Valid; hide Buffer.Valid; hide RestKept; hide Entry;
      hide Tight; hide Extremal; hide Windowed; hide CoverInv; hide WalkInv; hide Starred;
      ghost var k := Cover(mprime.M - {row}, ccol.S, crow.S, rank);
      ghost var star := mstar.M;
      ghost var d := dist.d;
      nmstar.CopyFrom(mstar);
      nmstar.Set(row, col);
      var cstar := col;
      var rstar := FindInColumn(mstar, cstar);
      if rstar < nrows { UncoveredStar(p, d, star, k, rstar); }
      WalkStart(p, d, star, k, row, col, rstar);
      while rstar < nrows
        invariant Wired()
        invariant 0 <= rstar <= nrows && 0 <= cstar < ncols
        invariant WalkInv(p, d, star, k, row, nmstar.M, rstar, cstar)
        decreases rstar < nrows, if rstar in k.rank then k.rank[rstar] else 0
      {
        ghost var now := nmstar.M;
        AtTheHole(p, d, star, k, row, now, rstar, cstar);
        var primeCol, next := MoveStar(rstar, cstar);
        WalkStep(p, d, star, k, row, now, rstar, cstar, next);
        cstar, rstar := primeCol, next;
      }
      WalkEnd(p, d, star, k, row, nmstar.M, cstar);
      CoveredStaysStarred(p, d, star, k, nmstar.M);
    }

    method Step5()
      requires Ready() && |mstar.M| < dmin && !UncoveredZero(p, dist.d, K())
      modifies this, Parts()
      ensures Done()
      decreases dmin - |mstar.M|, nrows - |crow.S|, 2
    {
      hide Mask.Valid; hide MaskMatrix.Valid; hide Buffer.Valid; hide RestKept; hide DualInv; hide CoverInv;
      hide IsOptimal; hide Entry;
      var h := LeastUncovered();
      ghost var r, c :| Uncovered(p, K(), r, c) && h == Entry(p, dist.d, r, c);
      NonNegative(p, dist.d, mstar.M, r, c);
      ShiftedEntry(p, dist.d, K(), h, r, c);
      Shift(h);
      assert Uncovered(p, K(), r, c) && Entry(p, dist.d, r, c) == 0;
      Step3();
    }

    /** The least uncovered entry. The search never comes back empty-handed, so the early
        return for that case is unreachable. */
    method LeastUncovered() returns (h: int)
      requires Ready() && |mstar.M| < dmin
      ensures forall r, c :: Uncovered(p, K(), r, c) ==> h <= Entry(p, dist.d, r, c)
      ensures exists r, c :: Uncovered(p, K(), r, c) && h == Entry(p, dist.d, r, c)
    {
      hide Mask.Valid; hide MaskMatrix.Valid; hide Buffer.Valid; hide RestKept; hide DualInv; hide CoverInv; hide Entry;
      h := 0;
      var found := false;
      ghost var hr, hc := 0, 0;
      var row := 0;
      while row < nrows
        invariant 0 <= row <= nrows
        invariant found ==> Uncovered(p, K(), hr, hc) && h == Entry(p, dist.d, hr, hc)
        invariant forall r, c :: Uncovered(p, K(), r, c) && r < row ==> found && h <= Entry(p, dist.d, r, c)
      {
        var rowCovered := crow.Get(row);
        if !rowCovered {
          var col := 0;
          while col < ncols
            invariant 0 <= col <= ncols
            invariant found ==> Uncovered(p, K(), hr, hc) && h == Entry(p, dist.d, hr, hc)
            invariant forall r, c :: Uncovered(p, K(), r, c) && (r < row || (r == row && c < col)) ==>
                        found && h <= Entry(p, dist.d, r, c)
          {
            var colCovered := ccol.Get(col);
            if !colCovered {
              var value := dist.Get(row, col);
              if !found || value < h {
                h, found, hr, hc := value, true, row, col;
              }
            }
            col := col + 1;
          }
        }
        row := row + 1;
      }
      ghost var r, c := FreeUncovered(p, dist.d, mstar.M, K());
      assert found;
    }

    /** Add `h` to each covered row. */
    method RaiseRows(h: int, ghost free: int)
      requires Ready() && 0 <= free < nrows && free !in mstar.M && h >= 0
      requires forall r, c :: Uncovered(p, K(), r, c) ==> h <= Entry(p, dist.d, r, c)
      modifies dist, dist.cells
      ensures Wired() && dist.d == old(dist.d).(u := LoweredRows(old(dist.d).u, crow.S, h, nrows))
      ensures forall r, c :: 0 <= r < nrows && 0 <= c < ncols ==> 0 <= Entry(p, dist.d, r, c) <= 2 * p.span
    {
      hide Mask.Valid; hide MaskMatrix.Valid; hide Buffer.Valid; hide RestKept; hide DualInv; hide CoverInv;
      hide Uncovered;
      ghost var k := K();
      ghost var d0 := dist.d;
      var row := 0;
      while row < nrows
        invariant 0 <= row <= nrows && Wired()
        invariant dist.d == d0.(u := LoweredRows(d0.u, k.rows, h, row))
      {
        var covered := crow.Get(row);
        if covered {
          forall c | 0 <= c < ncols ensures 0 <= Entry(p, dist.d, row, c) + h <= 2 * p.span {
            RaisedBound(p, d0, mstar.M, k, h, free, row, c);
          }
          dist.AddToRow(row, h);
        }
        row := row + 1;
        assert dist.d.u == LoweredRows(d0.u, k.rows, h, row);
      }
      forall r, c | 0 <= r < nrows && 0 <= c < ncols ensures 0 <= Entry(p, dist.d, r, c) <= 2 * p.span {
        if r in k.rows {
          RaisedBound(p, d0, mstar.M, k, h, free, r, c);
        } else {
          EntryBound(p, d0, mstar.M, free, r, c);
        }
      }
    }

    /** Take `h` off each uncovered column, the covered rows having been raised. */
    method LowerColumns(h: int, ghost free: int, ghost d0: Potentials)
      requires Wired() && DualInv(p, d0, mstar.M) && 0 <= free < nrows && free !in mstar.M && h >= 0
      requires dist.d == d0.(u := LoweredRows(d0.u, crow.S, h, nrows))
      requires forall r, c :: Uncovered(p, K(), r, c) ==> h <= Entry(p, d0, r, c)
      modifies dist, dist.cells
      ensures Wired() && dist.d == old(dist.d).(v := RaisedColumns(d0.v, ccol.S, h, ncols))
    {
      hide Mask.Valid; hide MaskMatrix.Valid; hide Buffer.Valid; hide RestKept; hide DualInv;
      ghost var k := K();
      ghost var d1 := dist.d;
      var col := 0;
      while col < ncols
        invariant 0 <= col <= ncols && Wired()
        invariant dist.d == d1.(v := RaisedColumns(d0.v, k.cols, h, col))
      {
        var covered := ccol.Get(col);
        if !covered {
          forall r | 0 <= r < nrows ensures 0 <= Entry(p, dist.d, r, col) - h <= 2 * p.span {
            EntryBound(p, d0, mstar.M, free, r, col);
            assert r !in k.rows ==> Uncovered(p, k, r, col);
          }
          dist.SubtractFromColumn(col, h);
        }
        col := col + 1;
        assert dist.d.v == RaisedColumns(d0.v, k.cols, h, col);
      }
    }

    /** Add `h` to the covered rows, then take it off the uncovered columns. */
    method Shift(h: int)
      requires Ready() && |mstar.M| < dmin && h >= 0
      requires forall r, c :: Uncovered(p, K(), r, c) ==> h <= Entry(p, dist.d, r, c)
      modifies dist, dist.cells
      ensures Ready() && dist.d == Shifted(p, old(dist.d), K(), h)
    {
      hide Mask.Valid; hide MaskMatrix.Valid; hide Buffer.Valid; hide RestKept; hide Entry; hide Uncovered;
      hide Tight; hide Extremal; hide Windowed; hide CoverInv; hide Starred; hide LoweredRows; hide RaisedColumns;
      ghost var free, _ := FreeRowAndColumn(p, mstar.M);
      ghost var d0 := dist.d;
      RaiseRows(h, free);
      LowerColumns(h, free, d0);
      dist.RaiseTop(h);
      ShiftKeeps(p, d0, mstar.M, K(), h);
    }

    // ----- start-up

    /** Take the least entry off every row. */
    method ReduceRows()
      requires Wired() && nrows <= ncols && dist.d == Zero(nrows, ncols)
      modifies dist, dist.cells
      ensures Wired() && DualInv(p, dist.d, map[])
    {
      hide Mask.Valid; hide MaskMatrix.Valid; hide Buffer.Valid; hide RestKept; hide DualInv;
      var row := 0;
      while row < nrows
        invariant 0 <= row <= nrows && Wired()
        invariant dist.d.v == seq(ncols, _ => 0) && dist.d.top == 0
        invariant forall r :: row <= r < nrows ==> dist.d.u[r] == 0
        invariant forall r, c :: 0 <= r < row && 0 <= c < ncols ==> 0 <= Entry(p, dist.d, r, c) <= p.span
      {
        ghost var d0 := dist.d;
        var minValue := RowMinimum(row);
        dist.AddToRow(row, -minValue);
        forall r, c | 0 <= r < row + 1 && 0 <= c < ncols ensures 0 <= Entry(p, dist.d, r, c) <= p.span {
          assert Entry(p, dist.d, r, c) == Entry(p, d0, r, c) - if r == row then minValue else 0;
        }
        row := row + 1;
      }
      RowsReduced(p, dist.d);
    }

    method RowMinimum(row: int) returns (minValue: int)
      requires Wired() && 0 <= row < nrows && 0 < ncols
      ensures forall c :: 0 <= c < ncols ==> minValue <= Entry(p, dist.d, row, c)
      ensures exists c :: 0 <= c < ncols && minValue == Entry(p, dist.d, row, c)
    {
      hide Mask.Valid; hide MaskMatrix.Valid; hide Buffer.Valid; hide RestKept; hide Entry;
      minValue := dist.Get(row, 0);
      var col := 1;
      while col < ncols
        invariant 1 <= col <= ncols
        invariant forall c :: 0 <= c < col ==> minValue <= Entry(p, dist.d, row, c)
        invariant exists c :: 0 <= c < ncols && minValue == Entry(p, dist.d, row, c)
      {
        var value := dist.Get(row, col);
        if value < minValue { minValue := value; }
        col := col + 1;
      }
    }

    /** Take the least entry off every column. */
    method ReduceColumns()
      requires Wired() && nrows > ncols && dist.d == Zero(nrows, ncols)
      modifies dist, dist.cells
      ensures Wired() && DualInv(p, dist.d, map[])
    {
      hide Mask.Valid; hide MaskMatrix.Valid; hide Buffer.Valid; hide RestKept; hide DualInv;
      var col := 0;
      while col < ncols
        invariant 0 <= col <= ncols && Wired()
        invariant dist.d.u == seq(nrows, _ => 0) && dist.d.top == 0
        invariant forall c :: col <= c < ncols ==> dist.d.v[c] == 0
        invariant forall c :: 0 <= c < col ==> p.lo <= dist.d.v[c]
        invariant forall r, c :: 0 <= r < nrows && 0 <= c < col ==> 0 <= Entry(p, dist.d, r, c)
      {
        ghost var d0 := dist.d;
        var minValue := ColumnMinimum(col);
        dist.SubtractFromColumn(col, minValue);
        forall r, c | 0 <= r < nrows && 0 <= c < col + 1 ensures 0 <= Entry(p, dist.d, r, c) {
          assert Entry(p, dist.d, r, c) == Entry(p, d0, r, c) - if c == col then minValue else 0;
        }
        col := col + 1;
      }
      ColumnsReduced(p, dist.d);
    }

    method ColumnMinimum(col: int) returns (minValue: int)
      requires Wired() && 0 <= col < ncols && 0 < nrows
      ensures forall r :: 0 <= r < nrows ==> minValue <= Entry(p, dist.d, r, col)
      ensures exists r :: 0 <= r < nrows && minValue == Entry(p, dist.d, r, col)
    {
      hide Mask.Valid; hide MaskMatrix.Valid; hide Buffer.Valid; hide RestKept; hide Entry;
      minValue := dist.Get(0, col);
      var row := 1;
      while row < nrows
        invariant 1 <= row <= nrows
        invariant forall r :: 0 <= r < row ==> minValue <= Entry(p, dist.d, r, col)
        invariant exists r :: 0 <= r < nrows && minValue == Entry(p, dist.d, r, col)
      {
        var value := dist.Get(row, col);
        if value < minValue { minValue := value; }
        row := row + 1;
      }
    }

    method StarZero(row: int, col: int)
      requires Wired() && DualInv(p, dist.d, mstar.M) && ccol.S == Columns(mstar.M)
      requires 0 <= row < nrows && 0 <= col < ncols && Entry(p, dist.d, row, col) == 0
      requires row !in mstar.M && !Starred(mstar.M, col)
      modifies mstar, ccol
      ensures Wired() && DualInv(p, dist.d, mstar.M) && ccol.S == Columns(mstar.M)
      ensures mstar.M == old(mstar.M)[row := col]
    {
      hide Mask.Valid; hide MaskMatrix.Valid; hide Buffer.Valid; hide RestKept; hide Entry; hide DualInv; hide Columns;
      hide Starred;
      AddStar(p, dist.d, mstar.M, row, col);
      mstar.Set(row, col);
      ccol.Set(col);
    }

    /** First column with a zero in the row and no star yet, or the column count. */
    method FindFreeColumn(row: int) returns (col: int)
      requires Wired() && 0 <= row < nrows
      ensures 0 <= col <= ncols
      ensures col < ncols ==> col !in ccol.S && Entry(p, dist.d, row, col) == 0
    {
      hide Mask.Valid; hide MaskMatrix.Valid; hide Buffer.Valid; hide RestKept; hide Entry;
      col := 0;
      while col < ncols
        invariant 0 <= col <= ncols
      {
        var x := dist.Get(row, col);
        if x == 0 {
          var taken := ccol.Get(col);
          if !taken { return; }
        }
        col := col + 1;
      }
    }

    /** Star the first free zero of each row in turn. */
    method StarRows()
      requires Wired() && DualInv(p, dist.d, mstar.M) && mstar.M == map[] && ccol.S == {}
      modifies mstar, ccol
      ensures Wired() && DualInv(p, dist.d, mstar.M) && ccol.S == Columns(mstar.M)
    {
      hide Mask.Valid; hide MaskMatrix.Valid; hide Buffer.Valid; hide RestKept; hide Entry; hide DualInv;
      var row := 0;
      while row < nrows
        invariant 0 <= row <= nrows && Wired() && DualInv(p, dist.d, mstar.M) && ccol.S == Columns(mstar.M)
        invariant forall r :: r in mstar.M ==> r < row
      {
        var col := FindFreeColumn(row);
        if col < ncols { StarZero(row, col); }
        row := row + 1;
      }
    }

    /** Star the first free zero of each column in turn. */
    method StarColumns()
      requires Wired() && DualInv(p, dist.d, mstar.M) && mstar.M == map[] && ccol.S == {} && crow.S == {}
      modifies mstar, ccol, crow
      ensures Wired() && DualInv(p, dist.d, mstar.M) && ccol.S == Columns(mstar.M) && crow.S == {}
    {
      hide Mask.Valid; hide MaskMatrix.Valid; hide Buffer.Valid; hide RestKept; hide Entry; hide DualInv;
      var col := 0;
      while col < ncols
        invariant 0 <= col <= ncols && Wired() && DualInv(p, dist.d, mstar.M) && ccol.S == Columns(mstar.M)
        invariant crow.S == mstar.M.Keys
        invariant forall r :: r in mstar.M ==> mstar.M[r] < col
      {
        var row := FindZero(col);
        if row < nrows {
          StarZero(row, col);
          crow.Set(row);
        }
        col := col + 1;
      }
      crow.Reset();
    }

    method IxOptimal()
      requires Wired() && dist.d == Zero(nrows, ncols)
      requires ccol.S == crow.S == {} && mstar.M == mprime.M == map[] && rank == map[]
      modifies this, Parts()
      ensures Done()
    {
      hide Mask.Valid; hide MaskMatrix.Valid; hide Buffer.Valid; hide Entry; hide DualInv; hide CoverInv;
      hide IsOptimal; hide Zero; hide Columns;
      var row := 0;
      while row < nrows
        invariant 0 <= row <= nrows && Wired()
        invariant forall r :: 0 <= r < row ==> ix[r] == -1
        invariant dist.d == old(dist.d) && rank == map[]
        invariant ccol.S == crow.S == {} && mstar.M == mprime.M == map[]
      {
        ix[row] := -1;
        row := row + 1;
      }
      if nrows <= ncols {
        ReduceRows();
        StarRows();
      } else {
        ReduceColumns();
        StarColumns();
      }
      FreshCover(p, dist.d, mstar.M, ccol.S);
      Step2b();
    }
  }

  /** What is known of an uncovered row. */
  lemma PrimeFacts(p: Problem, d: Potentials, star: map<int, int>, k: Cover, row: int)
    requires DualInv(p, d, star) && CoverInv(p, d, star, k)
    ensures row !in k.rows ==> row !in k.prime
    ensures row in star ==> 0 <= star[row] < p.cols
    ensures forall r :: r in k.prime ==> 0 <= r < p.rows && 0 <= k.prime[r] < p.cols
  {
    forall r | r in k.prime ensures 0 <= r < p.rows && 0 <= k.prime[r] < p.cols {
      assert PrimeOk(p, d, star, k, r);
    }
  }

  /** All costs lie between `lo` and `lo + span`. */
  ghost predicate Window(a: seq<int>, lo: int, span: int) {
    forall i :: 0 <= i < |a| ==> lo <= a[i] <= lo + span
  }

  /** There is a narrowest window; no costs at all fit into one of negative width. */
  lemma {:induction false} NarrowestWindow(a: seq<int>) returns (lo: int, span: int)
    ensures Window(a, lo, span) && (a == [] ==> span < 0)
    ensures a != [] ==> lo in a && lo + span in a
  {
    if a == [] {
      lo, span := 0, -1;
    } else {
      var front, last := a[..|a| - 1], a[|a| - 1];
      lo, span := NarrowestWindow(front);
      if front == [] {
        lo, span := last, 0;
      } else {
        var hi := -Min(-lo - span, -last);
        lo := Min(lo, last);
        span := hi - lo;
      }
      assert forall i :: 0 <= i < |front| ==> a[i] == front[i];
    }
  }

  /** So what stays within twice its width stays within twice that of any other. */
  lemma NarrowerBound(a: seq<int>, lo: int, span: int, log: seq<(int, int)>)
    requires Window(a, lo, span) && (if a == [] then span < 0 else lo in a && lo + span in a) && Within(log, 2 * span)
    ensures forall l, w :: Window(a, l, w) ==> Within(log, 2 * w)
  {
    forall l, w | Window(a, l, w) ensures Within(log, 2 * w) {
      if a != [] {
        var i :| 0 <= i < |a| && a[i] == lo;
        var j :| 0 <= j < |a| && a[j] == lo + span;
        assert span <= w;
      }
    }
  }

  /** For every cost matrix of at most 32 by 32, `ix` is a cheapest assignment of
      min(nrow, ncol) rows to distinct columns, and nothing outside it is disturbed. The matrix
      goes through the writes in `log`, and every value on the way is between 0 and twice the width
      of any window that holds the costs. */
  method MtdevMatch(ix: array<int>, a: array<int>, nrow: nat, ncol: nat) returns (ghost log: seq<(int, int)>)
    requires nrow <= DIM_FINGER && ncol <= DIM_FINGER
    requires nrow <= ix.Length && Area(nrow, ncol) <= a.Length && ix != a
    modifies ix, a
    ensures IsOptimal(Unflatten(old(a[..]), nrow, ncol), ix[..nrow], nrow, ncol)
    ensures ix[nrow..] == old(ix[nrow..]) && a[Area(nrow, ncol)..] == old(a[Area(nrow, ncol)..])
    ensures a[..] == Replay(old(a[..]), log)
    ensures forall lo, span :: Window(old(a[..Area(nrow, ncol)]), lo, span) ==> Within(log, 2 * span)
  {
    hide IsOptimal; hide Unflatten; hide Replay; hide Area;
    ghost var costs := a[..Area(nrow, ncol)];
    ghost var lo, span := NarrowestWindow(costs);
    assert forall i :: 0 <= i < Area(nrow, ncol) ==> a[i] == costs[i];
    var solver := new Solver(ix, a, nrow, ncol, lo, span);
    solver.IxOptimal();
    log := solver.dist.log;
    NarrowerBound(costs, lo, span, log);
  }
}
