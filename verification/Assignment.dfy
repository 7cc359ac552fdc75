/** Rectangular assignment problems and the duality argument that certifies an optimum. */
module Assignment {
  import opened Lists

  type Matrix = seq<seq<int>>

  ghost predicate IsMatrix(cost: Matrix, rows: int, cols: int) {
    |cost| == rows && forall r :: 0 <= r < rows ==> |cost[r]| == cols
  }

  function Min(a: int, b: int): int { if a <= b then a else b }

  /** `a[r]` is the column given to row `r`, or -1; no column is given twice. */
  ghost predicate IsPartial(a: seq<int>, cols: int) {
    && (forall r :: 0 <= r < |a| ==> -1 <= a[r] < cols)
    && (forall r, q :: 0 <= r < q < |a| && a[r] == a[q] ==> a[r] == -1)
  }

  /** How many rows are given a column. */
  function Assigned(a: seq<int>): nat {
    if a == [] then 0
    else Assigned(a[..|a| - 1]) + if a[|a| - 1] >= 0 then 1 else 0
  }

  /** The assignments the matcher chooses among: as many rows as possible get a column. */
  ghost predicate IsAssignment(a: seq<int>, rows: int, cols: int) {
    |a| == rows && IsPartial(a, cols) && Assigned(a) == Min(rows, cols)
  }

  ghost function Total(cost: Matrix, a: seq<int>, cols: int): int
    requires |a| <= |cost| && IsMatrix(cost, |cost|, cols)
    requires forall r :: 0 <= r < |a| ==> a[r] < cols
  {
    if a == [] then 0
    else
      var r := |a| - 1;
      Total(cost, a[..r], cols) + if a[r] >= 0 then cost[r][a[r]] else 0
  }

  ghost predicate IsOptimal(cost: Matrix, a: seq<int>, rows: int, cols: int)
    requires IsMatrix(cost, rows, cols)
  {
    && IsAssignment(a, rows, cols)
    && forall b :: IsAssignment(b, rows, cols) ==> Total(cost, a, cols) <= Total(cost, b, cols)
  }

  // ----- dual potentials

  /** What is left of an entry once the row and column potentials are taken off. */
  ghost function Reduced(cost: Matrix, u: seq<int>, v: seq<int>, r: int, c: int): int
    requires |u| == |cost| && IsMatrix(cost, |cost|, |v|) && 0 <= r < |u| && 0 <= c < |v|
  {
    cost[r][c] - u[r] - v[c]
  }

  ghost predicate Feasible(cost: Matrix, u: seq<int>, v: seq<int>)
    requires |u| == |cost| && IsMatrix(cost, |cost|, |v|)
  {
    forall r, c :: 0 <= r < |u| && 0 <= c < |v| ==> Reduced(cost, u, v, r, c) >= 0
  }

  function Sum(s: seq<int>): int {
    if s == [] then 0 else Sum(s[..|s| - 1]) + s[|s| - 1]
  }

  /** The column potentials, with the columns in use blanked out. */
  function UnusedColumns(v: seq<int>, a: seq<int>): seq<int> {
    seq(|v|, c requires 0 <= c < |v| => if c in a then 0 else v[c])
  }

  /** The row potentials, with the rows in use blanked out. */
  function UnusedRows(u: seq<int>, a: seq<int>): seq<int>
    requires |u| == |a|
  {
    seq(|u|, r requires 0 <= r < |u| => if a[r] >= 0 then 0 else u[r])
  }

  ghost function RowPart(u: seq<int>, a: seq<int>): int
    requires |a| <= |u|
  {
    if a == [] then 0
    else RowPart(u, a[..|a| - 1]) + if a[|a| - 1] >= 0 then u[|a| - 1] else 0
  }

  ghost function ColumnPart(v: seq<int>, a: seq<int>): int
    requires forall r :: 0 <= r < |a| ==> a[r] < |v|
  {
    if a == [] then 0
    else ColumnPart(v, a[..|a| - 1]) + if a[|a| - 1] >= 0 then v[a[|a| - 1]] else 0
  }

  lemma {:induction false} SumUpdate(s: seq<int>, i: int, x: int)
    requires 0 <= i < |s|
    ensures Sum(s[i := x]) == Sum(s) - s[i] + x
  {
    var last := |s| - 1;
    if i == last {
      assert s[i := x][..last] == s[..last];
    } else {
      SumUpdate(s[..last], i, x);
      assert s[i := x][..last] == s[..last][i := x];
    }
  }

  lemma {:induction false} SumSign(s: seq<int>)
    ensures (forall i :: 0 <= i < |s| ==> s[i] <= 0) ==> Sum(s) <= 0
    ensures (forall i :: 0 <= i < |s| ==> s[i] == 0) ==> Sum(s) == 0
  {
    if s != [] { SumSign(s[..|s| - 1]); }
  }

  /** Used and unused columns together make up the whole column potential. */
  lemma {:induction false} ColumnSplit(v: seq<int>, a: seq<int>)
    requires IsPartial(a, |v|)
    ensures ColumnPart(v, a) + Sum(UnusedColumns(v, a)) == Sum(v)
  {
    if a == [] {
      assert UnusedColumns(v, a) == v;
    } else {
      var r := |a| - 1;
      var b := a[..r];
      assert a == b + [a[r]];
      ColumnSplit(v, b);
      if a[r] < 0 {
        assert UnusedColumns(v, a) == UnusedColumns(v, b);
      } else {
        assert a[r] !in b;
        assert UnusedColumns(v, a) == UnusedColumns(v, b)[a[r] := 0];
        SumUpdate(UnusedColumns(v, b), a[r], 0);
      }
    }
  }

  lemma {:induction false} RowSplit(u: seq<int>, a: seq<int>)
    requires |a| == |u|
    ensures RowPart(u, a) + Sum(UnusedRows(u, a)) == Sum(u)
  {
    if a != [] {
      var r := |a| - 1;
      RowSplit(u[..r], a[..r]);
      assert UnusedRows(u, a)[..r] == UnusedRows(u[..r], a[..r]);
      RowPartPrefix(u, a[..r]);
      assert RowPart(u, a[..r]) == RowPart(u[..r], a[..r]);
    }
  }

  lemma {:induction false} RowPartPrefix(u: seq<int>, a: seq<int>)
    requires |a| <= |u|
    ensures RowPart(u, a) == RowPart(u[..|a|], a)
    decreases a
  {
    if a != [] {
      var r := |a| - 1;
      RowPartPrefix(u, a[..r]);
      RowPartPrefix(u[..|a|], a[..r]);
      assert u[..|a|][..r] == u[..r];
    }
  }

  /** Weak duality, and equality when every chosen entry is tight. */
  lemma {:induction false} TotalBound(cost: Matrix, u: seq<int>, v: seq<int>, a: seq<int>)
    requires |u| == |cost| && IsMatrix(cost, |cost|, |v|) && Feasible(cost, u, v)
    requires |a| <= |u| && forall r :: 0 <= r < |a| ==> a[r] < |v|
    ensures Total(cost, a, |v|) >= RowPart(u, a) + ColumnPart(v, a)
    ensures (forall r :: 0 <= r < |a| && a[r] >= 0 ==> Reduced(cost, u, v, r, a[r]) == 0) ==>
              Total(cost, a, |v|) == RowPart(u, a) + ColumnPart(v, a)
  {
    if a != [] {
      var r := |a| - 1;
      TotalBound(cost, u, v, a[..r]);
      if a[r] >= 0 { assert Reduced(cost, u, v, r, a[r]) >= 0; }
    }
  }

  // ----- which lines a full-size assignment leaves free

  ghost function Range(n: int): (s: set<int>)
    ensures forall x :: x in s <==> 0 <= x < n
  {
    if n <= 0 then {} else Range(n - 1) + {n - 1}
  }

  lemma {:induction false} RangeSize(n: nat)
    ensures |Range(n)| == n
  {
    if n > 0 { RangeSize(n - 1); }
  }

  ghost function UsedColumns(a: seq<int>): (s: set<int>)
    ensures forall c :: c in s <==> 0 <= c && c in a
  {
    set c | c in a && 0 <= c
  }

  lemma {:induction false} UsedColumnsSize(a: seq<int>, cols: int)
    requires IsPartial(a, cols)
    ensures |UsedColumns(a)| == Assigned(a)
  {
    if a == [] {
      assert UsedColumns(a) == {};
    } else {
      var r := |a| - 1;
      assert a == a[..r] + [a[r]];
      UsedColumnsSize(a[..r], cols);
      assert UsedColumns(a) == if a[r] >= 0 then UsedColumns(a[..r]) + {a[r]} else UsedColumns(a[..r]);
    }
  }

  /** Pigeonhole on columns: as many assigned rows as columns means no column is free. */
  lemma NoFreeColumn(a: seq<int>, cols: nat)
    requires IsPartial(a, cols) && Assigned(a) == cols
    ensures forall c :: 0 <= c < cols ==> c in a
  {
    UsedColumnsSize(a, cols);
    RangeSize(cols);
    SubsetSize(UsedColumns(a), Range(cols));
  }

  lemma {:induction false} AssignedBound(a: seq<int>)
    ensures Assigned(a) <= |a|
    ensures Assigned(a) == |a| ==> forall r :: 0 <= r < |a| ==> a[r] >= 0
  {
    if a != [] { AssignedBound(a[..|a| - 1]); }
  }

  /** Potentials that vanish on the lines `a` leaves free, and are non-positive on every
      line an assignment may leave free, certify `a`. The free lines are columns when there
      are at least as many columns as rows, and rows otherwise. */
  ghost predicate Certifies(u: seq<int>, v: seq<int>, a: seq<int>) {
    if |u| <= |v| then
      forall c :: 0 <= c < |v| ==> v[c] <= 0 && (c !in a ==> v[c] == 0)
    else
      |a| == |u| && forall r :: 0 <= r < |u| ==> u[r] <= 0 && (a[r] < 0 ==> u[r] == 0)
  }

  lemma {:induction false} TotalAtLeast(cost: Matrix, u: seq<int>, v: seq<int>, a: seq<int>, b: seq<int>)
    requires |u| == |cost| && IsMatrix(cost, |cost|, |v|) && Feasible(cost, u, v)
    requires Certifies(u, v, a) && IsAssignment(b, |u|, |v|)
    ensures Total(cost, b, |v|) >= Sum(u) + Sum(v)
  {
    TotalBound(cost, u, v, b);
    RowSplit(u, b);
    ColumnSplit(v, b);
    AssignedBound(b);
    if |u| > |v| { NoFreeColumn(b, |v|); }
    SumSign(UnusedRows(u, b));
    SumSign(UnusedColumns(v, b));
  }

  /** The certificate: a tight full-size assignment beats every other one. */
  lemma CertifiedIsOptimal(cost: Matrix, u: seq<int>, v: seq<int>, a: seq<int>)
    requires |u| == |cost| && IsMatrix(cost, |cost|, |v|) && Feasible(cost, u, v)
    requires IsAssignment(a, |u|, |v|) && Certifies(u, v, a)
    requires forall r :: 0 <= r < |a| && a[r] >= 0 ==> Reduced(cost, u, v, r, a[r]) == 0
    ensures IsOptimal(cost, a, |u|, |v|)
  {
    TotalBound(cost, u, v, a);
    RowSplit(u, a);
    ColumnSplit(v, a);
    AssignedBound(a);
    if |u| > |v| { NoFreeColumn(a, |v|); }
    SumSign(UnusedRows(u, a));
    SumSign(UnusedColumns(v, a));
    forall b | IsAssignment(b, |u|, |v|)
      ensures Total(cost, a, |v|) <= Total(cost, b, |v|)
    {
      TotalAtLeast(cost, u, v, a, b);
    }
  }
}
