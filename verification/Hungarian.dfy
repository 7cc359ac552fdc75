/** What the Hungarian steps keep true, over values: the reduced matrix as potentials, the
    stars, the primes and the cover, with one lemma for each change a step makes. */
module Hungarian {
  import opened Assignment
  import opened Lists

  /** An instance: the costs as given, and a window `lo .. lo + span` that holds them. */
  datatype Problem = Problem(rows: int, cols: int, cost: Matrix, lo: int, span: int) {

    ghost predicate Valid() {
      && 0 <= rows && 0 <= cols && IsMatrix(cost, rows, cols)
      && forall r, c :: 0 <= r < rows && 0 <= c < cols ==> lo <= cost[r][c] <= lo + span
    }

    /** The number of stars the run ends with. */
    function Size(): int { Min(rows, cols) }

    /** Lower end of the window the column potentials live in. */
    function Base(): int { if rows <= cols then 0 else lo }
  }

  /** Potentials; `top` is the common value of the columns no star has reached. */
  datatype Potentials = Potentials(u: seq<int>, v: seq<int>, top: int)

  ghost function Zero(rows: nat, cols: nat): Potentials {
    Potentials(seq(rows, _ => 0), seq(cols, _ => 0), 0)
  }

  /** Lines covered, and the primes with the order in which they were made. */
  datatype Cover = Cover(prime: map<int, int>, cols: set<int>, rows: set<int>, rank: map<int, int>)

  ghost predicate Sized(p: Problem, d: Potentials) {
    p.Valid() && |d.u| == p.rows && |d.v| == p.cols
  }

  ghost function Entry(p: Problem, d: Potentials, r: int, c: int): int
    requires Sized(p, d) && 0 <= r < p.rows && 0 <= c < p.cols
  {
    Reduced(p.cost, d.u, d.v, r, c)
  }

  ghost predicate Matching(p: Problem, star: map<int, int>) {
    && (forall r :: r in star ==> 0 <= r < p.rows && 0 <= star[r] < p.cols)
    && (forall r, q :: r in star && q in star && star[r] == star[q] ==> r == q)
  }

  ghost predicate Starred(star: map<int, int>, c: int) {
    exists r :: r in star && star[r] == c
  }

  /** Entries are non-negative and stars sit on zeros. */
  ghost predicate Tight(p: Problem, d: Potentials, star: map<int, int>)
    requires Sized(p, d) && Matching(p, star)
  {
    && Feasible(p.cost, d.u, d.v)
    && forall r :: r in star ==> Entry(p, d, r, star[r]) == 0
  }

  /** A line no star has reached was never covered, so it kept the extreme potential. */
  ghost predicate Extremal(p: Problem, d: Potentials, star: map<int, int>)
    requires Sized(p, d)
  {
    if p.rows <= p.cols then
      forall c :: 0 <= c < p.cols ==> d.v[c] <= d.top && (!Starred(star, c) ==> d.v[c] == d.top)
    else
      forall r :: 0 <= r < p.rows ==> d.u[r] <= 0 && (r !in star ==> d.u[r] == 0)
  }

  ghost predicate Windowed(p: Problem, d: Potentials, star: map<int, int>)
    requires Sized(p, d)
  {
    && (forall c :: 0 <= c < p.cols ==> p.Base() <= d.v[c])
    && (forall r, c :: 0 <= r < p.rows && 0 <= c < p.cols && r !in star ==>
          p.Base() <= p.cost[r][c] - d.u[r] <= p.Base() + p.span)
  }

  ghost predicate DualInv(p: Problem, d: Potentials, star: map<int, int>) {
    Sized(p, d) && Matching(p, star) && Tight(p, d, star) && Extremal(p, d, star) && Windowed(p, d, star)
  }

  /** The cover: each star under exactly one line, each covered line through a star, each
      covered row with one prime, and a star in a prime's column was covered earlier. */
  ghost predicate CoverInv(p: Problem, d: Potentials, star: map<int, int>, k: Cover)
    requires Sized(p, d) && Matching(p, star)
  {
    && (forall r :: r in star ==> (r in k.rows <==> star[r] !in k.cols))
    && (forall c :: c in k.cols ==> Starred(star, c))
    && (forall r :: r in k.rows ==> r in star)
    && k.prime.Keys == k.rows && k.rank.Keys == k.rows
    && (forall r :: r in k.prime ==> PrimeOk(p, d, star, k, r))
    && (forall r :: r in k.rank ==> 0 <= k.rank[r] < |k.rows|)
  }

  ghost predicate PrimeOk(p: Problem, d: Potentials, star: map<int, int>, k: Cover, r: int)
    requires Sized(p, d)
  {
    && r in k.prime && r in k.rank && 0 <= r < p.rows
    && 0 <= k.prime[r] < p.cols && k.prime[r] !in k.cols
    && Entry(p, d, r, k.prime[r]) == 0
    && (forall q :: q in star && star[q] == k.prime[r] ==> q in k.rank && k.rank[q] < k.rank[r])
  }

  ghost predicate Uncovered(p: Problem, k: Cover, r: int, c: int) {
    0 <= r < p.rows && 0 <= c < p.cols && r !in k.rows && c !in k.cols
  }

  ghost predicate UncoveredZero(p: Problem, d: Potentials, k: Cover)
    requires Sized(p, d)
  {
    exists r, c :: Uncovered(p, k, r, c) && Entry(p, d, r, c) == 0
  }

  // ----- start-up

  /** After the rows are reduced. */
  lemma RowsReduced(p: Problem, d: Potentials)
    requires Sized(p, d) && p.rows <= p.cols && d.top == 0
    requires forall c :: 0 <= c < p.cols ==> d.v[c] == 0
    requires forall r, c :: 0 <= r < p.rows && 0 <= c < p.cols ==> 0 <= Entry(p, d, r, c) <= p.span
    ensures DualInv(p, d, map[])
  {
    forall r, c | 0 <= r < p.rows && 0 <= c < p.cols
      ensures 0 <= Reduced(p.cost, d.u, d.v, r, c) && 0 <= p.cost[r][c] - d.u[r] <= p.span
    {
      assert 0 <= Entry(p, d, r, c) <= p.span;
    }
  }

  /** After the columns are reduced. */
  lemma ColumnsReduced(p: Problem, d: Potentials)
    requires Sized(p, d) && p.rows > p.cols
    requires forall r :: 0 <= r < p.rows ==> d.u[r] == 0
    requires forall c :: 0 <= c < p.cols ==> p.lo <= d.v[c]
    requires forall r, c :: 0 <= r < p.rows && 0 <= c < p.cols ==> 0 <= Entry(p, d, r, c)
    ensures DualInv(p, d, map[])
  {
    forall r, c | 0 <= r < p.rows && 0 <= c < p.cols ensures 0 <= Reduced(p.cost, d.u, d.v, r, c) {
      assert 0 <= Entry(p, d, r, c);
    }
  }

  /** Before any prime is made the covered columns are the starred ones. */
  lemma FreshCover(p: Problem, d: Potentials, star: map<int, int>, cols: set<int>)
    requires DualInv(p, d, star) && cols == Columns(star)
    ensures CoverInv(p, d, star, Cover(map[], cols, {}, map[]))
  {
    forall r | r in star ensures star[r] in cols { assert Starred(star, star[r]); }
  }

  /** With no row covered, the covered columns are the starred ones, one for each star. */
  lemma CoverIsColumns(p: Problem, d: Potentials, star: map<int, int>, k: Cover)
    requires DualInv(p, d, star) && CoverInv(p, d, star, k) && k.rows == {}
    ensures k.cols == Columns(star) && |k.cols| == |star| <= p.Size()
    ensures forall c :: c in k.cols ==> 0 <= c < p.cols
  {
    ColumnsSize(star);
    StarsWithin(p, star);
    forall c | Starred(star, c) ensures c in k.cols {
      var r :| r in star && star[r] == c;
      assert r !in k.rows;
    }
    SameColumns(star, k.cols);
  }

  // ----- counting lines

  ghost function Columns(star: map<int, int>): (s: set<int>)
    ensures forall c :: c in s <==> Starred(star, c)
  {
    set r | r in star :: star[r]
  }

  lemma SameColumns(star: map<int, int>, cols: set<int>)
    requires forall c :: c in cols ==> Starred(star, c)
    requires forall c :: Starred(star, c) ==> c in cols
    ensures cols == Columns(star)
  {
    forall c | c in cols ensures c in Columns(star) { assert Starred(star, c); }
    forall c | c in Columns(star) ensures c in cols { assert Starred(star, c); }
  }

  lemma ColumnsWithout(star: map<int, int>, r: int)
    requires r in star
    ensures Columns(star) == Columns(star - {r}) + {star[r]}
    ensures |star| == |star - {r}| + 1
  {
    var rest := star - {r};
    assert star.Keys == rest.Keys + {r};
    forall c | Starred(star, c) ensures c == star[r] || Starred(rest, c) {
      var q :| q in star && star[q] == c;
      assert q == r || (q in rest && rest[q] == c);
    }
    forall c | Starred(rest, c) ensures Starred(star, c) {
      var q :| q in rest && rest[q] == c;
      assert q in star && star[q] == c;
    }
    assert Starred(star, star[r]);
  }

  lemma {:induction false} ColumnsSize(star: map<int, int>)
    requires forall r, q :: r in star && q in star && star[r] == star[q] ==> r == q
    ensures |Columns(star)| == |star|
    decreases |star|
  {
    if |star| == 0 {
      assert Columns(star) == {};
    } else {
      var r := SomeElement(star.Keys);
      ColumnsWithout(star, r);
      ColumnsSize(star - {r});
      assert !Starred(star - {r}, star[r]);
    }
  }

  /** A line set smaller than the side of the matrix misses a line. */
  lemma FreeLine(s: set<int>, n: nat) returns (x: int)
    requires |s| < n
    ensures 0 <= x < n && x !in s
  {
    RangeSize(n);
    if forall y :: y in Range(n) ==> y in s {
      SubsetSize(Range(n), s);
      assert false;
    }
    x :| x in Range(n) && x !in s;
  }

  lemma StarsWithin(p: Problem, star: map<int, int>)
    requires p.Valid() && Matching(p, star)
    ensures |star| <= p.Size()
  {
    ColumnsSize(star);
    RangeSize(p.rows);
    RangeSize(p.cols);
    SubsetSize(star.Keys, Range(p.rows));
    SubsetSize(Columns(star), Range(p.cols));
    assert |star| == |star.Keys|;
  }

  /** Short of a full set of stars, some row and some column carry none. */
  lemma FreeRowAndColumn(p: Problem, star: map<int, int>) returns (r: int, c: int)
    requires p.Valid() && Matching(p, star) && |star| < p.Size()
    ensures 0 <= r < p.rows && r !in star
    ensures 0 <= c < p.cols && !Starred(star, c)
  {
    ColumnsSize(star);
    assert |star| == |star.Keys|;
    r := FreeLine(star.Keys, p.rows);
    c := FreeLine(Columns(star), p.cols);
  }

  lemma CoveredRowsWithin(p: Problem, d: Potentials, star: map<int, int>, k: Cover)
    requires DualInv(p, d, star) && CoverInv(p, d, star, k)
    ensures |k.rows| <= p.rows
  {
    RangeSize(p.rows);
    SubsetSize(k.rows, Range(p.rows));
  }

  lemma NonNegative(p: Problem, d: Potentials, star: map<int, int>, r: int, c: int)
    requires DualInv(p, d, star) && 0 <= r < p.rows && 0 <= c < p.cols
    ensures Entry(p, d, r, c) >= 0
  {}

  /** Short of a full set of stars, something is uncovered. */
  lemma FreeUncovered(p: Problem, d: Potentials, star: map<int, int>, k: Cover) returns (r: int, c: int)
    requires DualInv(p, d, star) && CoverInv(p, d, star, k) && |star| < p.Size()
    ensures Uncovered(p, k, r, c)
  {
    r, c := FreeRowAndColumn(p, star);
  }

  // ----- size of the entries

  /** While a row is still unstarred every entry lies in `0 .. 2 * span`. */
  lemma EntryBound(p: Problem, d: Potentials, star: map<int, int>, free: int, r: int, c: int)
    requires DualInv(p, d, star)
    requires 0 <= free < p.rows && free !in star
    requires 0 <= r < p.rows && 0 <= c < p.cols
    ensures 0 <= Entry(p, d, r, c) <= 2 * p.span
    ensures p.Base() <= d.v[c] <= p.Base() + p.span
  {
    assert Entry(p, d, free, c) >= 0;
    assert Entry(p, d, r, c) >= 0;
    if r in star {
      assert Entry(p, d, free, star[r]) >= 0;
      assert Entry(p, d, r, star[r]) == 0;
    }
  }

  /** Raising a covered row by the least uncovered entry stays below `2 * span` too, even
      before the uncovered columns come down again. */
  lemma RaisedBound(p: Problem, d: Potentials, star: map<int, int>, k: Cover, h: int, free: int, r: int, c: int)
    requires DualInv(p, d, star) && CoverInv(p, d, star, k)
    requires 0 <= free < p.rows && free !in star
    requires h >= 0 && forall q, e :: Uncovered(p, k, q, e) ==> h <= Entry(p, d, q, e)
    requires r in k.rows && 0 <= c < p.cols
    ensures 0 <= r < p.rows
    ensures 0 <= Entry(p, d, r, c) + h <= 2 * p.span
  {
    assert Entry(p, d, r, c) >= 0;
    assert Entry(p, d, r, star[r]) == 0;
    assert Uncovered(p, k, free, star[r]);
  }

  // ----- step 5

  ghost function LoweredRows(u: seq<int>, rows: set<int>, h: int, below: int): (w: seq<int>)
    ensures |w| == |u|
    ensures forall r :: 0 <= r < |u| ==> w[r] == if r in rows && r < below then u[r] - h else u[r]
  {
    seq(|u|, r requires 0 <= r < |u| => if r in rows && r < below then u[r] - h else u[r])
  }

  ghost function RaisedColumns(v: seq<int>, cols: set<int>, h: int, below: int): (w: seq<int>)
    ensures |w| == |v|
    ensures forall c :: 0 <= c < |v| ==> w[c] == if c !in cols && c < below then v[c] + h else v[c]
  {
    seq(|v|, c requires 0 <= c < |v| => if c !in cols && c < below then v[c] + h else v[c])
  }

  ghost function Shifted(p: Problem, d: Potentials, k: Cover, h: int): Potentials {
    Potentials(LoweredRows(d.u, k.rows, h, p.rows), RaisedColumns(d.v, k.cols, h, p.cols), d.top + h)
  }

  lemma ShiftedEntry(p: Problem, d: Potentials, k: Cover, h: int, r: int, c: int)
    requires Sized(p, d) && 0 <= r < p.rows && 0 <= c < p.cols
    ensures Entry(p, Shifted(p, d, k, h), r, c)
         == Entry(p, d, r, c) + (if r in k.rows then h else 0) - (if c in k.cols then 0 else h)
  {}

  lemma {:induction false} ShiftKeepsDual(p: Problem, d: Potentials, star: map<int, int>, k: Cover, h: int)
    requires DualInv(p, d, star) && CoverInv(p, d, star, k)
    requires h >= 0 && forall q, e :: Uncovered(p, k, q, e) ==> h <= Entry(p, d, q, e)
    ensures DualInv(p, Shifted(p, d, k, h), star)
  {
    var e := Shifted(p, d, k, h);
    forall r, c | 0 <= r < p.rows && 0 <= c < p.cols
      ensures Reduced(p.cost, e.u, e.v, r, c) >= 0
    {
      ShiftedEntry(p, d, k, h, r, c);
      assert Entry(p, d, r, c) >= 0;
      if r !in k.rows && c !in k.cols { assert Uncovered(p, k, r, c); }
    }
    forall r | r in star ensures Entry(p, e, r, star[r]) == 0 {
      ShiftedEntry(p, d, k, h, r, star[r]);
    }
  }

  /** Step 5 keeps the potentials, the stars and the primes in order. */
  lemma {:induction false} ShiftKeeps(p: Problem, d: Potentials, star: map<int, int>, k: Cover, h: int)
    requires DualInv(p, d, star) && CoverInv(p, d, star, k)
    requires h >= 0 && forall q, e :: Uncovered(p, k, q, e) ==> h <= Entry(p, d, q, e)
    ensures DualInv(p, Shifted(p, d, k, h), star)
    ensures CoverInv(p, Shifted(p, d, k, h), star, k)
  {
    ShiftKeepsDual(p, d, star, k, h);
    hide Shifted; hide Tight; hide Extremal; hide Windowed; hide Entry; hide Uncovered;
    forall r | r in k.prime ensures PrimeOk(p, Shifted(p, d, k, h), star, k, r) {
      assert PrimeOk(p, d, star, k, r);
      ShiftedEntry(p, d, k, h, r, k.prime[r]);
    }
  }

  // ----- step 3

  /** Priming an uncovered zero of a starred row, then swapping the line over its star. */
  ghost function Primed(k: Cover, r: int, c: int, starCol: int): Cover {
    Cover(k.prime[r := c], k.cols - {starCol}, k.rows + {r}, k.rank[r := |k.rows|])
  }

  lemma PrimeKeeps(p: Problem, d: Potentials, star: map<int, int>, k: Cover, r: int, c: int)
    requires DualInv(p, d, star) && CoverInv(p, d, star, k)
    requires Uncovered(p, k, r, c) && Entry(p, d, r, c) == 0 && r in star
    ensures CoverInv(p, d, star, Primed(k, r, c, star[r]))
    ensures |Primed(k, r, c, star[r]).rows| == |k.rows| + 1
  {
    hide Tight; hide Extremal; hide Windowed; hide PrimeOk; hide Entry;
    var j := Primed(k, r, c, star[r]);
    forall q | q in j.prime ensures PrimeOk(p, d, star, j, q) {
      if q == r {
        NewPrime(p, d, star, k, r, c);
      } else {
        OldPrime(p, d, star, k, r, c, q);
      }
    }
    LinesSwap(p, star, k, r);
    assert j.prime.Keys == j.rows && j.rank.Keys == j.rows;
  }

  lemma NewPrime(p: Problem, d: Potentials, star: map<int, int>, k: Cover, r: int, c: int)
    requires Sized(p, d) && Matching(p, star) && CoverInv(p, d, star, k)
    requires Uncovered(p, k, r, c) && Entry(p, d, r, c) == 0 && r in star
    ensures PrimeOk(p, d, star, Primed(k, r, c, star[r]), r)
  {
    hide Entry; hide PrimeOk;
    var j := Primed(k, r, c, star[r]);
    forall q | q in star && star[q] == c ensures q in j.rank && j.rank[q] < j.rank[r] {
      assert q in k.rows;
    }
    NewPrimeOk(p, d, star, j, r);
  }

  lemma NewPrimeOk(p: Problem, d: Potentials, star: map<int, int>, j: Cover, r: int)
    requires Sized(p, d) && r in j.prime && r in j.rank && 0 <= r < p.rows
    requires 0 <= j.prime[r] < p.cols && j.prime[r] !in j.cols && Entry(p, d, r, j.prime[r]) == 0
    requires forall q :: q in star && star[q] == j.prime[r] ==> q in j.rank && j.rank[q] < j.rank[r]
    ensures PrimeOk(p, d, star, j, r)
  {}

  lemma OldPrime(p: Problem, d: Potentials, star: map<int, int>, k: Cover, r: int, c: int, q: int)
    requires Sized(p, d) && Matching(p, star) && CoverInv(p, d, star, k)
    requires Uncovered(p, k, r, c) && r in star && q in k.prime && q != r
    ensures PrimeOk(p, d, star, Primed(k, r, c, star[r]), q)
  {
    hide Entry;
    assert PrimeOk(p, d, star, k, q);
    assert r !in k.rank;
  }

  /** The lines over the stars, after one column is swapped for a row. */
  lemma LinesSwap(p: Problem, star: map<int, int>, k: Cover, r: int)
    requires Matching(p, star) && r in star && r !in k.rows
    requires forall q :: q in star ==> (q in k.rows <==> star[q] !in k.cols)
    requires forall x :: x in k.cols ==> Starred(star, x)
    requires k.rank.Keys == k.rows && forall q :: q in k.rank ==> 0 <= k.rank[q] < |k.rows|
    ensures forall q :: q in star ==> (q in k.rows + {r} <==> star[q] !in k.cols - {star[r]})
    ensures forall x :: x in k.cols - {star[r]} ==> Starred(star, x)
    ensures |k.rows + {r}| == |k.rows| + 1
    ensures var ranks := k.rank[r := |k.rows|]; forall q :: q in ranks ==> 0 <= ranks[q] < |k.rows| + 1
  {
    hide Starred;
  }

  // ----- step 4

  /** The new star map so far: the old rows and `start`, on zeros, over at least the old columns. */
  ghost predicate WalkMap(p: Problem, d: Potentials, star: map<int, int>, start: int, now: map<int, int>)
    requires Sized(p, d)
  {
    && now.Keys == star.Keys + {start} && start !in star
    && (forall r :: r in now ==> 0 <= r < p.rows && 0 <= now[r] < p.cols && Entry(p, d, r, now[r]) == 0)
    && (forall r :: r in star ==> Starred(now, star[r]))
  }

  /** `hole` is the old star row about to give up column `col`, which has its new owner already;
      it is the row count when no star holds `col`. */
  ghost predicate AtHole(p: Problem, star: map<int, int>, k: Cover, now: map<int, int>, hole: int, col: int) {
    && (if hole == p.rows then !Starred(star, col) else hole in star && hole in k.rank && star[hole] == col)
    && (exists q :: q in now && q != hole && now[q] == col)
  }

  /** No two rows clash, the hole apart. */
  ghost predicate NoClash(now: map<int, int>, hole: int) {
    forall r, q :: r in now && q in now && r != hole && q != hole && now[r] == now[q] ==> r == q
  }

  /** Rows ranked no higher than the hole hold their old star; any other row holds its old
      star or took the column of a star ranked no lower than the hole. */
  ghost predicate Reached(star: map<int, int>, k: Cover, now: map<int, int>, hole: int)
    requires hole in k.rank
  {
    && (forall r :: r in star && r in now && (r in k.rank ==> k.rank[r] <= k.rank[hole]) ==> now[r] == star[r])
    && (forall r :: r in now ==>
          (r in star && now[r] == star[r]) || TakenFrom(star, k, now[r], k.rank[hole]))
  }

  ghost predicate TakenFrom(star: map<int, int>, k: Cover, c: int, least: int) {
    exists q :: q in star && star[q] == c && q in k.rank && k.rank[q] >= least
  }

  ghost predicate WalkInv(p: Problem, d: Potentials, star: map<int, int>, k: Cover,
                          start: int, now: map<int, int>, hole: int, col: int)
    requires Sized(p, d)
  {
    && WalkMap(p, d, star, start, now)
    && AtHole(p, star, k, now, hole, col)
    && NoClash(now, hole)
    && (hole != p.rows ==> Reached(star, k, now, hole))
  }

  lemma {:induction false} WalkStart(p: Problem, d: Potentials, star: map<int, int>, k: Cover, row: int, col: int,
                                     hole: int)
    requires DualInv(p, d, star)
    requires 0 <= row < p.rows && 0 <= col < p.cols && Entry(p, d, row, col) == 0 && row !in star
    requires if hole == p.rows then !Starred(star, col) else hole in star && star[hole] == col && hole in k.rank
    ensures WalkInv(p, d, star, k, row, star[row := col], hole, col)
  {
    var now := star[row := col];
    assert WalkMap(p, d, star, row, now) by {
      forall r | r in star ensures Starred(now, star[r]) {
        assert r in now && now[r] == star[r];
      }
    }
    assert AtHole(p, star, k, now, hole, col) by {
      assert row in now && now[row] == col;
    }
    assert NoClash(now, hole) by {
      assert hole == p.rows ==> forall r :: r in star ==> star[r] != col;
    }
    if hole != p.rows {
      assert TakenFrom(star, k, col, k.rank[hole]);
    }
  }

  lemma StepNoClash(star: map<int, int>, k: Cover, now: map<int, int>, hole: int, c: int, next: int)
    requires hole in k.rank && NoClash(now, hole) && Reached(star, k, now, hole)
    requires forall q :: q in star && star[q] == c ==> q == next && q in k.rank && k.rank[q] < k.rank[hole]
    ensures NoClash(now[hole := c], next)
  {
    forall x | x in now && x != hole && x != next ensures now[x] != c {
      assert (x in star && now[x] == star[x]) || TakenFrom(star, k, now[x], k.rank[hole]);
    }
  }

  lemma StepStarred(star: map<int, int>, now: map<int, int>, hole: int, col: int, c: int)
    requires hole in star && star[hole] == col && hole in now
    requires exists q :: q in now && q != hole && now[q] == col
    requires NoClash(now, hole)
    requires forall r :: r in star ==> Starred(now, star[r])
    ensures now[hole] == col ==> forall r :: r in star ==> Starred(now[hole := c], star[r])
  {
    var new_ := now[hole := c];
    if now[hole] == col {
      forall r | r in star ensures Starred(new_, star[r]) {
        if star[r] == col {
          var q :| q in now && q != hole && now[q] == col;
          assert q in new_ && new_[q] == col;
        } else {
          var q :| q in now && now[q] == star[r];
          assert q in new_ && new_[q] == star[r];
        }
      }
    }
  }

  lemma StepReached(star: map<int, int>, k: Cover, now: map<int, int>, hole: int, c: int, next: int)
    requires hole in k.rank && hole in now && Reached(star, k, now, hole)
    requires next in star && star[next] == c && next in k.rank && k.rank[next] < k.rank[hole]
    ensures Reached(star, k, now[hole := c], next)
  {
    var new_ := now[hole := c];
    forall r | r in new_
      ensures (r in star && new_[r] == star[r]) || TakenFrom(star, k, new_[r], k.rank[next])
    {
      if r == hole {
        assert next in star && star[next] == c && next in k.rank && k.rank[next] >= k.rank[next];
      } else if !(r in star && now[r] == star[r]) {
        assert TakenFrom(star, k, now[r], k.rank[hole]);
      }
    }
  }

  lemma StepMap(p: Problem, d: Potentials, star: map<int, int>, start: int, now: map<int, int>, hole: int, c: int)
    requires Sized(p, d) && WalkMap(p, d, star, start, now)
    requires hole in now && 0 <= c < p.cols && Entry(p, d, hole, c) == 0
    requires forall r :: r in star ==> Starred(now[hole := c], star[r])
    ensures WalkMap(p, d, star, start, now[hole := c])
  {}

  /** A star in an uncovered column sits in a covered row. */
  lemma UncoveredStar(p: Problem, d: Potentials, star: map<int, int>, k: Cover, r: int)
    requires DualInv(p, d, star) && CoverInv(p, d, star, k)
    requires r in star && star[r] !in k.cols
    ensures r in k.rank
  {}

  /** At the hole the old star is still in place, and the search for a prime succeeds. */
  lemma AtTheHole(p: Problem, d: Potentials, star: map<int, int>, k: Cover,
                  start: int, now: map<int, int>, hole: int, col: int)
    requires DualInv(p, d, star) && CoverInv(p, d, star, k)
    requires WalkInv(p, d, star, k, start, now, hole, col) && hole != p.rows
    ensures hole in now && now[hole] == col && hole != start
    ensures hole in k.rank && k.rank[hole] >= 0
    ensures hole in k.prime && 0 <= k.prime[hole] < p.cols
  {
    assert PrimeOk(p, d, star, k, hole);
  }

  /** One turn of the walk: it goes on, and the rank of the hole goes down. */
  lemma WalkStep(p: Problem, d: Potentials, star: map<int, int>, k: Cover,
                 start: int, now: map<int, int>, hole: int, col: int, next: int)
    requires DualInv(p, d, star) && CoverInv(p, d, star, k)
    requires WalkInv(p, d, star, k, start, now, hole, col) && hole != p.rows
    requires hole in k.prime
    requires if next == p.rows then !Starred(star, k.prime[hole]) else next in star && star[next] == k.prime[hole]
    ensures WalkInv(p, d, star, k, start, now[hole := k.prime[hole]], next, k.prime[hole])
    ensures next != p.rows ==> next in k.rank && k.rank[next] < k.rank[hole]
  {
    var c := k.prime[hole];
    assert PrimeOk(p, d, star, k, hole);
    StepNoClash(star, k, now, hole, c, next);
    StepStarred(star, now, hole, col, c);
    StepMap(p, d, star, start, now, hole, c);
    if next != p.rows { StepReached(star, k, now, hole, c, next); }
    assert AtHole(p, star, k, now[hole := c], next, c) by {
      var new_ := now[hole := c];
      assert hole in new_ && hole != next && new_[hole] == c;
    }
  }

  /** More starred lines never spoil the potentials. */
  lemma MoreStars(p: Problem, d: Potentials, star: map<int, int>, now: map<int, int>)
    requires DualInv(p, d, star) && Matching(p, now)
    requires star.Keys <= now.Keys && forall c :: Starred(star, c) ==> Starred(now, c)
    requires forall r :: r in now ==> Entry(p, d, r, now[r]) == 0
    ensures DualInv(p, d, now)
  {}

  lemma AddStar(p: Problem, d: Potentials, star: map<int, int>, r: int, c: int)
    requires DualInv(p, d, star) && 0 <= r < p.rows && 0 <= c < p.cols && Entry(p, d, r, c) == 0
    requires r !in star && !Starred(star, c)
    ensures DualInv(p, d, star[r := c])
    ensures Columns(star[r := c]) == Columns(star) + {c}
  {
    var now := star[r := c];
    ColumnsWithout(now, r);
    assert now - {r} == star;
    forall e | Starred(star, e) ensures Starred(now, e) {
      assert e in Columns(now);
    }
    MoreStars(p, d, star, now);
  }

  /** The finished walk is a matching with one more star, over a superset of the lines. */
  lemma {:induction false} WalkEnd(p: Problem, d: Potentials, star: map<int, int>, k: Cover, start: int,
                                   now: map<int, int>, col: int)
    requires DualInv(p, d, star)
    requires WalkInv(p, d, star, k, start, now, p.rows, col)
    ensures DualInv(p, d, now)
    ensures |now| == |star| + 1
    ensures forall c :: Starred(star, c) ==> Starred(now, c)
  {
    assert |now.Keys| == |star.Keys| + 1;
    forall c | Starred(star, c) ensures Starred(now, c) {
      var r :| r in star && star[r] == c;
      assert Starred(now, star[r]);
    }
    MoreStars(p, d, star, now);
  }

  lemma CoveredStaysStarred(p: Problem, d: Potentials, star: map<int, int>, k: Cover, now: map<int, int>)
    requires DualInv(p, d, star) && CoverInv(p, d, star, k)
    requires forall c :: Starred(star, c) ==> Starred(now, c)
    ensures forall c :: c in k.cols ==> Starred(now, c)
  {}

  // ----- the answer

  /** The vector read off the stars. */
  ghost predicate ReadsOff(p: Problem, star: map<int, int>, a: seq<int>) {
    && |a| == p.rows
    && forall r :: 0 <= r < p.rows ==> a[r] == if r in star then star[r] else -1
  }

  lemma {:induction false} AssignedCount(p: Problem, star: map<int, int>, a: seq<int>, n: nat)
    requires p.Valid() && Matching(p, star) && ReadsOff(p, star, a) && n <= p.rows
    ensures Assigned(a[..n]) == |StarredBelow(star, n)|
    decreases n
  {
    if n == 0 {
      assert StarredBelow(star, 0) == {};
    } else {
      AssignedCount(p, star, a, n - 1);
      assert a[..n][..n - 1] == a[..n - 1];
      OneMoreBelow(star, n - 1);
    }
  }

  ghost function StarredBelow(star: map<int, int>, n: int): set<int> {
    set r | r in star && r < n
  }

  lemma {:induction false} OneMoreBelow(star: map<int, int>, n: int)
    ensures |StarredBelow(star, n + 1)| == |StarredBelow(star, n)| + if n in star then 1 else 0
  {
    var before := StarredBelow(star, n);
    assert StarredBelow(star, n + 1) == if n in star then before + {n} else before;
  }

  ghost function Normalised(p: Problem, d: Potentials): Potentials
    requires Sized(p, d)
  {
    if p.rows <= p.cols then
      Potentials(seq(p.rows, r requires 0 <= r < p.rows => d.u[r] + d.top),
                 seq(p.cols, c requires 0 <= c < p.cols => d.v[c] - d.top), 0)
    else d
  }

  lemma StarsAreAssignment(p: Problem, star: map<int, int>, a: seq<int>)
    requires p.Valid() && Matching(p, star) && |star| == p.Size() && ReadsOff(p, star, a)
    ensures IsAssignment(a, p.rows, p.cols)
    ensures forall c :: Starred(star, c) ==> c in a
  {
    AssignedCount(p, star, a, p.rows);
    assert a[..p.rows] == a;
    assert StarredBelow(star, p.rows) == star.Keys;
    forall c | Starred(star, c) ensures c in a {
      var r :| r in star && star[r] == c;
      assert a[r] == c;
    }
  }

  /** A full set of stars read off the matrix is an optimal assignment. */
  lemma FullStarsOptimal(p: Problem, d: Potentials, star: map<int, int>, a: seq<int>)
    requires DualInv(p, d, star) && |star| == p.Size() && ReadsOff(p, star, a)
    ensures IsOptimal(p.cost, a, p.rows, p.cols)
  {
    var e := Normalised(p, d);
    StarsAreAssignment(p, star, a);
    forall r, c | 0 <= r < p.rows && 0 <= c < p.cols
      ensures Reduced(p.cost, e.u, e.v, r, c) == Entry(p, d, r, c)
    {}
    assert Feasible(p.cost, e.u, e.v) by {
      forall r, c | 0 <= r < p.rows && 0 <= c < p.cols ensures Reduced(p.cost, e.u, e.v, r, c) >= 0 {
        assert Entry(p, d, r, c) >= 0;
      }
    }
    assert Certifies(e.u, e.v, a);
    CertifiedIsOptimal(p.cost, e.u, e.v, a);
  }
}
