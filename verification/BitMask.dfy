/** The 32-bit masks of the matcher: the GET/SET/CLEAR macros on one word and on an
    array of words, each tied to the plain set or partial map it stands for. */
module BitMask {

  const DIM_FINGER: int := 32

  /** Bit `i` of a word. The index is a bv5, so every shift is in range. */
  predicate Bit(m: bv32, i: bv5) { (m >> i) & 1 == 1 }

  function SetAt(m: bv32, i: bv5): bv32 { m | (1 << i) }

  function ClearAt(m: bv32, i: bv5): bv32 { m & !(1 << i) }

  lemma OneBit(i: bv5, j: bv5)
    ensures Bit(1 << i, j) == (i == j)
  {}

  lemma ZeroBit(i: bv5)
    ensures !Bit(0, i)
  {}

  lemma SetOther(m: bv32, i: bv5, j: bv5)
    requires i != j
    ensures Bit(SetAt(m, i), j) == Bit(m, j)
  {
    if Bit(m, j) {} else { OneBit(i, j); }
  }

  lemma ClearOther(m: bv32, i: bv5, j: bv5)
    requires i != j
    ensures Bit(ClearAt(m, i), j) == Bit(m, j)
  {
    if Bit(m, j) { OneBit(i, j); } else {}
  }

  lemma SameBit(m: bv32, i: bv5)
    ensures Bit(SetAt(m, i), i) && !Bit(ClearAt(m, i), i)
  {}

  lemma IndexDistinct(x: int, y: int)
    requires 0 <= x < 32 && 0 <= y < 32 && x != y
    ensures x as bv5 != y as bv5
  {
    assert (x as bv5) as int == x;
  }

  predicate Get1(m: bv32, x: int)
    requires 0 <= x < 32
  {
    Bit(m, x as bv5)
  }

  function Set1(m: bv32, x: int): bv32
    requires 0 <= x < 32
  {
    SetAt(m, x as bv5)
  }

  function Clear1(m: bv32, x: int): bv32
    requires 0 <= x < 32
  {
    ClearAt(m, x as bv5)
  }

  /** SET1 turns on exactly the named bit. */
  lemma SetBit(m: bv32, x: int, y: int)
    requires 0 <= x < 32 && 0 <= y < 32
    ensures Get1(Set1(m, x), y) == (x == y || Get1(m, y))
  {
    if x == y {
      SameBit(m, x as bv5);
    } else {
      assert x as bv5 != y as bv5 by { IndexDistinct(x, y); }
      SetOther(m, x as bv5, y as bv5);
    }
  }

  /** CLEAR1 turns off exactly the named bit. */
  lemma ClearBit(m: bv32, x: int, y: int)
    requires 0 <= x < 32 && 0 <= y < 32
    ensures Get1(Clear1(m, x), y) == (x != y && Get1(m, y))
  {
    if x == y {
      SameBit(m, x as bv5);
    } else {
      assert x as bv5 != y as bv5 by { IndexDistinct(x, y); }
      ClearOther(m, x as bv5, y as bv5);
    }
  }

  /** `col_t`: one word used as a set of line numbers. */
  class Mask {
    var bits: bv32
    ghost var S: set<int>

    ghost predicate Valid()
      reads this
    {
      && (forall x :: x in S ==> 0 <= x < 32)
      && (forall x {:trigger Get1(bits, x)} :: 0 <= x < 32 ==> (Get1(bits, x) <==> x in S))
    }

    constructor ()
      ensures Valid() && S == {}
    {
      bits, S := 0, {};
      new;
      forall x | 0 <= x < 32 ensures !Get1(bits, x) { ZeroBit(x as bv5); }
    }

    method Reset()
      modifies this
      ensures Valid() && S == {}
    {
      bits, S := 0, {};
      forall x | 0 <= x < 32 ensures !Get1(bits, x) { ZeroBit(x as bv5); }
    }

    method Get(x: int) returns (b: bool)
      requires Valid() && 0 <= x < 32
      ensures b <==> x in S
    {
      b := Get1(bits, x);
    }

    method Set(x: int)
      requires Valid() && 0 <= x < 32
      modifies this
      ensures Valid() && S == old(S) + {x}
    {
      bits, S := Set1(bits, x), S + {x};
      forall y | 0 <= y < 32 ensures Get1(bits, y) <==> y in S { SetBit(old(bits), x, y); }
    }

    method Clear(x: int)
      requires Valid() && 0 <= x < 32
      modifies this
      ensures Valid() && S == old(S) - {x}
    {
      bits, S := Clear1(bits, x), S - {x};
      forall y | 0 <= y < 32 ensures Get1(bits, y) <==> y in S { ClearBit(old(bits), x, y); }
    }
  }

  /** `mat_t`: one word per column, one bit per row. The matcher never keeps two bits
      in one row, so the matrix stands for a partial map from rows to columns. */
  class MaskMatrix {
    var cols: seq<bv32>
    ghost var M: map<int, int>

    ghost predicate Valid()
      reads this
    {
      && |cols| == 32
      && (forall r :: r in M ==> 0 <= r < 32 && 0 <= M[r] < 32)
      && (forall r, c {:trigger Get1(cols[c], r)} :: 0 <= r < 32 && 0 <= c < 32 ==>
            (Get1(cols[c], r) <==> r in M && M[r] == c))
    }

    constructor ()
      ensures Valid() && M == map[]
    {
      cols, M := seq(32, _ => 0), map[];
      new;
      forall r, c | 0 <= r < 32 && 0 <= c < 32 ensures !Get1(cols[c], r) { ZeroBit(r as bv5); }
    }

    method Reset()
      modifies this
      ensures Valid() && M == map[]
    {
      cols, M := seq(32, _ => 0), map[];
      forall r, c | 0 <= r < 32 && 0 <= c < 32 ensures !Get1(cols[c], r) { ZeroBit(r as bv5); }
    }

    method CopyFrom(src: MaskMatrix)
      requires src.Valid() && src != this
      modifies this
      ensures Valid() && M == src.M
    {
      cols, M := src.cols, src.M;
    }

    method Get(r: int, c: int) returns (b: bool)
      requires Valid() && 0 <= r < 32 && 0 <= c < 32
      ensures b <==> r in M && M[r] == c
    {
      b := Get1(cols[c], r);
    }

    method Set(r: int, c: int)
      requires Valid() && 0 <= r < 32 && 0 <= c < 32 && r !in M
      modifies this
      ensures Valid() && M == old(M)[r := c]
    {
      ghost var was := cols;
      cols := cols[c := Set1(cols[c], r)];
      M := M[r := c];
      forall y, k | 0 <= y < 32 && 0 <= k < 32 ensures Get1(cols[k], y) <==> y in M && M[y] == k {
        assert Get1(was[k], y) <==> y in old(M) && old(M)[y] == k;
        if k == c { SetBit(was[c], r, y); }
      }
    }

    method Clear(r: int, c: int)
      requires Valid() && 0 <= c < 32 && r in M && M[r] == c
      modifies this
      ensures Valid() && M == old(M) - {r}
    {
      ghost var was := cols;
      cols := cols[c := Clear1(cols[c], r)];
      M := M - {r};
      forall y, k | 0 <= y < 32 && 0 <= k < 32 ensures Get1(cols[k], y) <==> y in M && M[y] == k {
        assert Get1(was[k], y) <==> y in old(M) && old(M)[y] == k;
        if k == c { ClearBit(was[c], r, y); }
      }
    }
  }
}
