/** Products of bigit sequences computed column by column. */
module Convolution {
  import opened Arithmetic
  import opened Bigits

  function At(s: seq<Bigit>, i: int): Bigit
  {
    if 0 <= i < |s| then s[i] else 0
  }

  /** The terms `a[t] * b[k - t]` of column `k` with `t < n`. */
  function Column(a: seq<Bigit>, b: seq<Bigit>, k: nat, n: nat): nat
    requires n <= |a|
  {
    if n == 0 then 0 else Column(a, b, k, n - 1) + a[n - 1] * At(b, k - (n - 1))
  }

  /** The columns below `top`, each at its place. */
  function Columns(a: seq<Bigit>, b: seq<Bigit>, n: nat, top: nat): nat
    requires n <= |a|
  {
    if top == 0 then 0 else Columns(a, b, n, top - 1) + Column(a, b, top - 1, n) * Place(top - 1)
  }

  /** `b` moved up by `by` positions, cut off at `top`. */
  function Moved(b: seq<Bigit>, up: nat, top: nat): nat
  {
    if top == 0 then 0 else Moved(b, up, top - 1) + At(b, top - 1 - up) * Place(top - 1)
  }

  lemma {:induction false} MovedValue(b: seq<Bigit>, up: nat, top: nat)
    ensures top <= up ==> Moved(b, up, top) == 0
    ensures up <= top <= up + |b| ==> Moved(b, up, top) == Val(b[..top - up]) * Place(up)
    ensures up + |b| <= top ==> Moved(b, up, top) == Val(b) * Place(up)
  {
    if top == 0 {
      assert b[..0] == [];
    } else {
      var i := top - 1 - up;
      MovedValue(b, up, top - 1);
      assert b[..|b|] == b;
      if 0 <= i < |b| {
        ValPrefix(b, i);
        PowAdd(BASE, up, i);
        Distribute(Val(b[..i]), b[i], Place(i), Place(up));
      } else if top == up {
        assert b[..0] == [];
      }
    }
  }

  lemma {:induction false} AddRow(a: seq<Bigit>, b: seq<Bigit>, n: nat, top: nat)
    requires n < |a|
    ensures Columns(a, b, n + 1, top) == Columns(a, b, n, top) + a[n] * Moved(b, n, top)
  {
    if top == 0 {
    } else {
      var k := top - 1;
      AddRow(a, b, n, k);
      RowArithmetic(Column(a, b, k, n), a[n], At(b, k - n), Place(k), Moved(b, n, k));
    }
  }

  lemma RowArithmetic(col: int, x: int, y: int, p: int, m: int)
    ensures (col + x * y) * p + x * m == col * p + x * (m + y * p)
  {
    assert (x * y) * p == x * (y * p);
  }

  /** All columns together are the product. */
  lemma {:induction false} ColumnsAreProduct(a: seq<Bigit>, b: seq<Bigit>, n: nat, top: nat)
    requires n <= |a| && n + |b| <= top
    ensures Columns(a, b, n, top) == Val(a[..n]) * Val(b)
  {
    if n == 0 {
      NoColumns(a, b, top);
    } else {
      ColumnsAreProduct(a, b, n - 1, top);
      AddRow(a, b, n - 1, top);
      MovedValue(b, n - 1, top);
      ValPrefix(a, n - 1);
      RowProduct(Val(a[..n - 1]), a[n - 1], Place(n - 1), Val(b));
    }
  }

  lemma RowProduct(v: int, x: int, p: int, w: int)
    ensures v * w + x * (w * p) == (v + x * p) * w
  {
    assert x * (w * p) == (x * p) * w;
  }

  lemma {:induction false} NoColumns(a: seq<Bigit>, b: seq<Bigit>, top: nat)
    ensures Columns(a, b, 0, top) == 0
  {
    if top > 0 {
      NoColumns(a, b, top - 1);
    }
  }

  /** Terms past the diagonal contribute nothing. */
  lemma {:induction false} ColumnTail(a: seq<Bigit>, b: seq<Bigit>, k: nat, n: nat)
    requires k + 1 <= n <= |a|
    ensures Column(a, b, k, n) == Column(a, b, k, k + 1)
  {
    if n > k + 1 {
      ColumnTail(a, b, k, n - 1);
    }
  }

  /** Terms before the square contribute nothing. */
  lemma {:induction false} ColumnHead(a: seq<Bigit>, b: seq<Bigit>, k: nat, n: nat)
    requires n <= |a| && n + |b| <= k + 1
    ensures Column(a, b, k, n) == 0
  {
    if n > 0 {
      ColumnHead(a, b, k, n - 1);
    }
  }

  /** Each term is the product of two bigits, so a column of `n` terms stays below `n * 2^64`. */
  lemma {:induction false} ColumnBound(a: seq<Bigit>, b: seq<Bigit>, k: nat, n: nat)
    requires n <= |a|
    ensures Column(a, b, k, n) <= n * (WORD64 - BASE)
  {
    if n > 0 {
      ColumnBound(a, b, k, n - 1);
      TermBound(a[n - 1], At(b, k - (n - 1)));
    }
  }

  lemma TermBound(x: Bigit, y: Bigit)
    ensures 0 <= x * y <= WORD64 - BASE
  {
    MulLe(x, BASE - 1, y);
    MulLe(0, x, y);
  }
}
