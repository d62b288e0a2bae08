/** The Boolean matrix substrate, reduced to what the solver uses: a square
    Boolean matrix is the set of coordinates of its true entries, and the
    any-pair semiring product and entrywise OR are defined on those sets. */
module BoolMatrices {

  /** The coordinates `(row, column)` of the true entries; `|m|` is `nvals`. */
  type Matrix = set<(int, int)>

  /** Every true entry of `m` lies inside an `n` x `n` matrix. */
  predicate Within(m: Matrix, n: nat) {
    forall p :: p in m ==> 0 <= p.0 < n && 0 <= p.1 < n
  }

  /** All coordinates of an `n` x `n` matrix. */
  function Grid(n: nat): Matrix {
    set i, j | 0 <= i < n && 0 <= j < n :: (i, j)
  }

  /** The `n` x `n` identity matrix (`Matrix.from_coo(range(n), range(n), True)`). */
  function Identity(n: nat): (m: Matrix)
    ensures Within(m, n)
    ensures forall i :: 0 <= i < n ==> (i, i) in m
    ensures forall p :: p in m ==> p.0 == p.1
  {
    set i | 0 <= i < n :: (i, i)
  }

  /** The Boolean (any-pair) product: entry `(i, k)` is true iff some `j`
      has `a[i, j]` and `b[j, k]` true. */
  function Mul(a: Matrix, b: Matrix): Matrix {
    set x, y | x in a && y in b && x.1 == y.0 :: (x.0, y.1)
  }

  lemma MulMembers(a: Matrix, b: Matrix, i: int, k: int)
    ensures (i, k) in Mul(a, b) <==> exists j :: (i, j) in a && (j, k) in b
  {
    if (i, k) in Mul(a, b) {
      var x, y :| x in a && y in b && x.1 == y.0 && (i, k) == (x.0, y.1);
      assert (i, x.1) in a && (x.1, k) in b;
    }
    if exists j :: (i, j) in a && (j, k) in b {
      var j :| (i, j) in a && (j, k) in b;
      assert (i, k) == ((i, j).0, (j, k).1);
    }
  }

  /** The product grows with its operands. */
  lemma MulMonotone(a: Matrix, a': Matrix, b: Matrix, b': Matrix)
    requires a <= a' && b <= b'
    ensures Mul(a, b) <= Mul(a', b')
  {
  }

  /** The product of two `n` x `n` matrices is `n` x `n`. */
  lemma MulWithin(a: Matrix, b: Matrix, n: nat)
    requires Within(a, n) && Within(b, n)
    ensures Within(Mul(a, b), n)
  {
  }

  /** A superset with no more true entries is the same matrix. */
  lemma SubsetCard(a: Matrix, b: Matrix)
    requires a <= b
    ensures |a| <= |b|
    ensures |a| == |b| ==> a == b
  {
    assert b == a + (b - a);
    assert a * (b - a) == {};
  }

  /** An `n` x `n` matrix has at most `|Grid(n)|` true entries. */
  lemma WithinCard(m: Matrix, n: nat)
    requires Within(m, n)
    ensures |m| <= |Grid(n)|
  {
    forall p | p in m ensures p in Grid(n) {
      assert p == (p.0, p.1);
    }
    SubsetCard(m, Grid(n));
  }

  function Row(i: int, n: nat): Matrix {
    set j | 0 <= j < n :: (i, j)
  }

  function Rows(k: nat, n: nat): Matrix {
    set i, j | 0 <= i < k && 0 <= j < n :: (i, j)
  }

  lemma {:induction false} RowCard(i: int, n: nat)
    ensures |Row(i, n)| == n
  {
    if n > 0 {
      RowCard(i, n - 1);
      assert Row(i, n) == Row(i, n - 1) + {(i, n - 1)};
      assert (i, n - 1) !in Row(i, n - 1);
    }
  }

  /** The first `k` rows are the first `k - 1` rows and, apart from them, row `k - 1`. */
  lemma RowsSplit(k: nat, n: nat)
    requires k > 0
    ensures Rows(k, n) == Rows(k - 1, n) + Row(k - 1, n)
    ensures Rows(k - 1, n) * Row(k - 1, n) == {}
  {
    forall q | q in Rows(k, n) ensures q in Rows(k - 1, n) + Row(k - 1, n) {
      assert q == (q.0, q.1);
    }
  }

  lemma {:induction false} RowsCard(k: nat, n: nat)
    ensures |Rows(k, n)| == k * n
  {
    if k > 0 {
      RowsCard(k - 1, n);
      RowCard(k - 1, n);
      RowsSplit(k, n);
      assert |Rows(k, n)| == |Rows(k - 1, n)| + |Row(k - 1, n)|;
      assert k * n == (k - 1) * n + n;
    }
  }

  /** An `n` x `n` matrix has `n * n` entries. */
  lemma GridCard(n: nat)
    ensures |Grid(n)| == n * n
  {
    RowsCard(n, n);
    assert Grid(n) == Rows(n, n);
  }
}
