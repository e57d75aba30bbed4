/** The exact index bookkeeping around the symplectic decompositions: the
    symplectic form Omega = [[0, I], [-I, 0]] (`sympmat`) and the permutation
    from the interleaved quadrature order x1 p1 x2 p2 ... to the block order
    x1 x2 ... p1 p2 ... (`xpxp_to_xxpp`). */
module Symplectic {
  import opened Common

  ghost predicate IsMatrix<T>(m: seq<seq<T>>, rows: nat, cols: nat)
  {
    |m| == rows && forall a :: 0 <= a < rows ==> |m[a]| == cols
  }

  /** np.identity(n) */
  function Identity(n: nat): (id: seq<seq<int>>)
    ensures IsMatrix(id, n, n)
  {
    seq(n, a => seq(n, b => if a == b then 1 else 0))
  }

  /** np.zeros_like(I) */
  function ZeroMatrix(n: nat): (z: seq<seq<int>>)
    ensures IsMatrix(z, n, n)
  {
    seq(n, _ => Zeros(n))
  }

  function Negate(m: seq<seq<int>>): (r: seq<seq<int>>)
    ensures |r| == |m|
    ensures forall a :: 0 <= a < |m| ==> |r[a]| == |m[a]|
  {
    seq(|m|, a requires 0 <= a < |m| => seq(|m[a]|, b requires 0 <= b < |m[a]| => -m[a][b]))
  }

  /** np.block([[p, q], [r, s]]) for four n-by-n blocks. */
  function Block(p: seq<seq<int>>, q: seq<seq<int>>, r: seq<seq<int>>, s: seq<seq<int>>, n: nat): (m: seq<seq<int>>)
    requires IsMatrix(p, n, n) && IsMatrix(q, n, n) && IsMatrix(r, n, n) && IsMatrix(s, n, n)
    ensures IsMatrix(m, 2 * n, 2 * n)
  {
    seq(2 * n, a requires 0 <= a < 2 * n => if a < n then p[a] + q[a] else r[a - n] + s[a - n])
  }

  /** sympmat(N): the symplectic form of N modes in block order. Row a of the
      x block has its single 1 in column a + N, row N + a of the p block its
      single -1 in column a. */
  function Sympmat(n: nat): (omega: seq<seq<int>>)
    ensures IsMatrix(omega, 2 * n, 2 * n)
    ensures forall a, b :: 0 <= a < 2 * n && 0 <= b < 2 * n ==>
      omega[a][b] == if a < n && b == a + n then 1 else if n <= a && b == a - n then -1 else 0
  {
    var id := Identity(n);
    var o := ZeroMatrix(n);
    Block(o, id, Negate(id), o, n)
  }

  /** Partner column of row a in Omega: the only column where row a is nonzero. */
  function Partner(n: nat, a: nat): nat
  {
    if a < n then a + n else a - n
  }

  /** Sum over c < k of m1[a][c] * m2[c][b]: one entry of a matrix product, partially summed. */
  function ProductEntry(m1: seq<seq<int>>, m2: seq<seq<int>>, a: nat, b: nat, k: nat): int
    requires a < |m1| && k <= |m1[a]| && k <= |m2|
    requires forall c :: 0 <= c < k ==> b < |m2[c]|
    decreases k
  {
    if k == 0 then 0 else ProductEntry(m1, m2, a, b, k - 1) + m1[a][k - 1] * m2[k - 1][b]
  }

  /** The partial product of row a of Omega with any column only sees the partner column. */
  lemma {:induction false} SympmatRowProduct(n: nat, m: seq<seq<int>>, a: nat, b: nat, k: nat)
    requires a < 2 * n && k <= 2 * n && IsMatrix(m, 2 * n, 2 * n) && b < 2 * n
    ensures ProductEntry(Sympmat(n), m, a, b, k) ==
      if Partner(n, a) < k then Sympmat(n)[a][Partner(n, a)] * m[Partner(n, a)][b] else 0
  {
    if k > 0 {
      SympmatRowProduct(n, m, a, b, k - 1);
    }
  }

  /** Omega * Omega == -I: Omega is a complex structure, so Omega^T == Omega^{-1} == -Omega. */
  lemma {:induction false} SympmatSquare(n: nat, a: nat, b: nat)
    requires a < 2 * n && b < 2 * n
    ensures ProductEntry(Sympmat(n), Sympmat(n), a, b, 2 * n) == if a == b then -1 else 0
  {
    SympmatRowProduct(n, Sympmat(n), a, b, 2 * n);
  }

  /** Omega is antisymmetric. */
  lemma {:induction false} SympmatAntisymmetric(n: nat, a: nat, b: nat)
    requires a < 2 * n && b < 2 * n
    ensures Sympmat(n)[a][b] == -Sympmat(n)[b][a]
  {
  }

  /** ind = np.arange(2n).reshape(-1, 2).T.flatten(): the even positions
      0, 2, ..., 2n-2 followed by the odd ones 1, 3, ..., 2n-1. */
  function XxppIndex(n: nat): (ind: seq<nat>)
    ensures |ind| == 2 * n
  {
    seq(2 * n, p requires 0 <= p < 2 * n => if p < n then 2 * p else 2 * (p - n) + 1)
  }

  /** The same permutation read as numpy builds it: entry p of the flattened
      transpose is row p % n, column p / n of the n-by-2 reshape, whose row r is [2r, 2r+1]. */
  lemma {:induction false} XxppIndexIsFlattenedTranspose(n: nat, p: nat)
    requires p < 2 * n
    ensures XxppIndex(n)[p] == 2 * (p % n) + p / n
  {
    if p < n {
      assert p % n == p && p / n == 0;
    } else {
      DivModShift(p - n, n);
    }
  }

  lemma {:induction false} DivModShift(k: nat, n: nat)
    requires k < n
    ensures (n + k) % n == k && (n + k) / n == 1
  {
  }

  /** Where index q of the interleaved order lands in the block order. */
  function XxppPosition(n: nat, q: nat): nat
  {
    if q % 2 == 0 then q / 2 else n + q / 2
  }

  /** XxppIndex(n) is a permutation of [0, 2n) whose inverse is XxppPosition. */
  lemma {:induction false} XxppIndexIsPermutation(n: nat)
    ensures forall p :: 0 <= p < 2 * n ==> XxppIndex(n)[p] < 2 * n && XxppPosition(n, XxppIndex(n)[p]) == p
    ensures forall q :: 0 <= q < 2 * n ==> XxppPosition(n, q) < 2 * n && XxppIndex(n)[XxppPosition(n, q)] == q
  {
    var ind := XxppIndex(n);
    forall p | 0 <= p < 2 * n
      ensures ind[p] < 2 * n && XxppPosition(n, ind[p]) == p
    {
      if p < n {
        assert ind[p] == 2 * p;
      } else {
        assert ind[n + (p - n)] == 2 * (p - n) + 1;
      }
    }
  }

  /** xpxp_to_xxpp on a one-dimensional array: S[ind]. */
  function XpxpToXxppVector<T>(v: seq<T>): (r: Result<seq<T>, Error>)
    ensures r.Failure? <==> |v| % 2 != 0
    ensures r.Failure? ==> r.error == NotEvenDimensional
    ensures r.Success? ==> (|r.value| == |v| &&
      forall q :: 0 <= q < |v| ==> XxppPosition(|v| / 2, q) < |v| && r.value[XxppPosition(|v| / 2, q)] == v[q])
  {
    if |v| % 2 != 0 then Failure(NotEvenDimensional)
    else
      var n := |v| / 2;
      var ind := XxppIndex(n);
      var r := seq(2 * n, p requires 0 <= p < 2 * n => v[ind[p]]);
      XxppIndexIsPermutation(n);
      Success(r)
  }

  /** xpxp_to_xxpp on a two-dimensional array: S[:, ind][ind]. The program
      checks the parity of the first dimension before squareness. */
  function XpxpToXxppMatrix<T>(s: seq<seq<T>>, cols: nat): (r: Result<seq<seq<T>>, Error>)
    requires IsMatrix(s, |s|, cols)
    ensures r.Failure? <==> |s| % 2 != 0 || |s| != cols
    ensures |s| % 2 != 0 ==> r == Failure(NotEvenDimensional)
    ensures |s| % 2 == 0 && |s| != cols ==> r == Failure(NotSquare)
    ensures r.Success? ==> (IsMatrix(r.value, |s|, |s|) &&
      forall a, b :: 0 <= a < |s| && 0 <= b < |s| ==>
        XxppPosition(|s| / 2, a) < |s| && XxppPosition(|s| / 2, b) < |s| &&
        r.value[XxppPosition(|s| / 2, a)][XxppPosition(|s| / 2, b)] == s[a][b])
  {
    if |s| % 2 != 0 then Failure(NotEvenDimensional)
    else if |s| != cols then Failure(NotSquare)
    else
      var n := |s| / 2;
      var ind := XxppIndex(n);
      var columns := seq(2 * n, a requires 0 <= a < 2 * n => seq(2 * n, b requires 0 <= b < 2 * n => s[a][ind[b]]));
      var rows := seq(2 * n, a requires 0 <= a < 2 * n => columns[ind[a]]);
      XxppIndexIsPermutation(n);
      Success(rows)
  }

  /** The symplectic form in interleaved order: n diagonal blocks [[0, 1], [-1, 0]]. */
  function Interleaved(n: nat): (j: seq<seq<int>>)
    ensures IsMatrix(j, 2 * n, 2 * n)
  {
    seq(2 * n, a => seq(2 * n, b => if a % 2 == 0 && b == a + 1 then 1 else if a % 2 == 1 && b + 1 == a then -1 else 0))
  }

  /** One entry of the interleaved form read at reordered positions. */
  lemma {:induction false} InterleavedEntry(n: nat, x: nat, y: nat)
    requires x < 2 * n && y < 2 * n
    ensures Interleaved(n)[XxppIndex(n)[x]][XxppIndex(n)[y]] == Sympmat(n)[x][y]
  {
    var a, b := XxppIndex(n)[x], XxppIndex(n)[y];
    assert a == if x < n then 2 * x else 2 * (x - n) + 1;
    assert b == if y < n then 2 * y else 2 * (y - n) + 1;
  }

  /** Reordering the interleaved form to block order gives sympmat: the two
      orderings describe the same symplectic structure. */
  lemma {:induction false} InterleavedToBlock(n: nat)
    ensures XpxpToXxppMatrix(Interleaved(n), 2 * n) == Success(Sympmat(n))
  {
    var r := XpxpToXxppMatrix(Interleaved(n), 2 * n);
    assert r.Success?;
    forall x | 0 <= x < 2 * n
      ensures r.value[x] == Sympmat(n)[x]
    {
      forall y | 0 <= y < 2 * n
        ensures r.value[x][y] == Sympmat(n)[x][y]
      {
        ReorderedEntry(n, r.value, x, y);
        InterleavedEntry(n, x, y);
      }
    }
    assert r.value == Sympmat(n);
  }

  lemma {:induction false} ReorderedEntry(n: nat, m: seq<seq<int>>, x: nat, y: nat)
    requires x < 2 * n && y < 2 * n
    requires XpxpToXxppMatrix(Interleaved(n), 2 * n) == Success(m)
    ensures m[x][y] == Interleaved(n)[XxppIndex(n)[x]][XxppIndex(n)[y]]
  {
    XxppIndexIsPermutation(n);
    var a, b := XxppIndex(n)[x], XxppIndex(n)[y];
    assert XxppPosition(n, a) == x && XxppPosition(n, b) == y;
  }
}
