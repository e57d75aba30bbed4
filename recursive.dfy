/** The recursive hafnian of `recursive_hafnian` / `solve`: the strict lower
    triangle of the matrix is packed into a list of truncated polynomials
    (coefficients of degree 0..n), and `solve` recurses on the list with the
    first two indices deleted, once as is and once with the edge between them
    contracted. One matrix is modelled at a time; the batch axis of the
    program applies the same computation to every matrix independently. */
module Recursive {
  import opened Common

  // ---------------------------------------------------------------------------
  // Triangular packing

  /** j * (j - 1) / 2 (TriClosedForm): where row j of the strict lower
      triangle starts. The methods below index with Tri where the program
      writes the closed form. */
  function Tri(j: nat): nat
  {
    if j == 0 then 0 else Tri(j - 1) + (j - 1)
  }

  lemma {:induction false} TriClosedForm(j: nat)
    ensures 2 * Tri(j) == j * (j - 1)
    ensures Tri(j) == j * (j - 1) / 2
  {
    if j > 0 {
      TriClosedForm(j - 1);
      assert j * (j - 1) == (j - 1) * (j - 2) + 2 * (j - 1);
    }
  }

  /** Rows before row b end before row b starts: Tri(a) + a <= Tri(b) when a < b. */
  lemma {:induction false} TriGrows(a: nat, b: nat)
    requires a < b
    ensures Tri(a) + a <= Tri(b)
    decreases b - a
  {
    if a + 1 < b {
      TriGrows(a + 1, b);
    }
  }

  /** Where recursive_hafnian stores entry (j, k), k < j: j(j-1)/2 + k. */
  function Packed(j: nat, k: nat): nat
  {
    Tri(j) + k
  }

  /** Position t of the packed list as (row, column) of the strict lower triangle. */
  function Unpack(t: nat): (jk: (nat, nat))
    ensures jk.1 < jk.0 && Tri(jk.0) + jk.1 == t
  {
    UnpackFrom(t, 1)
  }

  /** Position t counted from the start of row j. */
  function UnpackFrom(t: nat, j: nat): (jk: (nat, nat))
    requires j >= 1
    ensures j <= jk.0 && jk.1 < jk.0 && Tri(jk.0) + jk.1 == Tri(j) + t
    decreases t
  {
    if t < j then (j, t) else UnpackFrom(t - j, j + 1)
  }

  /** Two cells of the strict lower triangle never share a packed position. */
  lemma {:induction false} PackInjective(j: nat, k: nat, j': nat, k': nat)
    requires k < j && k' < j' && Tri(j) + k == Tri(j') + k'
    ensures j == j' && k == k'
  {
    if j < j' {
      TriGrows(j, j');
    } else if j' < j {
      TriGrows(j', j);
    }
  }

  lemma {:induction false} UnpackOf(j: nat, k: nat)
    requires k < j
    ensures Unpack(Tri(j) + k) == (j, k)
  {
    var jk := Unpack(Tri(j) + k);
    assert jk.1 < jk.0 && Tri(jk.0) + jk.1 == Tri(j) + k;
    PackInjective(j, k, jk.0, jk.1);
  }

  /** Every cell of a triangle of m rows packs below Tri(m), and every
      position below Tri(m) unpacks to a cell of those rows. */
  lemma {:induction false} PackRange(j: nat, k: nat, m: nat)
    requires k < j < m
    ensures Tri(j) + k < Tri(m)
  {
    TriGrows(j, m);
  }

  lemma {:induction false} UnpackRange(t: nat, m: nat)
    requires t < Tri(m)
    ensures Unpack(t).0 < m
  {
    var (j, k) := Unpack(t);
    if j >= m {
      if j > m {
        TriGrows(m, j);
      }
    }
  }

  /** The packing z[j(j-1)/2 + k] = A[j][k], 0 <= k < j < 2n, is a bijection
      onto [0, n(2n-1)). */
  lemma {:induction false} PackingIsBijection(n: nat)
    ensures Tri(2 * n) == n * (2 * n - 1)
    ensures forall j, k :: 0 <= k < j < 2 * n ==>
      Packed(j, k) < Tri(2 * n) && Unpack(Packed(j, k)) == (j, k)
    ensures forall t :: 0 <= t < Tri(2 * n) ==>
      Unpack(t).0 < 2 * n && Tri(Unpack(t).0) + Unpack(t).1 == t
  {
    TriClosedForm(2 * n);
    assert (2 * n) * (2 * n - 1) == 2 * (n * (2 * n - 1));
    forall j, k | 0 <= k < j < 2 * n
      ensures Packed(j, k) < Tri(2 * n) && Unpack(Packed(j, k)) == (j, k)
    {
      PackRange(j, k, 2 * n);
      UnpackOf(j, k);
    }
    forall t | 0 <= t < Tri(2 * n)
      ensures Unpack(t).0 < 2 * n
    {
      UnpackRange(t, 2 * n);
    }
  }

  // ---------------------------------------------------------------------------
  // Truncated polynomials: coefficient lists of degree 0..n. The
  // specification functions read coefficients and cells through Coef and
  // Cell, which pad with zeros, so they are total; the methods work on lists
  // of exactly n + 1 coefficients, where the padding never shows.

  ghost predicate IsPoly(p: seq<int>, n: nat)
  {
    |p| == n + 1
  }

  ghost predicate IsPolyList(b: seq<seq<int>>, n: nat)
  {
    forall t :: 0 <= t < |b| ==> |b[t]| == n + 1
  }

  /** Coefficient t of p, zero beyond its length. */
  function Coef(p: seq<int>, t: int): int
  {
    if 0 <= t < |p| then p[t] else 0
  }

  /** Cell t of b, empty beyond its length. */
  function Cell(b: seq<seq<int>>, t: nat): seq<int>
  {
    if t < |b| then b[t] else []
  }

  function AddPoly(p: seq<int>, q: seq<int>, n: nat): (r: seq<int>)
    ensures |r| == n + 1
  {
    seq(n + 1, t => Coef(p, t) + Coef(q, t))
  }

  /** Sum over u < count of p[u] * q[t - 1 - u]: the coefficient of degree t
      of x * p * q, summed over the first count terms. */
  function ConvSum(p: seq<int>, q: seq<int>, t: nat, count: nat): int
  {
    if count == 0 then 0 else ConvSum(p, q, t, count - 1) + Coef(p, count - 1) * Coef(q, t - count)
  }

  /** x * p * q, truncated at degree n: the update e[u + v + 1] += p[u] * q[v]
      over u < n, v < n - u. */
  function ShiftMul(p: seq<int>, q: seq<int>, n: nat): (r: seq<int>)
    ensures |r| == n + 1
  {
    seq(n + 1, t requires 0 <= t < n + 1 => ConvSum(p, q, t, t))
  }

  /** The polynomial with constant term a: what z[:, ind + k, 0] = A[:, j, k] writes. */
  function Const(a: int, n: nat): (p: seq<int>)
    ensures |p| == n + 1
  {
    [a] + Zeros(n)
  }

  // ---------------------------------------------------------------------------
  // The specification of solve

  /** b with the first two indices deleted: entry (j, k) of the result is
      entry (j + 2, k + 2) of b. */
  function MinorAt(b: seq<seq<int>>, t: nat): seq<int>
  {
    var jk := Unpack(t);
    Cell(b, Tri(jk.0 + 2) + jk.1 + 2)
  }

  function Minor(b: seq<seq<int>>, s: nat): (c: seq<seq<int>>)
    requires s >= 2
    ensures |c| == Tri(s - 2)
  {
    seq(Tri(s - 2), t requires 0 <= t < Tri(s - 2) => MinorAt(b, t))
  }

  /** The contraction of the edge between indices 0 and 1 adds to entry
      (j, k) of the minor x * (b(j+2, 0) * b(k+2, 1) + b(k+2, 0) * b(j+2, 1)). */
  function CrossAt(b: seq<seq<int>>, n: nat, j: nat, k: nat): (p: seq<int>)
    ensures |p| == n + 1
  {
    AddPoly(ShiftMul(Cell(b, Tri(j + 2)), Cell(b, Tri(k + 2) + 1), n),
            ShiftMul(Cell(b, Tri(k + 2)), Cell(b, Tri(j + 2) + 1), n), n)
  }

  function ContractAt(b: seq<seq<int>>, n: nat, t: nat): (p: seq<int>)
    ensures |p| == n + 1
  {
    AddPoly(MinorAt(b, t), CrossAt(b, n, Unpack(t).0, Unpack(t).1), n)
  }

  function Contract(b: seq<seq<int>>, s: nat, n: nat): (c: seq<seq<int>>)
    requires s >= 2
    ensures |c| == Tri(s - 2)
  {
    seq(Tri(s - 2), t requires 0 <= t < Tri(s - 2) => ContractAt(b, n, t))
  }

  /** g extended by the edge between indices 0 and 1: g + x * g * b(1, 0). */
  function Extend(g: seq<int>, p: seq<int>, n: nat): (e: seq<int>)
    ensures |e| == n + 1
  {
    AddPoly(g, ShiftMul(g, p, n), n)
  }

  /** s is even: solve only ever sees even sizes, stepping down by two. */
  ghost predicate Even(s: nat)
    decreases s
  {
    s == 0 || (s >= 2 && Even(s - 2))
  }

  lemma {:induction false} EvenDouble(n: nat)
    ensures Even(2 * n)
  {
    if n > 0 {
      EvenDouble(n - 1);
    }
  }

  /** What solve(b, s, w, g, n) returns. */
  function SolveValue(b: seq<seq<int>>, s: nat, w: int, g: seq<int>, n: nat): (r: int)
    requires Even(s) && |b| == Tri(s)
    ensures w == 0 ==> r == 0
    decreases s
  {
    if s < 2 then w * Coef(g, n)
    else
      PackRange(1, 0, s);
      SolveValue(Minor(b, s), s - 2, -w, g, n)
      + SolveValue(Contract(b, s, n), s - 2, w, Extend(g, b[0], n), n)
  }

  /** A[a][b], zero outside the matrix. */
  function At(A: seq<seq<int>>, a: nat, b: nat): int
  {
    if a < |A| && b < |A[a]| then A[a][b] else 0
  }

  /** The list recursive_hafnian packs: entry (j, k) of the strict lower
      triangle as a constant polynomial, at position j(j-1)/2 + k. */
  function Pack(A: seq<seq<int>>, n: nat): (z: seq<seq<int>>)
    ensures |z| == Tri(2 * n)
  {
    seq(Tri(2 * n), t requires 0 <= t < Tri(2 * n) => Const(At(A, Unpack(t).0, Unpack(t).1), n))
  }

  /** The polynomial 1: g[:, 0] = 1. */
  function One(n: nat): (g: seq<int>)
    ensures |g| == n + 1
  {
    [1] + Zeros(n)
  }

  /** What recursive_hafnian returns for an even square matrix. */
  function RecursiveValue(A: seq<seq<int>>): (r: int)
    ensures |A| == 0 ==> r == 1
  {
    var n := |A| / 2;
    EvenDouble(n);
    SolveValue(Pack(A, n), 2 * n, 1, One(n), n)
  }

  // ---------------------------------------------------------------------------
  // Properties of the specification

  lemma {:induction false} MinorCell(b: seq<seq<int>>, s: nat, j: nat, k: nat)
    requires |b| == Tri(s) && k < j < s - 2
    ensures Packed(j, k) < Tri(s - 2) && Tri(j + 2) + k + 2 < |b|
    ensures Minor(b, s)[Packed(j, k)] == b[Tri(j + 2) + k + 2]
  {
    PackRange(j, k, s - 2);
    PackRange(j + 2, k + 2, s);
    UnpackOf(j, k);
  }

  /** Deleting two indices keeps every cell a polynomial of degree n, and so
      does contracting them. */
  lemma {:induction false} MinorIsPolyList(b: seq<seq<int>>, s: nat, n: nat)
    requires s >= 2 && |b| == Tri(s) && IsPolyList(b, n)
    ensures IsPolyList(Minor(b, s), n) && IsPolyList(Contract(b, s, n), n)
  {
    forall t | 0 <= t < Tri(s - 2)
      ensures |Minor(b, s)[t]| == n + 1
    {
      var jk := Unpack(t);
      UnpackRange(t, s - 2);
      MinorCell(b, s, jk.0, jk.1);
    }
  }

  /** The sign w only flips the result: solve(b, s, -w, g, n) == -solve(b, s, w, g, n). */
  lemma {:induction false} SolveValueNegate(b: seq<seq<int>>, s: nat, w: int, g: seq<int>, n: nat)
    requires Even(s) && |b| == Tri(s)
    ensures SolveValue(b, s, -w, g, n) == -SolveValue(b, s, w, g, n)
    decreases s
  {
    if s > 0 {
      PackRange(1, 0, s);
      SolveValueNegate(Minor(b, s), s - 2, w, g, n);
      SolveValueNegate(Contract(b, s, n), s - 2, w, Extend(g, b[0], n), n);
    }
  }

  // ---------------------------------------------------------------------------
  // The imperative algorithm

  /** recursive_hafnian: packs the strict lower triangle and calls solve. */
  method RecursiveHafnian(A: seq<seq<int>>, cols: nat) returns (r: Result<int, Error>)
    requires forall a :: 0 <= a < |A| ==> |A[a]| == cols
    ensures |A| != cols ==> r == Failure(NotSquare)
    ensures |A| == cols && |A| % 2 != 0 ==> r == Failure(OddOrder)
    ensures |A| == cols && |A| % 2 == 0 ==> r == Success(RecursiveValue(A))
  {
    if |A| != cols {
      return Failure(NotSquare);
    }
    if |A| % 2 != 0 {
      return Failure(OddOrder);
    }
    var n := |A| / 2;
    var z := PackLower(A, n);
    var g := Zeros(n + 1)[0 := 1];
    assert g == One(n);
    EvenDouble(n);
    var value := Solve(z, 2 * n, 1, g, n);
    return Success(value);
  }

  /** The packing loop of recursive_hafnian: z starts as zeros of shape
      (n(2n-1), n+1) and ends as the packed strict lower triangle. */
  method PackLower(A: seq<seq<int>>, n: nat) returns (z: seq<seq<int>>)
    requires |A| == 2 * n && forall a :: 0 <= a < |A| ==> |A[a]| == 2 * n
    ensures z == Pack(A, n)
  {
    z := seq(Tri(2 * n), _ => Zeros(n + 1));
    ghost var zs, zeros := Pack(A, n), z;
    SpliceEnds(zs, zeros);
    var j := 1;
    while j < 2 * n
      invariant 1 <= j && (n == 0 || j <= 2 * n)
      invariant Tri(j) <= |z| == |zeros|
      invariant z == Splice(zs, zeros, Tri(j))
    {
      TriGrows(j, 2 * n);
      z := PackRow(z, A, n, j);
      j := j + 1;
    }
    if n > 0 {
      assert j == 2 * n;
    }
  }

  /** Row j of the packing loop of recursive_hafnian: z[j(j-1)/2 + k, 0] = A[j, k] for k < j. */
  method PackRow(z0: seq<seq<int>>, A: seq<seq<int>>, n: nat, j: nat) returns (z: seq<seq<int>>)
    requires |A| == 2 * n && forall a :: 0 <= a < |A| ==> |A[a]| == 2 * n
    requires 1 <= j < 2 * n && Tri(j + 1) <= Tri(2 * n)
    requires z0 == Splice(Pack(A, n), seq(Tri(2 * n), _ => Zeros(n + 1)), Tri(j))
    ensures z == Splice(Pack(A, n), seq(Tri(2 * n), _ => Zeros(n + 1)), Tri(j + 1))
  {
    ghost var zs, zeros := Pack(A, n), seq(Tri(2 * n), _ => Zeros(n + 1));
    z := z0;
    for k := 0 to j
      invariant z == Splice(zs, zeros, Tri(j) + k)
    {
      UnpackOf(j, k);
      SpliceStep(zs, zeros, Tri(j) + k);
      assert z[Tri(j) + k] == Zeros(n + 1);
      z := z[Tri(j) + k := z[Tri(j) + k][0 := A[j][k]]];
      assert z[Tri(j) + k] == Const(A[j][k], n);
    }
  }

  /** solve(b, s, w, g, n). */
  method Solve(b: seq<seq<int>>, s: nat, w: int, g: seq<int>, n: nat) returns (r: int)
    requires Even(s) && |b| == Tri(s) && IsPolyList(b, n) && |g| == n + 1
    ensures r == SolveValue(b, s, w, g, n)
    decreases s, 1
  {
    if s == 0 {
      return w * g[n];
    }
    var c := CopyMinor(b, s, n);
    var h := SolveDeleted(c, b, s, w, g, n);
    var h2 := SolveContracted(c, b, s, w, g, n);
    return h + h2;
  }

  /** h = solve(c, s - 2, -w, g, n) on the minor c. */
  method SolveDeleted(c: seq<seq<int>>, b: seq<seq<int>>, s: nat, w: int, g: seq<int>, n: nat) returns (h: int)
    requires Even(s) && s >= 2 && |b| == Tri(s) && IsPolyList(b, n) && |g| == n + 1
    requires c == Minor(b, s)
    ensures h == SolveValue(Minor(b, s), s - 2, -w, g, n)
    decreases s, 0
  {
    MinorIsPolyList(b, s, n);
    h := Solve(c, s - 2, -w, g, n);
  }

  /** The rest of solve: e = g + x * g * b(1, 0), c turned into the contraction
      in place, and solve(c, s - 2, w, e, n). */
  method SolveContracted(c0: seq<seq<int>>, b: seq<seq<int>>, s: nat, w: int, g: seq<int>, n: nat) returns (h2: int)
    requires Even(s) && s >= 2 && |b| == Tri(s) && IsPolyList(b, n) && |g| == n + 1
    requires c0 == Minor(b, s)
    ensures h2 == SolveValue(Contract(b, s, n), s - 2, w, Extend(g, b[0], n), n)
    decreases s, 0
  {
    PackRange(1, 0, s);
    var e := AddEdge(g, g, b[0], n);
    var c := AddContractions(c0, b, s, n);
    MinorIsPolyList(b, s, n);
    h2 := Solve(c, s - 2, w, e, n);
  }

  /** The first loop of solve: c[i] = b[(j+1)(j+2)/2 + k + 2], i counting the (j, k) cells. */
  method CopyMinor(b: seq<seq<int>>, s: nat, n: nat) returns (c: seq<seq<int>>)
    requires s >= 2 && |b| == Tri(s)
    ensures c == Minor(b, s)
  {
    ghost var ms := Minor(b, s);
    c := seq(Tri(s - 2), _ => Zeros(n + 1));
    var j := 1;
    while j < s - 2
      invariant 1 <= j && (s - 2 < 1 || j <= s - 2)
      invariant Tri(j) <= |c| == |ms|
      invariant forall t :: 0 <= t < Tri(j) ==> c[t] == ms[t]
    {
      TriGrows(j, s - 2);
      c := CopyMinorRow(c, b, s, j);
      j := j + 1;
    }
    assert Tri(j) == |c| by {
      if s - 2 < 1 {
        assert Tri(s - 2) == 0;
      }
    }
  }

  /** One row j of the first loop of solve: the cells (j, k), k < j. */
  method CopyMinorRow(c0: seq<seq<int>>, b: seq<seq<int>>, s: nat, j: nat) returns (c: seq<seq<int>>)
    requires s >= 2 && |b| == Tri(s) && 1 <= j < s - 2
    requires |c0| == Tri(s - 2) && Tri(j) + j <= Tri(s - 2)
    requires forall t :: 0 <= t < Tri(j) ==> c0[t] == Minor(b, s)[t]
    ensures |c| == Tri(s - 2)
    ensures forall t :: 0 <= t < Tri(j) + j ==> c[t] == Minor(b, s)[t]
  {
    ghost var ms := Minor(b, s);
    c := c0;
    var i := Tri(j);
    for k := 0 to j
      invariant i == Tri(j) + k && |c| == |ms|
      invariant forall t :: 0 <= t < i ==> c[t] == ms[t]
    {
      MinorCell(b, s, j, k);
      c := c[i := b[Tri(j + 2) + k + 2]];
      i := i + 1;
    }
  }

  /** e = g.copy() followed by e[u + v + 1] += g[u] * p[v] for u < n, v < n - u. */
  method AddEdge(e0: seq<int>, g: seq<int>, p: seq<int>, n: nat) returns (e: seq<int>)
    requires |e0| == n + 1 && |g| == n + 1 && |p| == n + 1
    ensures e == AddPoly(e0, ShiftMul(g, p, n), n)
  {
    e := e0;
    for u := 0 to n
      invariant |e| == n + 1
      invariant forall t :: 0 <= t <= n ==> e[t] == e0[t] + ConvSum(g, p, t, Min(u, t))
    {
      for v := 0 to n - u
        invariant |e| == n + 1
        invariant forall t :: 0 <= t <= n ==>
          e[t] == e0[t] + ConvSum(g, p, t, Min(u, t)) + (if u < t <= u + v then g[u] * p[t - 1 - u] else 0)
      {
        e := e[u + v + 1 := e[u + v + 1] + g[u] * p[v]];
      }
    }
    assert forall t :: 0 <= t <= n ==> Min(n, t) == t;
  }

  /** The last loop of solve: for every cell (j, k) of the minor,
      c[j(j-1)/2 + k][u + v + 1] += b(j+2, 0)[u] * b(k+2, 1)[v] + b(k+2, 0)[u] * b(j+2, 1)[v]. */
  method AddContractions(c0: seq<seq<int>>, b: seq<seq<int>>, s: nat, n: nat) returns (c: seq<seq<int>>)
    requires s >= 2 && |b| == Tri(s) && IsPolyList(b, n)
    requires c0 == Minor(b, s)
    ensures c == Contract(b, s, n)
  {
    ghost var cs, ms := Contract(b, s, n), Minor(b, s);
    MinorIsPolyList(b, s, n);
    SpliceEnds(cs, ms);
    c := c0;
    var i, j := 0, 1;
    while j < s - 2
      invariant 1 <= j && (s - 2 < 1 || j <= s - 2)
      invariant i == Tri(j) <= |cs|
      invariant c == Splice(cs, ms, i)
    {
      TriGrows(j, s - 2);
      c := ContractRow(c, b, cs, ms, s, n, j, i);
      i, j := i + j, j + 1;
    }
    assert i == |cs| by {
      if s - 2 < 1 {
        assert Tri(s - 2) == 0;
      }
    }
  }

  /** Row j of the last loop of solve; cs is the contraction of b, ms its minor. */
  method ContractRow(c0: seq<seq<int>>, b: seq<seq<int>>, ghost cs: seq<seq<int>>, ghost ms: seq<seq<int>>,
                     s: nat, n: nat, j: nat, i: nat) returns (c: seq<seq<int>>)
    requires s >= 2 && |b| == Tri(s) && IsPolyList(b, n)
    requires cs == Contract(b, s, n) && ms == Minor(b, s) && IsPolyList(ms, n)
    requires 1 <= j < s - 2 && i == Tri(j) && i + j <= |cs|
    requires c0 == Splice(cs, ms, i)
    ensures c == Splice(cs, ms, i + j)
  {
    c := c0;
    for k := 0 to j
      invariant c == Splice(cs, ms, i + k)
    {
      SpliceStep(cs, ms, i + k);
      var cell := ContractCellValue(c[i + k], b, s, n, j, k);
      c := c[i + k := cell];
    }
  }

  /** One (j, k) step of the last loop of solve: the cell of the minor becomes the cell of the contraction. */
  method ContractCellValue(row: seq<int>, b: seq<seq<int>>, s: nat, n: nat, j: nat, k: nat) returns (cell: seq<int>)
    requires s >= 2 && |b| == Tri(s) && IsPolyList(b, n)
    requires k < j < s - 2 && Packed(j, k) < Tri(s - 2) && row == Minor(b, s)[Packed(j, k)] && |row| == n + 1
    ensures cell == Contract(b, s, n)[Packed(j, k)]
  {
    PackRange(j + 2, 1, s);
    PackRange(k + 2, 1, s);
    var rowJ, rowK := Tri(j + 2), Tri(k + 2);
    var p1, q1, p2, q2 := b[rowJ], b[rowK + 1], b[rowK], b[rowJ + 1];
    cell := AddCross(row, p1, q1, p2, q2, n);
    ContractCell(b, s, n, j, k, row, p1, q1, p2, q2, cell);
  }

  /** The cell AddCross computes for (j, k) is entry (j, k) of the contraction. */
  lemma {:induction false} ContractCell(b: seq<seq<int>>, s: nat, n: nat, j: nat, k: nat,
                     row: seq<int>, p1: seq<int>, q1: seq<int>, p2: seq<int>, q2: seq<int>, cell: seq<int>)
    requires s >= 2 && |b| == Tri(s) && k < j < s - 2
    requires Packed(j, k) < Tri(s - 2) && row == Minor(b, s)[Packed(j, k)]
    requires Tri(j + 2) + 1 < |b| && Tri(k + 2) + 1 < |b|
    requires p1 == b[Tri(j + 2)] && q1 == b[Tri(k + 2) + 1] && p2 == b[Tri(k + 2)] && q2 == b[Tri(j + 2) + 1]
    requires cell == AddPoly(row, AddPoly(ShiftMul(p1, q1, n), ShiftMul(p2, q2, n), n), n)
    ensures cell == Contract(b, s, n)[Packed(j, k)]
  {
    ContractIndex(b, s, n, j, k);
    CrossCell(b, n, Tri(j + 2), Tri(k + 2), j, k, p1, q1, p2, q2);
  }

  /** Entry (j, k) of the contraction is entry (j, k) of the minor plus the cross term. */
  lemma {:induction false} ContractIndex(b: seq<seq<int>>, s: nat, n: nat, j: nat, k: nat)
    requires s >= 2 && k < j && Packed(j, k) < Tri(s - 2)
    ensures Contract(b, s, n)[Packed(j, k)] == AddPoly(Minor(b, s)[Packed(j, k)], CrossAt(b, n, j, k), n)
  {
    var t := Packed(j, k);
    UnpackOf(j, k);
    assert Minor(b, s)[t] == MinorAt(b, t);
    assert Contract(b, s, n)[t] == ContractAt(b, n, t);
  }

  lemma {:induction false} CrossCell(b: seq<seq<int>>, n: nat, rowJ: nat, rowK: nat, j: nat, k: nat,
                  p1: seq<int>, q1: seq<int>, p2: seq<int>, q2: seq<int>)
    requires rowJ == Tri(j + 2) && rowK == Tri(k + 2) && rowJ + 1 < |b| && rowK + 1 < |b|
    requires p1 == b[rowJ] && q1 == b[rowK + 1] && p2 == b[rowK] && q2 == b[rowJ + 1]
    ensures CrossAt(b, n, j, k) == AddPoly(ShiftMul(p1, q1, n), ShiftMul(p2, q2, n), n)
  {
  }

  /** The (u, v) loops for one cell of the minor: row + x * (p1 * q1 + p2 * q2), truncated at degree n. */
  method AddCross(row: seq<int>, p1: seq<int>, q1: seq<int>, p2: seq<int>, q2: seq<int>, n: nat) returns (out: seq<int>)
    requires IsPoly(row, n) && IsPoly(p1, n) && IsPoly(q1, n) && IsPoly(p2, n) && IsPoly(q2, n)
    ensures out == AddPoly(row, AddPoly(ShiftMul(p1, q1, n), ShiftMul(p2, q2, n), n), n)
  {
    out := row;
    for u := 0 to n
      invariant |out| == n + 1
      invariant forall t :: 0 <= t <= n ==>
        out[t] == row[t] + ConvSum(p1, q1, t, Min(u, t)) + ConvSum(p2, q2, t, Min(u, t))
    {
      for v := 0 to n - u
        invariant |out| == n + 1
        invariant forall t :: 0 <= t <= n ==>
          out[t] == row[t] + ConvSum(p1, q1, t, Min(u, t)) + ConvSum(p2, q2, t, Min(u, t))
            + (if u < t <= u + v then p1[u] * q1[t - 1 - u] + p2[u] * q2[t - 1 - u] else 0)
      {
        out := out[u + v + 1 := out[u + v + 1] + (p1[u] * q1[v] + p2[u] * q2[v])];
      }
    }
    assert forall t :: 0 <= t <= n ==> Min(n, t) == t;
  }

  /** The first m entries of x followed by the rest of y. */
  ghost function Splice<T>(x: seq<T>, y: seq<T>, m: nat): seq<T>
    requires m <= |x| == |y|
  {
    x[..m] + y[m..]
  }

  lemma {:induction false} SpliceEnds<T>(x: seq<T>, y: seq<T>)
    requires |x| == |y|
    ensures Splice(x, y, 0) == y && Splice(x, y, |x|) == x
  {
    assert x[..0] + y[0..] == y;
    assert x[..|x|] + y[|x|..] == x;
  }

  lemma {:induction false} SpliceStep<T>(x: seq<T>, y: seq<T>, m: nat)
    requires m < |x| == |y|
    ensures Splice(x, y, m)[m := x[m]] == Splice(x, y, m + 1)
    ensures Splice(x, y, m)[m] == y[m]
  {
    assert Splice(x, y, m)[m := x[m]] == x[..m + 1] + y[m + 1..];
  }
}
