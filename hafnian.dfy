/** The hafnian of `hafnian`: the sum, over all perfect matchings of the
    indices of a matrix, of the product of the matched entries. The program
    dispatches on the order: closed forms up to order 4 and the recursive
    algorithm of module Recursive beyond. One matrix is modelled at a time. */
module Hafnian {
  import opened Common
  import opened Recursive

  // ---------------------------------------------------------------------------
  // The hafnian as a sum over perfect matchings

  /** vs without its first element and its element k. */
  function Without(vs: seq<nat>, k: nat): (r: seq<nat>)
    requires 1 <= k < |vs|
    ensures |r| == |vs| - 2
  {
    vs[1..k] + vs[k + 1..]
  }

  /** Every perfect matching of the vertices vs, each as a list of pairs. */
  function Matchings(vs: seq<nat>): seq<seq<(nat, nat)>>
    decreases |vs|, 1
  {
    if |vs| == 0 then [[]]
    else if |vs| == 1 then []
    else PairFirst(vs, 1)
  }

  /** The matchings that pair vs[0] with one of vs[k], vs[k + 1], ... */
  function PairFirst(vs: seq<nat>, k: nat): seq<seq<(nat, nat)>>
    requires 2 <= |vs| && 1 <= k <= |vs|
    decreases |vs|, 0, |vs| - k
  {
    if k == |vs| then []
    else Prepend((vs[0], vs[k]), Matchings(Without(vs, k))) + PairFirst(vs, k + 1)
  }

  function Prepend(p: (nat, nat), ms: seq<seq<(nat, nat)>>): (r: seq<seq<(nat, nat)>>)
    ensures |r| == |ms|
  {
    seq(|ms|, i requires 0 <= i < |ms| => [p] + ms[i])
  }

  /** The product of the entries a matching selects. */
  function Weight(A: seq<seq<int>>, m: seq<(nat, nat)>): int
  {
    if m == [] then 1 else At(A, m[0].0, m[0].1) * Weight(A, m[1..])
  }

  function SumWeights(A: seq<seq<int>>, ms: seq<seq<(nat, nat)>>): int
  {
    if ms == [] then 0 else Weight(A, ms[0]) + SumWeights(A, ms[1..])
  }

  function Vertices(n: nat): (vs: seq<nat>)
    ensures |vs| == n
  {
    seq(n, i => i)
  }

  /** haf(A): the sum over the perfect matchings of 0 .. |A| - 1. */
  function Haf(A: seq<seq<int>>): int
  {
    SumWeights(A, Matchings(Vertices(|A|)))
  }

  /** The vertices a list of pairs touches, in order. */
  function Endpoints(m: seq<(nat, nat)>): seq<nat>
  {
    if m == [] then [] else [m[0].0, m[0].1] + Endpoints(m[1..])
  }

  /** m touches each vertex of vs exactly once, with |vs| / 2 pairs. */
  predicate IsPerfect(m: seq<(nat, nat)>, vs: seq<nat>)
  {
    multiset(Endpoints(m)) == multiset(vs) && 2 * |m| == |vs|
  }

  /** Every enumerated matching is perfect. */
  lemma {:induction false} MatchingsArePerfect(vs: seq<nat>)
    ensures forall m :: m in Matchings(vs) ==> IsPerfect(m, vs)
    decreases |vs|, 1
  {
    if |vs| >= 2 {
      PairFirstArePerfect(vs, 1);
    }
  }

  lemma {:induction false} PairFirstArePerfect(vs: seq<nat>, k: nat)
    requires 2 <= |vs| && 1 <= k <= |vs|
    ensures forall m :: m in PairFirst(vs, k) ==> IsPerfect(m, vs)
    decreases |vs|, 0, |vs| - k
  {
    if k < |vs| {
      var rest := Without(vs, k);
      var ms := Matchings(rest);
      MatchingsArePerfect(rest);
      PairFirstArePerfect(vs, k + 1);
      var first := Prepend((vs[0], vs[k]), ms);
      forall i | 0 <= i < |first|
        ensures IsPerfect(first[i], vs)
      {
        assert ms[i] in ms;
        PrependPerfect(vs, k, ms[i]);
      }
      assert PairFirst(vs, k) == first + PairFirst(vs, k + 1);
    }
  }

  /** Pairing vs[0] with vs[k] completes a perfect matching of the rest. */
  lemma {:induction false} PrependPerfect(vs: seq<nat>, k: nat, mr: seq<(nat, nat)>)
    requires 1 <= k < |vs|
    requires IsPerfect(mr, Without(vs, k))
    ensures IsPerfect([(vs[0], vs[k])] + mr, vs)
  {
    var m := [(vs[0], vs[k])] + mr;
    assert m[1..] == mr;
    assert Endpoints(m) == [vs[0], vs[k]] + Endpoints(mr);
    WithoutMultiset(vs, k);
  }

  lemma {:induction false} WithoutMultiset(vs: seq<nat>, k: nat)
    requires 1 <= k < |vs|
    ensures multiset(vs) == multiset([vs[0], vs[k]]) + multiset(Without(vs, k))
  {
    assert vs == [vs[0]] + vs[1..k] + [vs[k]] + vs[k + 1..];
    assert [vs[0], vs[k]] == [vs[0]] + [vs[k]];
  }

  /** An odd number of vertices has no perfect matching. */
  lemma {:induction false} OddHasNoMatchings(vs: seq<nat>)
    requires |vs| % 2 == 1
    ensures Matchings(vs) == []
    decreases |vs|, 1
  {
    if |vs| > 1 {
      OddPairFirst(vs, 1);
    }
  }

  lemma {:induction false} OddPairFirst(vs: seq<nat>, k: nat)
    requires |vs| % 2 == 1 && 2 <= |vs| && 1 <= k <= |vs|
    ensures PairFirst(vs, k) == []
    decreases |vs|, 0, |vs| - k
  {
    if k < |vs| {
      OddHasNoMatchings(Without(vs, k));
      OddPairFirst(vs, k + 1);
    }
  }

  lemma {:induction false} HafOfOddOrder(A: seq<seq<int>>)
    requires |A| % 2 == 1
    ensures Haf(A) == 0
  {
    OddHasNoMatchings(Vertices(|A|));
  }

  lemma {:induction false} HafOfOrderZero(A: seq<seq<int>>)
    requires |A| == 0
    ensures Haf(A) == 1
  {
    var none: seq<(nat, nat)> := [];
    assert Vertices(0) == [];
    assert Matchings([]) == [none];
    SumWeightsOfOne(A, none);
  }

  lemma {:induction false} HafOfOrderTwo(A: seq<seq<int>>)
    requires |A| == 2
    ensures Haf(A) == At(A, 0, 1)
  {
    var vs := Vertices(2);
    assert vs == [0, 1];
    MatchingsOfPair(0, 1);
    WeightOfPairs(A, [(0, 1)]);
    SumWeightsOfOne(A, [(0, 1)]);
  }

  /** The three perfect matchings of four vertices. */
  lemma {:induction false} HafOfOrderFour(A: seq<seq<int>>)
    requires |A| == 4
    ensures Haf(A) == At(A, 0, 1) * At(A, 2, 3) + At(A, 0, 2) * At(A, 1, 3) + At(A, 0, 3) * At(A, 1, 2)
  {
    var vs := Vertices(4);
    assert vs == [0, 1, 2, 3];
    var m1, m2, m3 := [(0, 1), (2, 3)], [(0, 2), (1, 3)], [(0, 3), (1, 2)];
    PairFirstStep(vs, 3, [1, 2], [[(1, 2)]]);
    assert PairFirst(vs, 3) == [m3];
    PairFirstStep(vs, 2, [1, 3], [[(1, 3)]]);
    assert PairFirst(vs, 2) == [m2, m3];
    PairFirstStep(vs, 1, [2, 3], [[(2, 3)]]);
    assert Matchings(vs) == [m1, m2, m3];
    WeightOfPairs(A, m1);
    WeightOfPairs(A, m2);
    WeightOfPairs(A, m3);
    SumWeightsOfThree(A, m1, m2, m3);
  }

  /** One step of PairFirst where the rest has a single matching. */
  lemma {:induction false} PairFirstStep(vs: seq<nat>, k: nat, rest: seq<nat>, ms: seq<seq<(nat, nat)>>)
    requires 2 <= |vs| && 1 <= k < |vs|
    requires Without(vs, k) == rest && |rest| == 2 && ms == [[(rest[0], rest[1])]]
    ensures PairFirst(vs, k) == [[(vs[0], vs[k]), (rest[0], rest[1])]] + PairFirst(vs, k + 1)
  {
    MatchingsOfPair(rest[0], rest[1]);
    assert rest == [rest[0], rest[1]];
    assert Prepend((vs[0], vs[k]), ms)[0] == [(vs[0], vs[k]), (rest[0], rest[1])];
  }

  lemma {:induction false} MatchingsOfPair(a: nat, b: nat)
    ensures Matchings([a, b]) == [[(a, b)]]
  {
    assert Without([a, b], 1) == [];
    assert Matchings([]) == [[]];
    assert Prepend((a, b), [[]])[0] == [(a, b)];
    assert PairFirst([a, b], 2) == [];
  }

  /** The weight of a matching of one or two pairs. */
  lemma {:induction false} WeightOfPairs(A: seq<seq<int>>, m: seq<(nat, nat)>)
    requires 1 <= |m| <= 2
    ensures |m| == 1 ==> Weight(A, m) == At(A, m[0].0, m[0].1)
    ensures |m| == 2 ==> Weight(A, m) == At(A, m[0].0, m[0].1) * At(A, m[1].0, m[1].1)
  {
    if |m| == 2 {
      var t := m[1..];
      assert t[0] == m[1] && t[1..] == [];
      assert Weight(A, t) == At(A, m[1].0, m[1].1);
    } else {
      assert m[1..] == [];
    }
  }

  lemma {:induction false} SumWeightsOfOne(A: seq<seq<int>>, m: seq<(nat, nat)>)
    ensures SumWeights(A, [m]) == Weight(A, m)
  {
    assert [m][1..] == [];
  }

  lemma {:induction false} SumWeightsOfThree(A: seq<seq<int>>, m1: seq<(nat, nat)>, m2: seq<(nat, nat)>, m3: seq<(nat, nat)>)
    ensures SumWeights(A, [m1, m2, m3]) == Weight(A, m1) + Weight(A, m2) + Weight(A, m3)
  {
    assert [m1, m2, m3][1..] == [m2, m3];
    assert SumWeights(A, [m1, m2, m3]) == Weight(A, m1) + SumWeights(A, [m2, m3]);
    assert [m2, m3][1..] == [m3];
    assert SumWeights(A, [m2, m3]) == Weight(A, m2) + SumWeights(A, [m3]);
    SumWeightsOfOne(A, m3);
  }

  // ---------------------------------------------------------------------------
  // recursive_hafnian agrees with the matching sum at orders 2 and 4

  /** One level of solve at size 2: the deleted branch reads g, the
      contracted branch reads g extended by the last edge. */
  lemma {:induction false} SolveAtTwo(b: seq<seq<int>>, w: int, g: seq<int>, n: nat)
    requires |b| == Tri(2)
    ensures Even(2)
    ensures SolveValue(b, 2, w, g, n) == -w * Coef(g, n) + w * Coef(Extend(g, b[0], n), n)
  {
    assert Even(0);
    assert Minor(b, 2) == [] && Contract(b, 2, n) == [];
  }

  /** The low coefficients of g + x * g * p. */
  lemma {:induction false} ExtendCoefs(g: seq<int>, p: seq<int>, n: nat)
    requires n >= 2
    ensures Coef(Extend(g, p, n), 0) == Coef(g, 0)
    ensures Coef(Extend(g, p, n), 1) == Coef(g, 1) + Coef(g, 0) * Coef(p, 0)
    ensures Coef(Extend(g, p, n), 2) == Coef(g, 2) + Coef(g, 0) * Coef(p, 1) + Coef(g, 1) * Coef(p, 0)
  {
    var e, m := Extend(g, p, n), ShiftMul(g, p, n);
    assert m[0] == ConvSum(g, p, 0, 0) == 0;
    assert m[1] == ConvSum(g, p, 1, 1) == Coef(g, 0) * Coef(p, 0);
    assert ConvSum(g, p, 2, 1) == Coef(g, 0) * Coef(p, 1);
    assert m[2] == ConvSum(g, p, 2, 2) == ConvSum(g, p, 2, 1) + Coef(g, 1) * Coef(p, 0);
    assert e[0] == Coef(g, 0) + m[0] && e[1] == Coef(g, 1) + m[1] && e[2] == Coef(g, 2) + m[2];
  }

  /** recursive_hafnian at order 2 reads the single packed entry A[1][0]. */
  lemma {:induction false} RecursiveOrderTwo(A: seq<seq<int>>)
    requires |A| == 2
    ensures RecursiveValue(A) == At(A, 1, 0)
  {
    var b := Pack(A, 1);
    EvenDouble(1);
    UnpackOf(1, 0);
    assert b[0] == Const(At(A, 1, 0), 1);
    SolveAtTwo(b, 1, One(1), 1);
    assert ShiftMul(One(1), b[0], 1)[1] == ConvSum(One(1), b[0], 1, 1);
  }

  /** The product of two constant polynomials sits at x: solve multiplies
      edge weights into the coefficient of the number of edges used. */
  lemma {:induction false} ConstProduct(x: int, y: int)
    ensures ShiftMul(Const(x, 2), Const(y, 2), 2) == [0, x * y, 0]
  {
    var p, q := Const(x, 2), Const(y, 2);
    assert ConvSum(p, q, 1, 1) == x * y;
    assert ConvSum(p, q, 2, 2) == ConvSum(p, q, 2, 1) + Coef(p, 1) * Coef(q, 0) == 0;
  }

  /** The packed cell of entry (j, k) of an order-4 matrix. */
  lemma {:induction false} PackedCell(A: seq<seq<int>>, j: nat, k: nat)
    requires |A| == 4 && k < j < 4
    ensures Tri(j) + k < |Pack(A, 2)|
    ensures Pack(A, 2)[Tri(j) + k] == Const(At(A, j, k), 2)
  {
    PackRange(j, k, 4);
    UnpackOf(j, k);
  }

  /** recursive_hafnian at order 4 sums the three matchings of the lower triangle. */
  lemma {:induction false} RecursiveOrderFour(A: seq<seq<int>>)
    requires |A| == 4
    ensures RecursiveValue(A) == At(A, 1, 0) * At(A, 3, 2) + At(A, 2, 0) * At(A, 3, 1) + At(A, 3, 0) * At(A, 2, 1)
  {
    var b := Pack(A, 2);
    EvenDouble(2);
    PackedCell(A, 1, 0);
    PackedCell(A, 2, 0);
    PackedCell(A, 2, 1);
    PackedCell(A, 3, 0);
    PackedCell(A, 3, 1);
    PackedCell(A, 3, 2);
    SolveFour(b, At(A, 1, 0), At(A, 2, 0), At(A, 2, 1), At(A, 3, 0), At(A, 3, 1), At(A, 3, 2));
  }

  /** solve on a packed order-4 matrix of constants: one step of deletion
      and contraction, then the two size-2 solves. */
  lemma {:induction false} SolveFour(b: seq<seq<int>>, a10: int, a20: int, a21: int, a30: int, a31: int, a32: int)
    requires |b| == 6 && b[0] == Const(a10, 2) && b[1] == Const(a20, 2) && b[2] == Const(a21, 2)
    requires b[3] == Const(a30, 2) && b[4] == Const(a31, 2) && b[5] == Const(a32, 2)
    ensures Even(4) && |b| == Tri(4)
    ensures SolveValue(b, 4, 1, One(2), 2) == a10 * a32 + a20 * a31 + a30 * a21
  {
    assert Even(4);
    SolveStep(b, 4, 1, One(2), 2);
    DeletedFour(b, a32);
    ContractedFour(b, a10, a20, a21, a30, a31, a32);
  }

  /** One level of solve: the sum of the deleted and the contracted branch. */
  lemma {:induction false} SolveStep(b: seq<seq<int>>, s: nat, w: int, g: seq<int>, n: nat)
    requires Even(s) && s >= 2 && |b| == Tri(s)
    ensures Even(s - 2) && |b| > 0
    ensures SolveValue(b, s, w, g, n)
      == SolveValue(Minor(b, s), s - 2, -w, g, n) + SolveValue(Contract(b, s, n), s - 2, w, Extend(g, b[0], n), n)
  {
    PackRange(1, 0, s);
  }

  /** Deleting indices 0 and 1 leaves the single edge (3, 2), which alone
      uses one edge where a matching of order 4 needs two. */
  lemma {:induction false} DeletedFour(b: seq<seq<int>>, a32: int)
    requires |b| == 6 && b[5] == Const(a32, 2)
    ensures Even(2)
    ensures SolveValue(Minor(b, 4), 2, -1, One(2), 2) == 0
  {
    var minor := Minor(b, 4);
    UnpackOf(1, 0);
    assert minor[0] == b[5];
    SolveAtTwo(minor, -1, One(2), 2);
    ExtendCoefs(One(2), minor[0], 2);
  }

  /** Contracting the edge (1, 0) leaves a32 + x * (a30 a21 + a20 a31),
      with the weight a10 of the contracted edge carried in g. */
  lemma {:induction false} ContractedFour(b: seq<seq<int>>, a10: int, a20: int, a21: int, a30: int, a31: int, a32: int)
    requires |b| == 6 && b[0] == Const(a10, 2) && b[1] == Const(a20, 2) && b[2] == Const(a21, 2)
    requires b[3] == Const(a30, 2) && b[4] == Const(a31, 2) && b[5] == Const(a32, 2)
    ensures Even(2)
    ensures SolveValue(Contract(b, 4, 2), 2, 1, Extend(One(2), b[0], 2), 2) == a10 * a32 + a20 * a31 + a30 * a21
  {
    var g := One(2);
    var contract, e := Contract(b, 4, 2), Extend(g, b[0], 2);
    ContractFour(b, a10, a20, a21, a30, a31, a32);
    SolveAtTwo(contract, 1, e, 2);
    ExtendCoefs(g, b[0], 2);
    assert Coef(e, 0) == 1 && Coef(e, 1) == a10 && Coef(e, 2) == 0;
    ExtendCoefs(e, contract[0], 2);
    assert Coef(Extend(e, contract[0], 2), 2) == a30 * a21 + a20 * a31 + a10 * a32;
  }

  lemma {:induction false} ContractFour(b: seq<seq<int>>, a10: int, a20: int, a21: int, a30: int, a31: int, a32: int)
    requires |b| == 6 && b[0] == Const(a10, 2) && b[1] == Const(a20, 2) && b[2] == Const(a21, 2)
    requires b[3] == Const(a30, 2) && b[4] == Const(a31, 2) && b[5] == Const(a32, 2)
    ensures |Contract(b, 4, 2)| == 1
    ensures Coef(Contract(b, 4, 2)[0], 0) == a32
    ensures Coef(Contract(b, 4, 2)[0], 1) == a30 * a21 + a20 * a31
  {
    UnpackOf(1, 0);
    ConstProduct(a30, a21);
    ConstProduct(a20, a31);
    var cross := CrossAt(b, 2, 1, 0);
    assert cross == AddPoly([0, a30 * a21, 0], [0, a20 * a31, 0], 2);
    assert Contract(b, 4, 2)[0] == AddPoly(b[5], cross, 2);
  }

  // ---------------------------------------------------------------------------
  // The dispatch of hafnian

  predicate Symmetric(A: seq<seq<int>>)
  {
    forall i, j :: 0 <= i < |A| && 0 <= j < |A| ==> At(A, i, j) == At(A, j, i)
  }

  /** The closed forms and the recursive algorithm agree where both apply:
      on symmetric matrices of order 2 and 4 recursive_hafnian, which reads
      the lower triangle, computes the matching sum over the upper one. */
  lemma {:induction false} RecursiveIsHaf(A: seq<seq<int>>)
    requires (|A| == 2 || |A| == 4) && Symmetric(A)
    ensures RecursiveValue(A) == Haf(A)
  {
    if |A| == 2 {
      RecursiveOrderTwo(A);
      HafOfOrderTwo(A);
      assert At(A, 1, 0) == At(A, 0, 1);
    } else {
      RecursiveOrderFour(A);
      HafOfOrderFour(A);
      assert At(A, 1, 0) == At(A, 0, 1) && At(A, 3, 2) == At(A, 2, 3);
      assert At(A, 2, 0) == At(A, 0, 2) && At(A, 3, 1) == At(A, 1, 3);
      assert At(A, 3, 0) == At(A, 0, 3) && At(A, 2, 1) == At(A, 1, 2);
    }
  }

  /** hafnian on one matrix of |A| rows of cols entries: the matching sum
      by closed form up to order 4, recursive_hafnian beyond. */
  method Hafnian(A: seq<seq<int>>, cols: nat) returns (h: Result<int, Error>)
    requires forall i :: 0 <= i < |A| ==> |A[i]| == cols
    ensures |A| == 0 && cols == 0 ==> h == Success(Haf(A))
    ensures |A| % 2 == 1 ==> h == Success(Haf(A))
    ensures |A| == 2 || |A| == 4 ==> h == if cols < |A| then Failure(IndexOutOfRange) else Success(Haf(A))
    ensures |A| == 0 && cols != 0 ==> h == Failure(NotSquare)
    ensures |A| >= 6 && |A| % 2 == 0 ==> h == if |A| != cols then Failure(NotSquare) else Success(RecursiveValue(A))
  {
    if |A| == 0 && cols == 0 {
      HafOfOrderZero(A);
      return Success(1);
    }
    if |A| % 2 != 0 {
      HafOfOddOrder(A);
      return Success(0);
    }
    if |A| == 2 {
      if cols < 2 {
        return Failure(IndexOutOfRange);
      }
      HafOfOrderTwo(A);
      return Success(A[0][1]);
    }
    if |A| == 4 {
      if cols < 4 {
        return Failure(IndexOutOfRange);
      }
      HafOfOrderFour(A);
      return Success(A[0][1] * A[2][3] + A[0][2] * A[1][3] + A[0][3] * A[1][2]);
    }
    h := RecursiveHafnian(A, cols);
  }
}
