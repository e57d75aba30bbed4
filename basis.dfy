/** The basis enumeration and pruning loop of `get_cumsum_kron`: the photon
    number distributions of the modes are multiplied out one mode at a time
    (`np.kron`), states at or below the error tolerance are dropped, and the
    most probable states are kept in descending order. The arrays `res` and
    `num` of the program are kept together as one sequence of pairs, so a row
    of `num` cannot drift away from its probability. */
module Basis {
  import opened Common

  /** One basis state: its probability (an element of res) and its
      occupation row (the row of num at the same position). */
  datatype Entry = Entry(prob: real, occ: seq<nat>)

  /** Product over the modes of the probability of each mode's occupation. */
  function Prob(dists: seq<seq<real>>, occ: seq<nat>): real
    requires |occ| == |dists|
    requires forall m :: 0 <= m < |occ| ==> occ[m] < |dists[m]|
    decreases |occ|
  {
    if occ == [] then 1.0
    else Prob(dists[..|dists| - 1], occ[..|occ| - 1]) * dists[|dists| - 1][occ[|occ| - 1]]
  }

  /** A state over the first |dists| modes: one occupation per mode, each
      below the cutoff, paired with the product of its probabilities. */
  ghost predicate Paired(dists: seq<seq<real>>, cutoff: nat, e: Entry)
  {
    && |e.occ| == |dists|
    && (forall m :: 0 <= m < |e.occ| ==> e.occ[m] < cutoff && e.occ[m] < |dists[m]|)
    && e.prob == Prob(dists, e.occ)
  }

  ghost predicate AllPaired(dists: seq<seq<real>>, cutoff: nat, s: seq<Entry>)
  {
    forall k :: 0 <= k < |s| ==> Paired(dists, cutoff, s[k])
  }

  lemma {:induction false} MulMonotone(x: nat, y: nat, c: nat)
    requires x <= y
    ensures x * c <= y * c
    decreases y - x
  {
    if x < y {
      MulMonotone(x, y - 1, c);
      assert y * c == (y - 1) * c + c;
    }
  }

  /** k == q * c + r with 0 <= r < c pins down k // c and k % c. */
  lemma {:induction false} DivModUnique(k: nat, c: nat, q: nat, r: nat)
    requires c > 0 && r < c && k == q * c + r
    ensures k / c == q && k % c == r
  {
    var q', r' := k / c, k % c;
    assert k == q' * c + r';
    if q > q' {
      MulMonotone(q' + 1, q, c);
    } else if q < q' {
      MulMonotone(q + 1, q', c);
    }
  }

  lemma {:induction false} KronIndexBound(k: nat, len: nat, c: nat)
    requires k < len * c
    ensures c > 0 && k / c < len && k % c < c
  {
    if k / c >= len {
      MulMonotone(len, k / c, c);
    }
  }

  /** Element k of kron(res, dist), with its num row: old row k // cutoff
      extended by the occupation k % cutoff of the new mode. */
  function KronEntry(state: seq<Entry>, dist: seq<real>, k: nat): Entry
    requires k < |state| * |dist|
  {
    KronIndexBound(k, |state|, |dist|);
    var e := state[k / |dist|];
    Entry(e.prob * dist[k % |dist|], e.occ + [k % |dist|])
  }

  /** res = np.kron(res, dist) together with the matching extension of num. */
  function KronStep(state: seq<Entry>, dist: seq<real>): (r: seq<Entry>)
    ensures |r| == |state| * |dist|
  {
    seq(|state| * |dist|, k requires 0 <= k < |state| * |dist| => KronEntry(state, dist, k))
  }

  /** Every pair of an old state a and an occupation b of the new mode
      appears in the product, at position a * cutoff + b. */
  lemma {:induction false} KronStepAt(state: seq<Entry>, dist: seq<real>, a: nat, b: nat)
    requires a < |state| && b < |dist|
    ensures a * |dist| + b < |state| * |dist|
    ensures KronStep(state, dist)[a * |dist| + b] == Entry(state[a].prob * dist[b], state[a].occ + [b])
  {
    MulMonotone(a + 1, |state|, |dist|);
    assert (a + 1) * |dist| == a * |dist| + |dist|;
    DivModUnique(a * |dist| + b, |dist|, a, b);
  }

  /** Every state of the product over one more mode is paired again. */
  lemma {:induction false} KronStepPaired(dists: seq<seq<real>>, cutoff: nat, state: seq<Entry>, dist: seq<real>)
    requires |dist| == cutoff
    requires forall k :: 0 <= k < |state| ==> Paired(dists, cutoff, state[k])
    ensures forall k :: 0 <= k < |state| * cutoff ==> Paired(dists + [dist], cutoff, KronStep(state, dist)[k])
  {
    var ds := dists + [dist];
    forall k | 0 <= k < |state| * cutoff
      ensures Paired(ds, cutoff, KronStep(state, dist)[k])
    {
      KronIndexBound(k, |state|, cutoff);
      var e := state[k / cutoff];
      var occ := e.occ + [k % cutoff];
      assert ds[..|ds| - 1] == dists && occ[..|occ| - 1] == e.occ;
    }
  }

  /** keep_idx = np.where(res > err_tol)[0]; res = res[keep_idx]; num = num[keep_idx]:
      exactly the states above the tolerance, with their multiplicities. */
  function Above(s: seq<Entry>, tol: real): (r: seq<Entry>)
    ensures |r| <= |s|
    ensures forall k :: 0 <= k < |r| ==> r[k].prob > tol
    ensures forall x :: multiset(r)[x] == if x.prob > tol then multiset(s)[x] else 0
  {
    if s == [] then []
    else
      assert s == [s[0]] + s[1..];
      (if s[0].prob > tol then [s[0]] else []) + Above(s[1..], tol)
  }

  ghost predicate NonIncreasing(s: seq<Entry>)
  {
    forall p, q :: 0 <= p < q < |s| ==> s[p].prob >= s[q].prob
  }

  /** What a mode step guarantees of the states it keeps. */
  ghost predicate PrunedAfterStep(s: seq<Entry>, maxDim: nat, errTol: real)
  {
    && NonIncreasing(s)
    && (forall k :: 0 <= k < |s| ==> s[k].prob > errTol)
    && (maxDim > 0 ==> |s| <= maxDim)
  }

  function InsertDesc(x: Entry, s: seq<Entry>): (r: seq<Entry>)
    requires NonIncreasing(s)
    ensures NonIncreasing(r)
    ensures multiset(r) == multiset(s) + multiset{x}
    ensures |r| == |s| + 1
    ensures r[0] == x || (|s| > 0 && r[0] == s[0])
  {
    if s == [] || x.prob >= s[0].prob then [x] + s
    else
      assert s == [s[0]] + s[1..];
      var rest := InsertDesc(x, s[1..]);
      ConsDesc(s[0], rest);
      [s[0]] + rest
  }

  lemma {:induction false} ConsDesc(e: Entry, t: seq<Entry>)
    requires NonIncreasing(t) && (|t| > 0 ==> t[0].prob <= e.prob)
    ensures NonIncreasing([e] + t)
  {
    var r := [e] + t;
    forall p, q | 0 <= p < q < |r|
      ensures r[p].prob >= r[q].prob
    {
      if p > 0 {
        assert r[p] == t[p - 1] && r[q] == t[q - 1];
      } else {
        assert r[q] == t[q - 1] && t[0].prob >= t[q - 1].prob;
      }
    }
  }

  /** The order np.argsort(res)[::-1] puts the states in: by descending
      probability. */
  function SortDesc(s: seq<Entry>): (r: seq<Entry>)
    ensures NonIncreasing(r)
    ensures multiset(r) == multiset(s)
    ensures |r| == |s|
  {
    if s == [] then []
    else
      assert s == [s[0]] + s[1..];
      InsertDesc(s[0], SortDesc(s[1..]))
  }

  /** How many states the slice [-min(len, cap):] keeps: min(len, cap),
      except that a count of 0 reads as [-0:], which keeps all of them. */
  function TopCount(len: nat, cap: nat): (m: nat)
    ensures m <= len
  {
    var m := Min(len, cap);
    if m == 0 then len else m
  }

  /** The kept states in descending order: argsort, keep the last count, reverse. */
  function TopDescending(s: seq<Entry>, cap: nat): (t: seq<Entry>)
    ensures |t| == TopCount(|s|, cap)
  {
    SortDesc(s)[..TopCount(|s|, cap)]
  }

  /** The kept states are in descending order, they are states of the input,
      and none of the dropped states is more probable than a kept one. */
  lemma {:induction false} TopDescendingKeepsLargest(s: seq<Entry>, cap: nat)
    ensures var t := TopDescending(s, cap);
      var d := SortDesc(s)[TopCount(|s|, cap)..];
      && NonIncreasing(t)
      && multiset(t) + multiset(d) == multiset(s)
      && forall p, q :: 0 <= p < |t| && 0 <= q < |d| ==> t[p].prob >= d[q].prob
  {
    SplitSorted(SortDesc(s), TopCount(|s|, cap));
  }

  /** Cutting a descending sequence at m: both parts descend, together they
      hold its states, and the head dominates the tail. */
  lemma {:induction false} SplitSorted(sorted: seq<Entry>, m: nat)
    requires NonIncreasing(sorted) && m <= |sorted|
    ensures NonIncreasing(sorted[..m])
    ensures multiset(sorted[..m]) + multiset(sorted[m..]) == multiset(sorted)
    ensures forall p, q :: 0 <= p < m && 0 <= q < |sorted| - m ==> sorted[..m][p].prob >= sorted[m..][q].prob
  {
    assert sorted == sorted[..m] + sorted[m..];
    forall p, q | 0 <= p < m && 0 <= q < |sorted| - m
      ensures sorted[..m][p].prob >= sorted[m..][q].prob
    {
      assert sorted[..m][p] == sorted[p] && sorted[m..][q] == sorted[m + q];
    }
  }

  /** One mode step of the loop: product with the next mode's distribution,
      tolerance filter, then the max_dim most probable states in descending order. */
  function PruneStep(state: seq<Entry>, dist: seq<real>, maxDim: nat, errTol: real): (r: seq<Entry>)
    ensures |r| <= |state| * |dist|
    ensures maxDim > 0 ==> |r| <= maxDim
  {
    TopDescending(Above(KronStep(state, dist), errTol), maxDim)
  }

  /** res and num after the loop has absorbed the first i modes. */
  function Pruned(dists: seq<seq<real>>, i: nat, maxDim: nat, errTol: real): (r: seq<Entry>)
    requires 1 <= i <= |dists|
    ensures i == 1 ==> |r| == |dists[0]|
    ensures i > 1 && maxDim > 0 ==> |r| <= maxDim
    decreases i
  {
    if i == 1 then seq(|dists[0]|, k requires 0 <= k < |dists[0]| => Entry(dists[0][k], [k]))
    else PruneStep(Pruned(dists, i - 1, maxDim, errTol), dists[i - 1], maxDim, errTol)
  }

  /** The kept states are states of the input. */
  lemma {:induction false} TopDescendingFrom(s: seq<Entry>, cap: nat, k: nat)
    requires k < |TopDescending(s, cap)|
    ensures TopDescending(s, cap)[k] in s
  {
    TopDescendingKeepsLargest(s, cap);
    var t := TopDescending(s, cap);
    assert t[k] in multiset(t);
    assert t[k] in multiset(s);
  }

  /** A state kept by the tolerance filter is a state of its input, above the tolerance. */
  lemma {:induction false} AboveFrom(s: seq<Entry>, tol: real, x: Entry)
    requires x in Above(s, tol)
    ensures x in s && x.prob > tol
  {
    assert multiset(Above(s, tol))[x] > 0;
    assert x in multiset(s);
  }

  /** One mode step keeps every state paired, above the tolerance and in
      descending order, with at most max_dim states. */
  lemma {:induction false} PruneStepInvariant(dists: seq<seq<real>>, cutoff: nat, state: seq<Entry>, dist: seq<real>, maxDim: nat, errTol: real)
    requires |dist| == cutoff
    requires AllPaired(dists, cutoff, state)
    ensures AllPaired(dists + [dist], cutoff, PruneStep(state, dist, maxDim, errTol))
    ensures PrunedAfterStep(PruneStep(state, dist, maxDim, errTol), maxDim, errTol)
  {
    var kept := Above(KronStep(state, dist), errTol);
    var s := TopDescending(kept, maxDim);
    TopDescendingKeepsLargest(kept, maxDim);
    forall k | 0 <= k < |s|
      ensures Paired(dists + [dist], cutoff, s[k]) && s[k].prob > errTol
    {
      PruneStepEntry(dists, cutoff, state, dist, maxDim, errTol, k);
    }
  }

  lemma {:induction false} PruneStepEntry(dists: seq<seq<real>>, cutoff: nat, state: seq<Entry>, dist: seq<real>, maxDim: nat, errTol: real, k: nat)
    requires |dist| == cutoff
    requires forall k :: 0 <= k < |state| ==> Paired(dists, cutoff, state[k])
    requires k < |PruneStep(state, dist, maxDim, errTol)|
    ensures Paired(dists + [dist], cutoff, PruneStep(state, dist, maxDim, errTol)[k])
    ensures PruneStep(state, dist, maxDim, errTol)[k].prob > errTol
  {
    var product := KronStep(state, dist);
    var kept := Above(product, errTol);
    var x := TopDescending(kept, maxDim)[k];
    TopDescendingFrom(kept, maxDim, k);
    AboveFrom(product, errTol, x);
    KronStepPaired(dists, cutoff, state, dist);
    MemberPaired(dists + [dist], cutoff, product, x);
  }

  lemma {:induction false} MemberPaired(dists: seq<seq<real>>, cutoff: nat, s: seq<Entry>, x: Entry)
    requires AllPaired(dists, cutoff, s) && x in s
    ensures Paired(dists, cutoff, x)
  {
  }

  lemma {:induction false} PrunedFirst(dists: seq<seq<real>>, cutoff: nat, maxDim: nat, errTol: real)
    requires 1 <= |dists| && |dists[0]| == cutoff
    ensures AllPaired(dists[..1], cutoff, Pruned(dists, 1, maxDim, errTol))
    ensures |Pruned(dists, 1, maxDim, errTol)| == cutoff
  {
    var s := Pruned(dists, 1, maxDim, errTol);
    forall k | 0 <= k < |s|
      ensures Paired(dists[..1], cutoff, s[k])
    {
      assert s[k].occ[..0] == [] && dists[..1][..0] == [];
    }
  }

  lemma {:induction false} SliceSnoc<T>(s: seq<T>, i: nat)
    requires 1 <= i <= |s|
    ensures s[..i - 1] + [s[i - 1]] == s[..i]
  {
  }

  /** The loop over the modes of get_cumsum_kron: res and num start as the
      first mode's distribution and absorb one mode per step. */
  method PruneModes(dists: seq<seq<real>>, cutoff: nat, maxDim: nat, errTol: real) returns (state: seq<Entry>)
    requires |dists| > 0
    requires forall m :: 0 <= m < |dists| ==> |dists[m]| == cutoff
    ensures state == Pruned(dists, |dists|, maxDim, errTol)
    ensures AllPaired(dists, cutoff, state)
    ensures |dists| > 1 ==> PrunedAfterStep(state, maxDim, errTol)
  {
    state := seq(cutoff, k requires 0 <= k < cutoff => Entry(dists[0][k], [k]));
    PrunedFirst(dists, cutoff, maxDim, errTol);
    for i := 1 to |dists|
      invariant state == Pruned(dists, i, maxDim, errTol)
      invariant AllPaired(dists[..i], cutoff, state)
      invariant i > 1 ==> PrunedAfterStep(state, maxDim, errTol)
    {
      var product := KronStep(state, dists[i]);
      var kept := Above(product, errTol);
      PruneStepInvariant(dists[..i], cutoff, state, dists[i], maxDim, errTol);
      SliceSnoc(dists, i + 1);
      state := TopDescending(kept, maxDim);
    }
    assert dists[..|dists|] == dists;
  }

  /** The final selection keeps the chi most probable states in descending
      order, each still paired with its occupation row. */
  lemma {:induction false} FinalSelection(dists: seq<seq<real>>, cutoff: nat, state: seq<Entry>, chi: nat, maxDim: nat, errTol: real)
    requires AllPaired(dists, cutoff, state)
    requires |dists| > 1 ==> PrunedAfterStep(state, maxDim, errTol)
    ensures var top := TopDescending(state, chi);
      NonIncreasing(top) && (chi > 0 ==> |top| <= chi) && AllPaired(dists, cutoff, top)
    ensures var top := TopDescending(state, chi);
      |dists| > 1 ==> ((forall k :: 0 <= k < |top| ==> top[k].prob > errTol) && (maxDim > 0 ==> |top| <= maxDim))
  {
    var top := TopDescending(state, chi);
    TopDescendingKeepsLargest(state, chi);
    forall k | 0 <= k < |top|
      ensures Paired(dists, cutoff, top[k])
      ensures |dists| > 1 ==> top[k].prob > errTol
    {
      TopDescendingFrom(state, chi, k);
      MemberPaired(dists, cutoff, state, top[k]);
    }
  }

  /** get_cumsum_kron after the decomposition: the loop over the modes
      followed by the final selection of the chi most probable states.
      The per-mode distributions are inputs; the program raises on an empty
      list of modes when it reads d[0]. */
  method GetCumsumKron(dists: seq<seq<real>>, cutoff: nat, chi: nat, maxDim: nat, errTol: real)
    returns (r: Result<seq<Entry>, Error>)
    requires forall m :: 0 <= m < |dists| ==> |dists[m]| == cutoff
    ensures r.Failure? <==> |dists| == 0
    ensures r.Failure? ==> r.error == NoModes
    ensures r.Success? ==> r.value == TopDescending(Pruned(dists, |dists|, maxDim, errTol), chi)
    ensures r.Success? ==> (NonIncreasing(r.value) && (chi > 0 ==> |r.value| <= chi) &&
      forall k :: 0 <= k < |r.value| ==> Paired(dists, cutoff, r.value[k]))
    ensures r.Success? && |dists| > 1 ==> ((forall k :: 0 <= k < |r.value| ==> r.value[k].prob > errTol) &&
      (maxDim > 0 ==> |r.value| <= maxDim))
  {
    if |dists| == 0 {
      return Failure(NoModes);
    }
    var state := PruneModes(dists, cutoff, maxDim, errTol);
    var top := TopDescending(state, chi);
    FinalSelection(dists, cutoff, state, chi, maxDim, errTol);
    return Success(top);
  }
}
