/** Index layouts of the photon-number enumerator: the occupation table to
    target-index conversion (`get_target`), right alignment of index rows
    (`push_to_end`) and the row-wise Cartesian product (`cartesian`). */
module Enumerator {
  import opened Common

  /** np.sum(row): the total photon number of an occupation row. */
  function Total(row: seq<nat>): nat
    decreases |row|
  {
    if row == [] then 0 else Total(row[..|row| - 1]) + row[|row| - 1]
  }

  /** The photon slots of an occupation row, in mode order: mode i (0-based)
      contributes row[i] copies of its 1-based index i + 1. */
  function Slots(row: seq<nat>): seq<int>
    decreases |row|
  {
    if row == [] then [] else Slots(row[..|row| - 1]) + seq(row[|row| - 1], _ => |row|)
  }

  lemma {:induction false} TotalPrefix(row: seq<nat>, i: nat)
    requires i <= |row|
    ensures Total(row[..i]) <= Total(row)
    decreases |row|
  {
    if i < |row| {
      assert row[..|row| - 1][..i] == row[..i];
      TotalPrefix(row[..|row| - 1], i);
    } else {
      assert row[..i] == row;
    }
  }

  lemma {:induction false} SlotsLength(row: seq<nat>)
    ensures |Slots(row)| == Total(row)
    decreases |row|
  {
    if row != [] {
      SlotsLength(row[..|row| - 1]);
    }
  }

  /** Every slot holds a mode index in [1, |row|], and the indices never decrease. */
  lemma {:induction false} SlotsSorted(row: seq<nat>)
    ensures forall c :: 0 <= c < |Slots(row)| ==> 1 <= Slots(row)[c] <= |row|
    ensures forall c, d :: 0 <= c <= d < |Slots(row)| ==> Slots(row)[c] <= Slots(row)[d]
    decreases |row|
  {
    if row != [] {
      SlotsSorted(row[..|row| - 1]);
    }
  }

  /** Mode i occupies exactly the slots [Total(row[..i]), Total(row[..i+1])):
      row[i] consecutive slots, in mode order, starting at column 0. */
  lemma {:induction false} SlotsOfMode(row: seq<nat>, i: nat, c: nat)
    requires i < |row| && c < |Slots(row)|
    ensures Total(row[..i + 1]) == Total(row[..i]) + row[i]
    ensures Slots(row)[c] == i + 1 <==> Total(row[..i]) <= c < Total(row[..i + 1])
    decreases |row|
  {
    var last := |row| - 1;
    var init := row[..last];
    assert row[..i + 1][..i] == row[..i];
    SlotsLength(init);
    SlotsSorted(init);
    if c < |Slots(init)| {
      assert Slots(row)[c] == Slots(init)[c];
      if i < last {
        assert init[..i] == row[..i] && init[..i + 1] == row[..i + 1];
        SlotsOfMode(init, i, c);
      } else {
        assert row[..i] == init;
      }
    } else {
      assert Slots(row)[c] == last + 1;
      if i < last {
        assert init[..i + 1] == row[..i + 1];
        TotalPrefix(init, i + 1);
      } else {
        assert row[..i] == init && row[..i + 1] == row;
        SlotsLength(row);
      }
    }
  }

  /** n_select = np.sum(num, axis=1).max() */
  function MaxTotal(num: seq<seq<nat>>): (m: nat)
    requires |num| > 0
    ensures forall k :: 0 <= k < |num| ==> Total(num[k]) <= m
    ensures exists k :: 0 <= k < |num| && Total(num[k]) == m
    decreases |num|
  {
    if |num| == 1 then Total(num[0])
    else
      var m := MaxTotal(num[..|num| - 1]);
      if Total(num[|num| - 1]) > m then Total(num[|num| - 1]) else m
  }

  /** Row of the target after the first i modes have been accumulated. */
  function PartialTarget(row: seq<nat>, i: nat, width: nat): seq<int>
    requires i <= |row| && Total(row[..i]) <= width
  {
    Slots(row[..i]) + Zeros(width - Total(row[..i]))
  }

  /** target[k] += (i + 1) * mask, where the mask selects lo <= column < hi. */
  function AddMode(t: seq<int>, lo: nat, hi: nat, v: int): (r: seq<int>)
    ensures |r| == |t|
  {
    seq(|t|, c requires 0 <= c < |t| => t[c] + if lo <= c < hi then v else 0)
  }

  /** One mode step of get_target on one row: the mask
      Total(row[..i]) <= column < Total(row[..i+1]) adds i + 1 and leaves every
      other column as it was. */
  lemma {:induction false} PartialTargetStep(row: seq<nat>, i: nat, width: nat)
    requires i < |row| && Total(row) <= width
    ensures Total(row[..i + 1]) == Total(row[..i]) + row[i] <= width
    ensures PartialTarget(row, i + 1, width) ==
      AddMode(PartialTarget(row, i, width), Total(row[..i]), Total(row[..i]) + row[i], i + 1)
  {
    var pre, post := row[..i], row[..i + 1];
    assert post[..i] == pre;
    TotalPrefix(row, i + 1);
    SlotsLength(pre);
    SlotsLength(post);
    var lo := Total(pre);
    assert Slots(post) == Slots(pre) + seq(row[i], _ => i + 1);
    var before := PartialTarget(row, i, width);
    var after := PartialTarget(row, i + 1, width);
    var stepped := AddMode(before, lo, lo + row[i], i + 1);
    assert |after| == width == |stepped|;
    forall c | 0 <= c < width
      ensures after[c] == stepped[c]
    {
      if c < lo {
        assert after[c] == Slots(pre)[c] == before[c];
      } else if c < lo + row[i] {
        assert after[c] == i + 1 && before[c] == 0;
      } else {
        assert after[c] == 0 && before[c] == 0;
      }
    }
  }

  /** get_target: turns each occupation row into its slots, padded with zeros
      to the largest row total. An empty table has no maximum and raises. */
  method GetTarget(num: seq<seq<nat>>, nLen: nat) returns (r: Result<seq<seq<int>>, Error>)
    requires forall k :: 0 <= k < |num| ==> |num[k]| == nLen
    ensures r.Failure? <==> |num| == 0
    ensures r.Failure? ==> r.error == EmptyTable
    ensures r.Success? ==> (|r.value| == |num| &&
      forall k :: 0 <= k < |num| ==> r.value[k] == Slots(num[k]) + Zeros(MaxTotal(num) - Total(num[k])))
  {
    if |num| == 0 {
      return Failure(EmptyTable);
    }
    var nSelect := MaxTotal(num);
    var target := AccumulateModes(num, nLen, nSelect);
    return Success(target);
  }

  /** The mode loop of get_target, for a width that holds every row. */
  method AccumulateModes(num: seq<seq<nat>>, nLen: nat, nSelect: nat) returns (target: seq<seq<int>>)
    requires forall k :: 0 <= k < |num| ==> |num[k]| == nLen && Total(num[k]) <= nSelect
    ensures |target| == |num|
    ensures forall k :: 0 <= k < |num| ==> target[k] == Slots(num[k]) + Zeros(nSelect - Total(num[k]))
  {
    var nBatch := |num|;
    target := seq(nBatch, _ => Zeros(nSelect));
    var idxBegin: seq<nat> := seq(nBatch, _ => 0);
    var idxEnd: seq<nat> := seq(nBatch, _ => 0);
    forall k | 0 <= k < nBatch
      ensures Total(num[k][..0]) == 0 && target[k] == PartialTarget(num[k], 0, nSelect)
    {
      assert num[k][..0] == [];
    }
    for i := 0 to nLen
      invariant |target| == nBatch && |idxBegin| == nBatch && |idxEnd| == nBatch
      invariant forall k :: 0 <= k < nBatch ==> idxBegin[k] == idxEnd[k] == Total(num[k][..i]) <= nSelect
      invariant forall k :: 0 <= k < nBatch ==> target[k] == PartialTarget(num[k], i, nSelect)
    {
      target, idxBegin, idxEnd := AccumulateMode(num, nLen, nSelect, i, target, idxBegin, idxEnd);
    }
    forall k | 0 <= k < nBatch
      ensures target[k] == Slots(num[k]) + Zeros(nSelect - Total(num[k]))
    {
      assert num[k][..nLen] == num[k];
    }
  }

  /** One mode i of the loop of get_target: idx_end advances by the mode's
      counts and the mask between idx_begin and idx_end adds i + 1. */
  method AccumulateMode(num: seq<seq<nat>>, nLen: nat, nSelect: nat, i: nat,
                        target0: seq<seq<int>>, idxBegin0: seq<nat>, idxEnd0: seq<nat>)
    returns (target: seq<seq<int>>, idxBegin: seq<nat>, idxEnd: seq<nat>)
    requires forall k :: 0 <= k < |num| ==> |num[k]| == nLen && Total(num[k]) <= nSelect
    requires i < nLen && |target0| == |num| && |idxBegin0| == |num| && |idxEnd0| == |num|
    requires forall k :: 0 <= k < |num| ==> idxBegin0[k] == idxEnd0[k] == Total(num[k][..i]) <= nSelect
    requires forall k :: 0 <= k < |num| ==> target0[k] == PartialTarget(num[k], i, nSelect)
    ensures |target| == |num| && |idxBegin| == |num| && |idxEnd| == |num|
    ensures forall k :: 0 <= k < |num| ==> idxBegin[k] == idxEnd[k] == Total(num[k][..i + 1]) <= nSelect
    ensures forall k :: 0 <= k < |num| ==> target[k] == PartialTarget(num[k], i + 1, nSelect)
  {
    var nBatch := |num|;
    idxEnd := seq(nBatch, k requires 0 <= k < nBatch => idxEnd0[k] + num[k][i]);
    target := seq(nBatch, k requires 0 <= k < nBatch => AddMode(target0[k], idxBegin0[k], idxEnd[k], i + 1));
    idxBegin := idxEnd;
    forall k | 0 <= k < nBatch
      ensures idxBegin[k] == idxEnd[k] == Total(num[k][..i + 1]) <= nSelect
      ensures target[k] == PartialTarget(num[k], i + 1, nSelect)
    {
      PartialTargetStep(num[k], i, nSelect);
    }
  }

  /** Layout of a target row: width is the table's largest total, mode i
      fills exactly its row[i] consecutive slots, values never decrease, and
      every column from the row's total on is 0. */
  lemma {:induction false} TargetRowLayout(num: seq<seq<nat>>, k: nat, c: nat)
    requires k < |num| && c < MaxTotal(num)
    ensures |Slots(num[k]) + Zeros(MaxTotal(num) - Total(num[k]))| == MaxTotal(num)
    ensures var t := Slots(num[k]) + Zeros(MaxTotal(num) - Total(num[k]));
      && (c >= Total(num[k]) <==> t[c] == 0)
      && (c < Total(num[k]) ==> (1 <= t[c] <= |num[k]| &&
           forall i :: 0 <= i < |num[k]| ==> (t[c] == i + 1 <==> Total(num[k][..i]) <= c < Total(num[k][..i + 1]))))
  {
    var row := num[k];
    SlotsLength(row);
    SlotsSorted(row);
    forall i | 0 <= i < |row| && c < Total(row)
      ensures Slots(row)[c] == i + 1 <==> Total(row[..i]) <= c < Total(row[..i + 1])
    {
      SlotsOfMode(row, i, c);
    }
  }

  // ---------------------------------------------------------------------------
  // push_to_end

  /** The column that new_array[:, -idx] addresses: -0 is column 0. */
  function WrapColumn(n: nat, idx: nat): nat
    requires idx <= n
  {
    if idx == 0 then 0 else n - idx
  }

  /** State of push_to_end on one row after scanning i columns from the right:
      the count of nonzeros met so far and the output row. Every scanned
      value, zero or not, is written at column -count. */
  function PushState(row: seq<int>, i: nat): (state: (nat, seq<int>))
    requires i <= |row|
    ensures state.0 <= i && |state.1| == |row|
    ensures state.0 == |NonZeros(row[|row| - i..])|
    decreases i
  {
    if i == 0 then (0, Zeros(|row|))
    else
      var (idx, out) := PushState(row, i - 1);
      assert row[|row| - i..][1..] == row[|row| - (i - 1)..];
      var x := row[|row| - i];
      var idx' := if x != 0 then idx + 1 else idx;
      (idx', out[WrapColumn(|row|, idx') := x])
  }

  /** push_to_end on one row: the state after the whole row is scanned. */
  function PushRow(row: seq<int>): (r: seq<int>)
    ensures |r| == |row|
  {
    PushState(row, |row|).1
  }

  /** push_to_end on a batch of rows of equal width. */
  method PushToEnd(a: seq<seq<int>>, width: nat) returns (b: seq<seq<int>>)
    requires forall r :: 0 <= r < |a| ==> |a[r]| == width
    ensures |b| == |a|
    ensures forall r :: 0 <= r < |a| ==> b[r] == PushRow(a[r])
    ensures forall r :: 0 <= r < |a| && NonzeroPrefix(a[r]) ==> b[r] == RightAlign(a[r])
  {
    var nBatch := |a|;
    b := seq(nBatch, _ => Zeros(width));
    var idx: seq<nat> := seq(nBatch, _ => 0);
    for i := 1 to width + 1
      invariant |b| == nBatch && |idx| == nBatch
      invariant forall r :: 0 <= r < nBatch ==> (idx[r], b[r]) == PushState(a[r], i - 1)
    {
      idx := seq(nBatch, r requires 0 <= r < nBatch => if a[r][width - i] != 0 then idx[r] + 1 else idx[r]);
      b := seq(nBatch, r requires 0 <= r < nBatch => b[r][WrapColumn(width, idx[r]) := a[r][width - i]]);
    }
    forall r | 0 <= r < nBatch && NonzeroPrefix(a[r])
      ensures b[r] == RightAlign(a[r])
    {
      PushRowAgreesOnPrefixRows(a[r]);
    }
  }

  /** On a row whose nonzeros p come first, the scan leaves zeros until it
      reaches p, then writes p's elements from the right end inwards. */
  lemma {:induction false} PushStateOnPrefixRow(p: seq<int>, n: nat, i: nat)
    requires |p| <= n && i <= n
    requires forall k :: 0 <= k < |p| ==> p[k] != 0
    ensures var z := n - |p|;
      PushState(p + Zeros(z), i) == if i <= z then (0, Zeros(n)) else (i - z, Zeros(n - (i - z)) + p[n - i..])
  {
    var row := p + Zeros(n - |p|);
    var z := n - |p|;
    if i > 0 {
      PushStateOnPrefixRow(p, n, i - 1);
      var (idx, out) := PushState(row, i - 1);
      var x := row[n - i];
      if i <= z {
        assert x == 0;
        assert Zeros(n)[0 := 0] == Zeros(n);
      } else {
        assert x == p[n - i] != 0;
        var out' := out[n - (i - z) := x];
        if i - 1 == z {
          assert n - i == |p| - 1;
        } else {
          assert out == Zeros(n - (i - 1 - z)) + p[n - i + 1..];
        }
        assert out' == Zeros(n - (i - z)) + p[n - i..];
      }
    }
  }

  /** A row whose nonzeros form a prefix is right-aligned by push_to_end. */
  lemma {:induction false} PushRowOnPrefixRow(p: seq<int>, n: nat)
    requires |p| <= n
    requires forall k :: 0 <= k < |p| ==> p[k] != 0
    ensures PushRow(p + Zeros(n - |p|)) == Zeros(n - |p|) + p
  {
    PushStateOnPrefixRow(p, n, n);
    if |p| == 0 {
      assert Zeros(n) + p == Zeros(n);
    } else {
      assert p[n - n..] == p;
    }
  }

  /** Rows whose nonzeros all come before their zeros: the form get_target emits. */
  ghost predicate NonzeroPrefix(row: seq<int>)
  {
    forall c :: 0 < c < |row| && row[c] != 0 ==> row[c - 1] != 0
  }

  /** The nonzero entries of a row, in order. */
  function NonZeros(row: seq<int>): (r: seq<int>)
    ensures |r| <= |row|
    ensures forall k :: 0 <= k < |r| ==> r[k] != 0
  {
    if row == [] then [] else (if row[0] != 0 then [row[0]] else []) + NonZeros(row[1..])
  }

  /** What push_to_end is meant to compute: the nonzeros of the row, in
      order, in its last columns, zeros before them. */
  function RightAlign(row: seq<int>): (r: seq<int>)
    ensures |r| == |row|
  {
    Zeros(|row| - |NonZeros(row)|) + NonZeros(row)
  }

  lemma {:induction false} NonZerosConcat(a: seq<int>, b: seq<int>)
    ensures NonZeros(a + b) == NonZeros(a) + NonZeros(b)
    decreases |a|
  {
    if a != [] {
      assert (a + b)[1..] == a[1..] + b;
      NonZerosConcat(a[1..], b);
    } else {
      assert a + b == b;
    }
  }

  lemma {:induction false} NonZerosOfZeros(k: nat)
    ensures NonZeros(Zeros(k)) == []
  {
    if k > 0 {
      assert Zeros(k)[1..] == Zeros(k - 1);
      NonZerosOfZeros(k - 1);
    }
  }

  lemma {:induction false} NonZerosOfNonzeros(p: seq<int>)
    requires forall k :: 0 <= k < |p| ==> p[k] != 0
    ensures NonZeros(p) == p
  {
    if p != [] {
      NonZerosOfNonzeros(p[1..]);
      assert [p[0]] + p[1..] == p;
    }
  }

  /** A row in prefix form is its nonzeros followed by zeros. */
  lemma {:induction false} PrefixRowSplits(row: seq<int>)
    requires NonzeroPrefix(row)
    ensures row == NonZeros(row) + Zeros(|row| - |NonZeros(row)|)
  {
    if row != [] {
      var tail := row[1..];
      assert NonzeroPrefix(tail) by {
        forall c | 0 < c < |tail| && tail[c] != 0
          ensures tail[c - 1] != 0
        {
          assert row[c + 1] != 0;
        }
      }
      if row[0] != 0 {
        PrefixRowSplits(tail);
        assert row == [row[0]] + tail;
      } else {
        forall c | 0 <= c < |row|
          ensures row[c] == 0
        {
          AllZeroAfterZero(row, c);
        }
        assert row == Zeros(|row|);
        NonZerosOfZeros(|row|);
      }
    }
  }

  lemma {:induction false} AllZeroAfterZero(row: seq<int>, c: nat)
    requires NonzeroPrefix(row) && |row| > 0 && row[0] == 0 && c < |row|
    ensures row[c] == 0
  {
    if c > 0 {
      AllZeroAfterZero(row, c - 1);
    }
  }

  /** On prefix-form rows, push_to_end computes the intended right alignment. */
  lemma {:induction false} PushRowAgreesOnPrefixRows(row: seq<int>)
    requires NonzeroPrefix(row)
    ensures PushRow(row) == RightAlign(row)
  {
    PrefixRowSplits(row);
    PushRowOnPrefixRow(NonZeros(row), |row|);
  }

  /** Right alignment keeps the nonzeros and their order, and is idempotent. */
  lemma {:induction false} RightAlignKeepsNonzeros(row: seq<int>)
    ensures NonZeros(RightAlign(row)) == NonZeros(row)
    ensures RightAlign(RightAlign(row)) == RightAlign(row)
  {
    var p := NonZeros(row);
    NonZerosConcat(Zeros(|row| - |p|), p);
    NonZerosOfZeros(|row| - |p|);
    NonZerosOfNonzeros(p);
  }

  /** push_to_end as written: a zero scanned after a nonzero overwrites the
      last nonzero written, so the already right-aligned row [0, 5] loses its
      5 and a second application of push_to_end changes its first result. */
  lemma {:induction false} PushRowLosesNonzeros()
    ensures PushRow([0, 5]) == [0, 0] && RightAlign([0, 5]) == [0, 5]
    ensures PushRow([5, 0]) == [0, 5] && PushRow(PushRow([5, 0])) != PushRow([5, 0])
  {
    assert Zeros(2) == [0, 0];
    assert [0, 0][1 := 5] == [0, 5];
    assert PushState([0, 5], 1) == (1, [0, 5]);
    assert [0, 5][1 := 0] == [0, 0];
    assert [0, 0][0 := 0] == [0, 0];
    assert PushState([5, 0], 1) == (0, [0, 0]);
    assert PushState([5, 0], 2) == (1, [0, 5]);
    assert PushState([0, 5], 2) == (1, [0, 0]);
    assert NonZeros([0, 5]) == [5] by {
      assert [0, 5][1..] == [5];
      assert NonZeros([5]) == [5] by {
        assert [5][1..] == [];
      }
    }
  }

  // ---------------------------------------------------------------------------
  // cartesian

  /** cartesian accepts one- or two-dimensional arrays. */
  datatype NdArray = Vector(items: seq<int>) | Matrix(rows: seq<seq<int>>)

  /** A one-dimensional array is reshaped to a column: reshape(-1, 1). */
  function AsRows(a: NdArray): seq<seq<int>>
  {
    match a
    case Vector(v) => seq(|v|, i requires 0 <= i < |v| => [v[i]])
    case Matrix(m) => m
  }

  /** np.repeat(x, k, 0): each row repeated k times in place. */
  function RepeatRows(x: seq<seq<int>>, k: nat): (r: seq<seq<int>>)
    ensures |r| == |x| * k
  {
    if x == [] then [] else seq(k, _ => x[0]) + RepeatRows(x[1..], k)
  }

  /** np.tile(y, (m, 1)): the whole table repeated m times. */
  function TileRows(y: seq<seq<int>>, m: nat): (r: seq<seq<int>>)
    ensures |r| == m * |y|
  {
    if m == 0 then [] else y + TileRows(y, m - 1)
  }

  /** np.concatenate([x, y], axis=1) */
  function JoinColumns(x: seq<seq<int>>, y: seq<seq<int>>): (r: seq<seq<int>>)
    requires |x| == |y|
    ensures |r| == |x|
  {
    seq(|x|, p requires 0 <= p < |x| => x[p] + y[p])
  }

  /** cartesian(array1, array2): 1-D inputs become columns, then the first
      table's rows repeated in place are joined with the second table tiled. */
  function Cartesian(a1: NdArray, a2: NdArray): (r: seq<seq<int>>)
    ensures r == PairRows(AsRows(a1), AsRows(a2))
  {
    var x, y := AsRows(a1), AsRows(a2);
    JoinRepeatTile(x, y);
    JoinColumns(RepeatRows(x, |y|), TileRows(y, |x|))
  }

  /** The reference product [np.append(a, b) for a in array1 for b in array2]. */
  function PairRows(x: seq<seq<int>>, y: seq<seq<int>>): (r: seq<seq<int>>)
    ensures |r| == |x| * |y|
  {
    if x == [] then [] else seq(|y|, j requires 0 <= j < |y| => x[0] + y[j]) + PairRows(x[1..], y)
  }

  lemma {:induction false} JoinRepeatTile(x: seq<seq<int>>, y: seq<seq<int>>)
    ensures JoinColumns(RepeatRows(x, |y|), TileRows(y, |x|)) == PairRows(x, y)
    decreases |x|
  {
    if x != [] {
      JoinRepeatTile(x[1..], y);
      var head := seq(|y|, _ => x[0]);
      var rest := RepeatRows(x[1..], |y|);
      var tiles := TileRows(y, |x| - 1);
      assert RepeatRows(x, |y|) == head + rest;
      assert TileRows(y, |x|) == y + tiles;
      var joined := JoinColumns(head + rest, y + tiles);
      var first := seq(|y|, j requires 0 <= j < |y| => x[0] + y[j]);
      assert joined == first + JoinColumns(rest, tiles);
    }
  }

  /** cartesian equals the reference comprehension, so row i * len2 + j is
      row i of the first array followed by row j of the second. */
  lemma {:induction false} CartesianIsPairRows(a1: NdArray, a2: NdArray)
    ensures Cartesian(a1, a2) == PairRows(AsRows(a1), AsRows(a2))
  {
    JoinRepeatTile(AsRows(a1), AsRows(a2));
  }

  lemma {:induction false} PairRowsAt(x: seq<seq<int>>, y: seq<seq<int>>, i: nat, j: nat)
    requires i < |x| && j < |y|
    ensures i * |y| + j < |x| * |y|
    ensures PairRows(x, y)[i * |y| + j] == x[i] + y[j]
    decreases |x|
  {
    var head := seq(|y|, c requires 0 <= c < |y| => x[0] + y[c]);
    assert PairRows(x, y) == head + PairRows(x[1..], y);
    if i > 0 {
      var t := (i - 1) * |y| + j;
      PairRowsAt(x[1..], y, i - 1, j);
      assert i * |y| == (i - 1) * |y| + |y|;
      assert |x| * |y| == (|x| - 1) * |y| + |y|;
      assert PairRows(x, y)[|y| + t] == PairRows(x[1..], y)[t];
    } else {
      assert PairRows(x, y)[j] == head[j];
    }
  }
}
