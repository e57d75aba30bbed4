/** The target rows the site loops of the main program assemble before each
    call of A_elem. A target row lists, for one matrix element, the
    modes whose rows and columns the kernel selects: j leading zeros (the
    local mode, j photons), then the left row's mode indices, then the
    right row's indices shifted past the left modes. One row of the batch
    is modelled at a time; the batch axis is elementwise. */
module Builder {
  import opened Common
  import opened Enumerator
  import opened Batching

  /** What one (size, j) step of a site loop does for a row: either it
      writes the vacuum entry directly, or it hands a target row to A_elem. */
  datatype Outcome = VacuumEntry | Target(row: seq<int>)

  /** row[:k] */
  function Take(row: seq<int>, k: nat): (r: seq<int>)
    ensures |r| == Min(k, |row|)
  {
    row[..Min(k, |row|)]
  }

  /** row[-k:] for k > 0 (for k == 0 numpy selects the whole row, which is
      why the callers special-case size 0). */
  function LastColumns(row: seq<int>, k: nat): (r: seq<int>)
    requires k > 0
    ensures |r| == Min(k, |row|)
  {
    row[|row| - Min(k, |row|)..]
  }

  /** right_target_chosen[non_zero_locations] += num.shape[1] */
  function Offset(row: seq<int>, nModes: nat): (r: seq<int>)
    ensures |r| == |row|
  {
    seq(|row|, c requires 0 <= c < |row| => if row[c] != 0 then row[c] + nModes else 0)
  }

  /** target[-|s|:] += s, for 0 < |s| <= |t|. */
  function AddTail(t: seq<int>, s: seq<int>): (r: seq<int>)
    requires |s| <= |t|
    ensures |r| == |t|
  {
    t[..|t| - |s|] + seq(|s|, c requires 0 <= c < |s| => t[|t| - |s| + c] + s[c])
  }

  // ---------------------------------------------------------------------------
  // Interior sites

  /** The interior-site target for a left row and a right (push_to_end'ed)
      row whose totals add up to size, when the right block is added only
      if it has columns: what the assembly evidently intends. */
  function InteriorTargetGuarded(left: seq<int>, right: seq<int>, size: nat, j: nat, nModes: nat): (o: Outcome)
    ensures o.VacuumEntry? <==> size == 0 && j == 0
    ensures o.Target? ==> |o.row| == j + size
  {
    if size == 0 && j == 0 then VacuumEntry
    else Target(Zeros(j) + AddTail(Placed(left, size), Chosen(right, size, nModes)))
  }

  /** target = zeros(size); target[:, :wl] = left[:, :size] */
  function Placed(left: seq<int>, size: nat): (t: seq<int>)
    ensures |t| == size
  {
    Take(left, size) + Zeros(size - Min(size, |left|))
  }

  /** The shifted right block: right[:, -size:] with its nonzeros offset by
      nModes, and nothing when size is 0. */
  function Chosen(right: seq<int>, size: nat, nModes: nat): (s: seq<int>)
    ensures |s| <= size
  {
    if size == 0 then [] else Offset(LastColumns(right, size), nModes)
  }

  /** The interior-site target as written: when the right table has no
      columns, target[:, -0:] is the whole target and numpy cannot add the
      empty right block into it. */
  function InteriorTarget(left: seq<int>, right: seq<int>, size: nat, j: nat, nModes: nat): (r: Result<Outcome, Error>)
    ensures r.Failure? <==> size > 0 && |right| == 0
    ensures r.Success? ==> r.value == InteriorTargetGuarded(left, right, size, j, nModes)
  {
    if size > 0 && |right| == 0 then Failure(BroadcastMismatch)
    else Success(InteriorTargetGuarded(left, right, size, j, nModes))
  }

  /** For a left get_target row with a photons and a right push_to_end'ed
      get_target row with b photons, size = a + b, the assembled target is
      j zeros, the left mode indices, then the right mode indices shifted
      by the number of left modes; the vacuum case with j == 0 is written
      directly. */
  lemma {:induction false} InteriorLayout(ln: seq<nat>, rn: seq<nat>, wl: nat, wr: nat, j: nat)
    requires Total(ln) <= wl && Total(rn) <= wr
    ensures var size := Total(ln) + Total(rn);
      InteriorTargetGuarded(Slots(ln) + Zeros(wl - Total(ln)), Zeros(wr - Total(rn)) + Slots(rn), size, j, |ln|)
      == if size == 0 && j == 0 then VacuumEntry else Target(Zeros(j) + (Slots(ln) + Offset(Slots(rn), |ln|)))
  {
    var p: seq<int>, q: seq<int> := Slots(ln), Slots(rn);
    SlotsLength(ln);
    SlotsLength(rn);
    SlotsPositive(rn);
    BlocksMeet(p, q, Total(ln), Total(rn), wl, wr, |ln|);
  }

  lemma {:induction false} SlotsPositive(row: seq<nat>)
    ensures forall c :: 0 <= c < |Slots(row)| ==> Slots(row)[c] >= 1
  {
    SlotsSorted(row);
  }

  /** The left block fills the head of the target and the shifted right
      block its tail, and they meet without overlapping. */
  lemma {:induction false} BlocksMeet(p: seq<int>, q: seq<int>, a: nat, b: nat, wl: nat, wr: nat, nModes: nat)
    requires a == |p| <= wl && b == |q| <= wr
    requires forall c :: 0 <= c < |q| ==> q[c] >= 1
    ensures AddTail(Placed(p + Zeros(wl - a), a + b), Chosen(Zeros(wr - b) + q, a + b, nModes)) == p + Offset(q, nModes)
  {
    var size := a + b;
    var oq := Offset(q, nModes);
    PlacedLeft(p, wl, |q|);
    if size == 0 {
      assert p + Zeros(0) == p + oq;
    } else {
      ChosenRight(q, wr, size, nModes);
      TailSum(p, oq, Min(size, wr));
    }
  }

  /** target[:, :wl] = left[:size] on a zero target of width size = |p| + b. */
  lemma {:induction false} PlacedLeft(p: seq<int>, wl: nat, b: nat)
    requires |p| <= wl
    ensures Placed(p + Zeros(wl - |p|), |p| + b) == p + Zeros(b)
  {
    var size := |p| + b;
    var left := p + Zeros(wl - |p|);
    assert Take(left, size) == p + Zeros(Min(size, wl) - |p|);
  }

  /** The last size columns of a right-aligned row of slots q, shifted. */
  lemma {:induction false} ChosenRight(q: seq<int>, wr: nat, size: nat, nModes: nat)
    requires |q| <= wr && 0 < size && |q| <= size
    requires forall c :: 0 <= c < |q| ==> q[c] >= 1
    ensures Offset(LastColumns(Zeros(wr - |q|) + q, size), nModes) == Zeros(Min(size, wr) - |q|) + Offset(q, nModes)
  {
    var k := Min(size, wr);
    assert LastColumns(Zeros(wr - |q|) + q, size) == Zeros(k - |q|) + q;
  }

  /** Adding z zeros then q into the tail of p followed by |q| zeros
      yields p + q: the two blocks never overlap. */
  lemma {:induction false} TailSum(p: seq<int>, q: seq<int>, k: nat)
    requires |q| <= k <= |p| + |q|
    ensures AddTail(p + Zeros(|q|), Zeros(k - |q|) + q) == p + q
  {
    var t, s := p + Zeros(|q|), Zeros(k - |q|) + q;
    var r := AddTail(t, s);
    forall c | 0 <= c < |r|
      ensures r[c] == (p + q)[c]
    {
      if c >= |t| - |s| {
        var d := c - (|t| - |s|);
        assert r[c] == t[c] + s[d];
      }
    }
  }

  /** Every slot after the j zeros names a mode, and the indices never
      decrease: left modes 1..|ln| come before right modes past |ln|. */
  lemma {:induction false} InteriorSlotsOrdered(ln: seq<nat>, rn: seq<nat>)
    ensures var t := Slots(ln) + Offset(Slots(rn), |ln|);
      (forall c :: 0 <= c < |t| ==> 1 <= t[c] <= |ln| + |rn|) &&
      (forall c, d :: 0 <= c <= d < |t| ==> t[c] <= t[d]) &&
      (forall c :: 0 <= c < |t| ==> (t[c] <= |ln| <==> c < Total(ln)))
  {
    SlotsSorted(ln);
    SlotsSorted(rn);
    SlotsLength(ln);
  }

  /** With an empty right table the assembly fails although one left row
      already fills the target. */
  lemma {:induction false} InteriorEmptyRightFails()
    ensures InteriorTarget([1], [], 1, 0, 1) == Failure(BroadcastMismatch)
    ensures InteriorTargetGuarded([1], [], 1, 0, 1) == Target([1])
  {
    assert Take([1], 1) == [1];
    assert Placed([1], 1) == [1];
    assert AddTail([1], []) == [1];
  }

  // ---------------------------------------------------------------------------
  // The first site

  /** The first-site target: j zeros, then the left row's first size columns. */
  function FirstSiteTarget(left: seq<int>, size: nat, j: nat): (t: seq<int>)
    ensures |t| == j + Min(size, |left|)
  {
    Zeros(j) + Take(left, size)
  }

  /** The left get_target row with size photons gives exactly its slots. */
  lemma {:induction false} FirstSiteLayout(ln: seq<nat>, wl: nat, j: nat)
    requires Total(ln) <= wl
    ensures FirstSiteTarget(Slots(ln) + Zeros(wl - Total(ln)), Total(ln), j) == Zeros(j) + Slots(ln)
  {
    SlotsLength(ln);
    assert Take(Slots(ln) + Zeros(wl - Total(ln)), Total(ln)) == Slots(ln);
  }

  /** The first-site step as written: the selected left rows (those with
      size photons, all of the table's width wl >= size) go to A_elem with
      j zeros in front; for j == 0 and size == 0 the target has no columns
      and A_elem divides the budget by zero. */
  method FirstSiteAmplitudes<T>(rows: seq<seq<int>>, wl: nat, size: nat, j: nat, denominator: seq<real>,
                                budget: nat, kernel: seq<int> -> T, blank: T, haf: T -> real)
    returns (r: Result<seq<real>, Error>)
    requires forall i :: 0 <= i < |rows| ==> |rows[i]| == wl
    requires size <= wl
    requires |denominator| == |rows|
    requires forall i :: 0 <= i < |denominator| ==> denominator[i] != 0.0
    ensures r == Failure(DivisionByZero) <==> j == 0 && size == 0
    ensures r.Success? ==> |r.value| == |rows| && forall i :: 0 <= i < |rows| ==>
      r.value[i] == haf(kernel(FirstSiteTarget(rows[i], size, j))) / denominator[i]
  {
    var targets := seq(|rows|, i requires 0 <= i < |rows| => FirstSiteTarget(rows[i], size, j));
    r := AElem(targets, j + Min(size, wl), denominator, budget, kernel, blank, haf);
  }

  /** The first-site step with the vacuum case written directly, as the
      other two site loops do: the empty target's hafnian is 1, so A_elem
      is never handed a target without columns. */
  method FirstSiteAmplitudesGuarded<T>(rows: seq<seq<int>>, wl: nat, size: nat, j: nat, denominator: seq<real>,
                                       budget: nat, kernel: seq<int> -> T, blank: T, haf: T -> real)
    returns (r: Result<seq<real>, Error>)
    requires forall i :: 0 <= i < |rows| ==> |rows[i]| == wl
    requires size <= wl
    requires |denominator| == |rows|
    requires forall i :: 0 <= i < |denominator| ==> denominator[i] != 0.0
    ensures r != Failure(DivisionByZero)
    ensures size == 0 && j == 0 ==> r == Success(seq(|rows|, _ => 1.0))
    ensures r.Success? && !(size == 0 && j == 0) ==> |r.value| == |rows| && forall i :: 0 <= i < |rows| ==>
      r.value[i] == haf(kernel(FirstSiteTarget(rows[i], size, j))) / denominator[i]
  {
    if size == 0 && j == 0 {
      return Success(seq(|rows|, _ => 1.0));
    }
    r := FirstSiteAmplitudes(rows, wl, size, j, denominator, budget, kernel, blank, haf);
  }
}
