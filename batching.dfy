/** The batch partitioning around the selection kernel and the hafnian:
    `Sigma_select` launches the kernel over superblocks of at most 65535
    blocks of 16 batch items, and `A_elem` cuts the batch into chunks that
    fit a memory budget, appends each chunk's hafnians and divides by the
    denominators. The kernel and the hafnian are abstract per-item
    functions here. */
module Batching {
  import opened Common

  /** The largest grid dimension one launch may use. */
  const MaxBlocks: nat := 65535
  /** Batch items per block: the third component of threadsperblock. */
  const ItemsPerBlock: nat := 16
  /** Threads per block along each matrix axis: the first two components. */
  const ThreadsPerSide: nat := 4

  /** ceil(a / b) on naturals. */
  function CeilDiv(a: nat, b: nat): (q: nat)
    requires b > 0
    ensures q * b >= a && (q == 0 || (q - 1) * b < a)
  {
    (a + b - 1) / b
  }

  /** blockspergrid[2]: blocks needed to cover n items. */
  function Blocks(n: nat): nat
  {
    CeilDiv(n, ItemsPerBlock)
  }

  /** The number of superblocks the loop runs: Blocks(n) // 65535 + 1. */
  function Superblocks(n: nat): (count: nat)
    ensures count >= 1
  {
    Blocks(n) / MaxBlocks + 1
  }

  /** begin_batch of superblock id: the first item of its blocks. */
  function BeginBatch(id: nat): (b: nat)
    ensures b % (MaxBlocks * ItemsPerBlock) == 0 && b / (MaxBlocks * ItemsPerBlock) == id
  {
    id * MaxBlocks * ItemsPerBlock
  }

  /** end_batch of superblock id: its last block clipped at the block count,
      its last item clipped at n. Whatever id is, that is where the next
      superblock begins, clipped at n. */
  function EndBatch(n: nat, id: nat): (e: nat)
    ensures e <= n && e == Min(n, BeginBatch(id + 1))
  {
    var endBlock := if (id + 1) * MaxBlocks <= Blocks(n) then (id + 1) * MaxBlocks else Blocks(n);
    assert Blocks(n) * ItemsPerBlock >= n;
    if n <= endBlock * ItemsPerBlock then n else endBlock * ItemsPerBlock
  }

  /** The superblock ranges tile [0, n) in order: the first begins at 0,
      each range but the last ends at the smaller of n and the next range's
      begin, the last ends at n, no two overlap, none spans more than
      65535 * 16 items, and the last is empty (its begin at or past its end)
      exactly when Blocks(n) is a multiple of 65535. */
  lemma {:induction false} RangesTile(n: nat)
    ensures BeginBatch(0) == 0
    ensures forall id: nat :: id + 1 < Superblocks(n) ==> EndBatch(n, id) == Min(n, BeginBatch(id + 1))
    ensures EndBatch(n, Superblocks(n) - 1) == n
    ensures forall id1: nat, id2: nat :: id1 < id2 ==> EndBatch(n, id1) <= BeginBatch(id2)
    ensures forall id: nat :: EndBatch(n, id) <= BeginBatch(id) + MaxBlocks * ItemsPerBlock
    ensures BeginBatch(Superblocks(n) - 1) >= EndBatch(n, Superblocks(n) - 1) <==> Blocks(n) % MaxBlocks == 0
  {
    forall id: nat | id + 1 < Superblocks(n)
      ensures EndBatch(n, id) == Min(n, BeginBatch(id + 1))
    {
      NextBegin(n, id);
    }
    LastRange(n);
    forall id1: nat, id2: nat | id1 < id2
      ensures EndBatch(n, id1) <= BeginBatch(id2)
    {
      assert EndBatch(n, id1) <= BeginBatch(id1 + 1) == (id1 + 1) * (MaxBlocks * ItemsPerBlock);
    }
  }

  lemma {:induction false} NextBegin(n: nat, id: nat)
    requires id + 1 < Superblocks(n)
    ensures EndBatch(n, id) == Min(n, BeginBatch(id + 1))
  {
    var q := Blocks(n) / MaxBlocks;
    assert id + 1 <= q;
    assert (id + 1) * MaxBlocks <= q * MaxBlocks <= Blocks(n);
  }

  lemma {:induction false} LastRange(n: nat)
    ensures EndBatch(n, Superblocks(n) - 1) == n
    ensures BeginBatch(Superblocks(n) - 1) >= EndBatch(n, Superblocks(n) - 1) <==> Blocks(n) % MaxBlocks == 0
  {
    var q, r := Blocks(n) / MaxBlocks, Blocks(n) % MaxBlocks;
    assert Blocks(n) == q * MaxBlocks + r;
    assert Blocks(n) <= (q + 1) * MaxBlocks;
    assert BeginBatch(q) == q * MaxBlocks * ItemsPerBlock;
    if r != 0 {
      assert (Blocks(n) - 1) * ItemsPerBlock < n;
      assert q * MaxBlocks <= Blocks(n) - 1;
    }
  }

  /** A superblock that starts below the block count holds at least one
      item, and one that starts at or past it holds none. */
  lemma {:induction false} SuperblockNonEmpty(n: nat, id: nat)
    ensures id * MaxBlocks < Blocks(n) <==> BeginBatch(id) < EndBatch(n, id)
  {
    if id * MaxBlocks < Blocks(n) {
      assert id * MaxBlocks <= Blocks(n) - 1;
      assert (Blocks(n) - 1) * ItemsPerBlock < n;
      assert id * MaxBlocks * ItemsPerBlock <= (Blocks(n) - 1) * ItemsPerBlock;
    } else {
      assert id * MaxBlocks * ItemsPerBlock >= Blocks(n) * ItemsPerBlock >= n;
    }
  }

  /** Superblock id of the loop as written holds 65535 blocks, except the
      last, which holds what remains: none exactly when the block count is
      a multiple of 65535. */
  lemma {:induction false} SuperblockSize(n: nat, id: nat)
    requires id < Superblocks(n)
    ensures id * MaxBlocks <= Min((id + 1) * MaxBlocks, Blocks(n))
    ensures Min((id + 1) * MaxBlocks, Blocks(n)) == id * MaxBlocks <==> id + 1 == Superblocks(n) && Blocks(n) % MaxBlocks == 0
  {
    var q, r := Blocks(n) / MaxBlocks, Blocks(n) % MaxBlocks;
    assert Blocks(n) == q * MaxBlocks + r;
    assert id <= q;
    assert id * MaxBlocks <= q * MaxBlocks;
    if id < q {
      assert (id + 1) * MaxBlocks <= q * MaxBlocks;
    }
  }

  /** A batch whose block count is exactly 65535: the superblock loop as
      written runs twice, and the second superblock has no blocks and no
      items, while one superblock would have covered the batch. */
  lemma {:induction false} EmptyFinalLaunch()
    ensures Blocks(1048560) == MaxBlocks && Superblocks(1048560) == 2
    ensures BeginBatch(1) == EndBatch(1048560, 1) == 1048560
    ensures CeilDiv(Blocks(1048560), MaxBlocks) == 1
  {
  }

  /** The corrected superblock count, ceil(Blocks(n) / 65535): every
      superblock it launches holds items, and together they reach n. */
  lemma {:induction false} GuardedRangesTile(n: nat)
    ensures forall id: nat :: id < CeilDiv(Blocks(n), MaxBlocks) ==> BeginBatch(id) < EndBatch(n, id)
    ensures Min(n, BeginBatch(CeilDiv(Blocks(n), MaxBlocks))) == n
  {
    var g := CeilDiv(Blocks(n), MaxBlocks);
    forall id: nat | id < g
      ensures BeginBatch(id) < EndBatch(n, id)
    {
      assert id <= g - 1;
      assert id * MaxBlocks <= (g - 1) * MaxBlocks < Blocks(n);
      SuperblockNonEmpty(n, id);
    }
    assert BeginBatch(g) == g * MaxBlocks * ItemsPerBlock >= Blocks(n) * ItemsPerBlock >= n;
  }

  /** One launch of the kernel: item i of the launch selects with row i of
      its slice of the target. */
  function Launch<T>(rows: seq<seq<int>>, kernel: seq<int> -> T): (out: seq<T>)
    ensures |out| == |rows|
  {
    seq(|rows|, i requires 0 <= i < |rows| => kernel(rows[i]))
  }

  /** Sigma_select as written: blocks // 65535 + 1 superblocks, each launched
      with a grid of ceil(n_select / 4) x ceil(n_select / 4) x its block
      count. A grid with a zero dimension is an invalid launch: that happens
      when n_select is 0, and in the last superblock exactly when the block
      count is a multiple of 65535. Otherwise every item ends up selected
      with its own row of the target. */
  method SigmaSelect<T>(target: seq<seq<int>>, nSelect: nat, kernel: seq<int> -> T, blank: T)
    returns (r: Result<seq<T>, Error>)
    requires forall i :: 0 <= i < |target| ==> |target[i]| == nSelect
    ensures r.Failure? <==> nSelect == 0 || Blocks(|target|) % MaxBlocks == 0
    ensures r.Failure? ==> r.error == EmptyGrid
    ensures r.Success? ==> |r.value| == |target| && forall i :: 0 <= i < |target| ==> r.value[i] == kernel(target[i])
  {
    var n := |target|;
    var sigma2 := seq(n, _ => blank);
    var blocks := CeilDiv(n, ItemsPerBlock);
    var side := CeilDiv(nSelect, ThreadsPerSide);
    var id := 0;
    while id < blocks / MaxBlocks + 1
      invariant id <= Superblocks(n)
      invariant |sigma2| == n && (id > 0 ==> side > 0)
      invariant forall i :: 0 <= i < Min(n, BeginBatch(id)) ==> sigma2[i] == kernel(target[i])
      invariant id == Superblocks(n) ==> Blocks(n) % MaxBlocks != 0
    {
      var beginBlock := id * MaxBlocks;
      var endBlock := Min((id + 1) * MaxBlocks, blocks);
      var beginBatch := beginBlock * ItemsPerBlock;
      var endBatch := Min(n, endBlock * ItemsPerBlock);
      assert beginBatch == BeginBatch(id) && endBatch == EndBatch(n, id);
      SuperblockSize(n, id);
      if side == 0 || endBlock - beginBlock == 0 {
        return Failure(EmptyGrid);
      }
      SuperblockNonEmpty(n, id);
      sigma2 := LaunchInto(sigma2, target, kernel, beginBatch, endBatch);
      id := id + 1;
    }
    assert BeginBatch(id) >= Blocks(n) * ItemsPerBlock >= n;
    r := Success(sigma2);
  }

  /** Sigma_select with the superblock count corrected to
      ceil(blocks / 65535): only superblocks that hold items are launched,
      and every item ends up selected with its own row of the target. */
  method SigmaSelectGuarded<T>(target: seq<seq<int>>, kernel: seq<int> -> T, blank: T) returns (sigma2: seq<T>)
    ensures |sigma2| == |target|
    ensures forall i :: 0 <= i < |target| ==> sigma2[i] == kernel(target[i])
  {
    var n := |target|;
    sigma2 := seq(n, _ => blank);
    var blocks := CeilDiv(n, ItemsPerBlock);
    GuardedRangesTile(n);
    var count := CeilDiv(blocks, MaxBlocks);
    var id := 0;
    while id < count
      invariant id <= count
      invariant |sigma2| == n
      invariant forall i :: 0 <= i < Min(n, BeginBatch(id)) ==> sigma2[i] == kernel(target[i])
    {
      var beginBlock := id * MaxBlocks;
      var endBlock := Min((id + 1) * MaxBlocks, blocks);
      var beginBatch := beginBlock * ItemsPerBlock;
      var endBatch := Min(n, endBlock * ItemsPerBlock);
      assert beginBatch == BeginBatch(id) && endBatch == EndBatch(n, id);
      sigma2 := LaunchInto(sigma2, target, kernel, beginBatch, endBatch);
      id := id + 1;
    }
  }

  /** Writes one launch's slice of the output; nothing outside it changes. */
  method LaunchInto<T>(sigma2: seq<T>, target: seq<seq<int>>, kernel: seq<int> -> T, begin: nat, end: nat)
    returns (out: seq<T>)
    requires begin < end <= |sigma2| == |target|
    ensures |out| == |sigma2|
    ensures forall i :: begin <= i < end ==> out[i] == kernel(target[i])
    ensures forall i :: 0 <= i < |out| && !(begin <= i < end) ==> out[i] == sigma2[i]
  {
    out := sigma2[..begin] + Launch(target[begin..end], kernel) + sigma2[end..];
  }

  /** n_batch_max: how many selected matrices of n_select**2 entries of 8
      bytes fit in the budget. */
  function ChunkSize(budget: nat, nSelect: nat): (size: nat)
    requires nSelect > 0
    ensures size * (nSelect * nSelect * 8) <= budget < (size + 1) * (nSelect * nSelect * 8)
  {
    budget / (nSelect * nSelect * 8)
  }

  /** A_elem: the hafnian of every item, chunk by chunk, divided by its
      denominator. The budget is max_memory_in_gb * 10**9 in bytes; a chunk
      holds as many items as fit at n_select**2 entries of 8 bytes each. */
  method AElem<T>(target: seq<seq<int>>, nSelect: nat, denominator: seq<real>, budget: nat,
                  kernel: seq<int> -> T, blank: T, haf: T -> real)
    returns (r: Result<seq<real>, Error>)
    requires forall i :: 0 <= i < |target| ==> |target[i]| == nSelect
    requires |denominator| == |target|
    requires forall i :: 0 <= i < |denominator| ==> denominator[i] != 0.0
    ensures r == Failure(DivisionByZero) <==> nSelect == 0
    ensures r == Failure(ZeroStep) <==> nSelect > 0 && ChunkSize(budget, nSelect) == 0
    ensures r.Success? <==> nSelect > 0 && ChunkSize(budget, nSelect) > 0
    ensures r.Success? ==> |r.value| == |target|
    ensures r.Success? ==> forall i :: 0 <= i < |target| ==> r.value[i] == haf(kernel(target[i])) / denominator[i]
  {
    var n := |target|;
    if nSelect == 0 {
      return Failure(DivisionByZero);
    }
    var nBatchMax := ChunkSize(budget, nSelect);
    if nBatchMax == 0 {
      return Failure(ZeroStep);
    }
    var all: seq<real> := [];
    var begin := 0;
    while begin < n
      invariant |all| == Min(begin, n)
      invariant forall i :: 0 <= i < |all| ==> all[i] == haf(kernel(target[i]))
    {
      var end := Min(n, begin + nBatchMax);
      var sigma2 := SigmaSelectGuarded(target[begin..end], kernel, blank);
      var chunk := seq(|sigma2|, i requires 0 <= i < |sigma2| => haf(sigma2[i]));
      all := all + chunk;
      begin := begin + nBatchMax;
    }
    r := Success(seq(n, i requires 0 <= i < n => all[i] / denominator[i]));
  }
}
