/** The site-claim loop of the MPS workers: every worker repeatedly takes
    the file lock, claims the lowest site whose flag in active_MPS_sites is
    still 0 by setting it to 1, and quits once no flag is 0. The lock makes
    one claim atomic, so the claims of all workers together form one
    sequence of claims on the shared flag array. */
module Scheduler {
  import opened Common

  /** No flag is 0: every site has been claimed. */
  predicate AllClaimed(flags: seq<int>)
  {
    forall i :: 0 <= i < |flags| ==> flags[i] != 0
  }

  /** uncomputed_sites[0]: the lowest site whose flag is 0, if any. */
  function FirstZero(flags: seq<int>): (r: Option<nat>)
    ensures r.None? <==> AllClaimed(flags)
    ensures r.Some? ==> r.value < |flags| && flags[r.value] == 0
    ensures r.Some? ==> forall i :: 0 <= i < r.value ==> flags[i] != 0
    decreases |flags|
  {
    if |flags| == 0 then None
    else match FirstZero(flags[..|flags| - 1])
      case Some(k) => Some(k)
      case None => if flags[|flags| - 1] == 0 then Some(|flags| - 1) else None
  }

  /** The flags after one claim: the claimed site is set to 1. */
  function AfterClaim(flags: seq<int>): (after: seq<int>)
    ensures |after| == |flags|
    ensures FirstZero(flags).None? ==> after == flags
    ensures FirstZero(flags).Some? ==> after[FirstZero(flags).value] == 1
    ensures forall i {:trigger after[i]} :: 0 <= i < |flags| && FirstZero(flags) != Some(i) ==> after[i] == flags[i]
  {
    match FirstZero(flags)
    case None => flags
    case Some(k) => flags[k := 1]
  }

  /** np.where(active_sites == 0)[0]: the sites still to compute, ascending. */
  function Uncomputed(flags: seq<int>): seq<nat>
    decreases |flags|
  {
    if |flags| == 0 then []
    else
      var rest := Uncomputed(flags[..|flags| - 1]);
      if flags[|flags| - 1] == 0 then rest + [|flags| - 1] else rest
  }

  /** One claim takes the head of the uncomputed sites and leaves exactly
      the rest of them uncomputed. */
  lemma {:induction false} ClaimTakesHead(flags: seq<int>)
    requires FirstZero(flags).Some?
    ensures Uncomputed(flags) == [FirstZero(flags).value] + Uncomputed(AfterClaim(flags))
    decreases |flags|
  {
    var n := |flags|;
    if FirstZero(flags).value == n - 1 {
      ClaimLast(flags);
    } else {
      ClaimBelowLast(flags);
      ClaimTakesHead(flags[..n - 1]);
      ClaimKeepsLast(flags, AfterClaim(flags), FirstZero(flags).value);
    }
  }

  /** The step of ClaimTakesHead: two flag arrays that agree on their last
      site and whose uncomputed sites below it differ by a head k differ by
      the same head. */
  lemma {:induction false} ClaimKeepsLast(flags: seq<int>, after: seq<int>, k: nat)
    requires |flags| == |after| > 0 && after[|after| - 1] == flags[|flags| - 1]
    requires Uncomputed(flags[..|flags| - 1]) == [k] + Uncomputed(after[..|after| - 1])
    ensures Uncomputed(flags) == [k] + Uncomputed(after)
  {
    var n := |flags|;
    var tail := if flags[n - 1] == 0 then [n - 1] else [];
    UncomputedSnoc(after);
    UncomputedSnoc(flags);
    assert ([k] + Uncomputed(after[..n - 1])) + tail == [k] + (Uncomputed(after[..n - 1]) + tail);
  }

  lemma {:induction false} UncomputedSnoc(flags: seq<int>)
    requires |flags| > 0
    ensures Uncomputed(flags)
            == Uncomputed(flags[..|flags| - 1]) + if flags[|flags| - 1] == 0 then [|flags| - 1] else []
  {
  }

  /** Claiming the last site leaves nothing uncomputed. */
  lemma {:induction false} ClaimLast(flags: seq<int>)
    requires FirstZero(flags) == Some(|flags| - 1)
    ensures Uncomputed(flags) == [|flags| - 1]
    ensures Uncomputed(flags[|flags| - 1 := 1]) == []
  {
    var n := |flags|;
    NoneUncomputed(flags[..n - 1]);
    assert flags[n - 1 := 1][..n - 1] == flags[..n - 1];
    NoneUncomputed(flags[n - 1 := 1]);
  }

  /** A claim below the last site is a claim on the flags without it. */
  lemma {:induction false} ClaimBelowLast(flags: seq<int>)
    requires FirstZero(flags).Some? && FirstZero(flags).value < |flags| - 1
    ensures FirstZero(flags[..|flags| - 1]) == FirstZero(flags)
    ensures AfterClaim(flags[..|flags| - 1]) == AfterClaim(flags)[..|flags| - 1]
  {
    var k := FirstZero(flags).value;
    FirstZeroIsLowest(flags[..|flags| - 1], k);
  }

  lemma {:induction false} NoneUncomputed(flags: seq<int>)
    requires AllClaimed(flags)
    ensures Uncomputed(flags) == []
    decreases |flags|
  {
    if |flags| > 0 {
      NoneUncomputed(flags[..|flags| - 1]);
    }
  }

  /** The uncomputed sites are exactly the sites whose flag is 0. */
  lemma {:induction false} UncomputedSites(flags: seq<int>)
    ensures forall a :: 0 <= a < |Uncomputed(flags)| ==> Uncomputed(flags)[a] < |flags|
    ensures forall x: nat :: x in Uncomputed(flags) <==> x < |flags| && flags[x] == 0
    decreases |flags|
  {
    if |flags| > 0 {
      UncomputedSites(flags[..|flags| - 1]);
    }
  }

  /** The uncomputed sites come in strictly ascending order, so none is
      listed twice. */
  lemma {:induction false} UncomputedAscending(flags: seq<int>)
    ensures forall a, b :: 0 <= a < b < |Uncomputed(flags)| ==> Uncomputed(flags)[a] < Uncomputed(flags)[b]
    decreases |flags|
  {
    if |flags| > 0 {
      UncomputedAscending(flags[..|flags| - 1]);
      UncomputedSites(flags[..|flags| - 1]);
    }
  }

  /** A fresh flag file: every one of the m sites is uncomputed, in order. */
  lemma {:induction false} FreshBoardUncomputed(m: nat)
    ensures Uncomputed(Zeros(m)) == seq(m, i => i)
  {
    if m > 0 {
      assert Zeros(m)[..m - 1] == Zeros(m - 1);
      FreshBoardUncomputed(m - 1);
    }
  }

  /** The flag array active_MPS_sites.npy, shared by all workers. */
  class SiteBoard {
    var flags: array<int>

    /** np.zeros(M): no site has been claimed. */
    constructor (m: nat)
      ensures fresh(flags) && flags.Length == m
      ensures flags[..] == Zeros(m)
    {
      flags := new int[m](_ => 0);
    }

    /** One locked claim: the lowest site with flag 0 is set to 1 and
        returned; with no such site nothing changes and the worker quits. */
    method Claim() returns (site: Option<nat>)
      modifies flags
      ensures site == FirstZero(old(flags[..]))
      ensures flags[..] == AfterClaim(old(flags[..]))
    {
      var k := 0;
      while k < flags.Length && flags[k] != 0
        invariant k <= flags.Length
        invariant forall i :: 0 <= i < k ==> flags[i] != 0
      {
        k := k + 1;
      }
      if k == flags.Length {
        site := None;
      } else {
        site := Some(k);
        FirstZeroIsLowest(flags[..], k);
        flags[k] := 1;
      }
    }

    /** All workers' claims until every one of them has quit: the claimed
        sites are exactly the uncomputed ones, each once, in ascending
        order, and afterwards no flag is 0. */
    method Drain() returns (claimed: seq<nat>)
      modifies flags
      ensures claimed == Uncomputed(old(flags[..]))
      ensures AllClaimed(flags[..])
    {
      claimed := [];
      var site := Claim();
      ClaimProgress(old(flags[..]));
      while site.Some?
        invariant claimed + Pending(site, flags[..]) == Uncomputed(old(flags[..]))
        invariant site.None? ==> AllClaimed(flags[..])
        decreases |Uncomputed(flags[..])|, if site.Some? then 1 else 0
      {
        ghost var before := flags[..];
        assert claimed + ([site.value] + Uncomputed(before)) == (claimed + [site.value]) + Uncomputed(before);
        claimed := claimed + [site.value];
        site := Claim();
        ClaimProgress(before);
      }
      NoneUncomputed(flags[..]);
    }
  }

  /** The sites a claim still owes: the one just claimed, if any, then the
      uncomputed ones. */
  function Pending(site: Option<nat>, flags: seq<int>): seq<nat>
  {
    match site
    case None => Uncomputed(flags)
    case Some(v) => [v] + Uncomputed(flags)
  }

  /** A claim moves the head of the uncomputed sites into the claimed site
      and leaves the rest uncomputed; finding none, it leaves every site
      claimed. */
  lemma {:induction false} ClaimProgress(flags: seq<int>)
    ensures Pending(FirstZero(flags), AfterClaim(flags)) == Uncomputed(flags)
    ensures FirstZero(flags).None? ==> AllClaimed(AfterClaim(flags))
  {
    if FirstZero(flags).Some? {
      ClaimTakesHead(flags);
    }
  }

  lemma {:induction false} FirstZeroIsLowest(flags: seq<int>, k: nat)
    requires k < |flags| && flags[k] == 0
    requires forall i :: 0 <= i < k ==> flags[i] != 0
    ensures FirstZero(flags) == Some(k)
  {
  }

  /** M workers' claims on a fresh board of M sites claim 0, 1, ..., M-1,
      each exactly once, and then every claim finds no site left. */
  method RunFreshBoard(m: nat) returns (claimed: seq<nat>)
    ensures claimed == seq(m, i => i)
  {
    var board := new SiteBoard(m);
    claimed := board.Drain();
    FreshBoardUncomputed(m);
  }
}
