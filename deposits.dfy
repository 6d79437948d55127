/**
 * The writer's stake in the current epoch (run() in src/index.js and the
 * main block of index.js): keep the writer's write positions that belong to
 * the current epoch, add their USD deposits exactly, and express the sum as
 * a percentage of the epoch's total deposits with six decimals, which is
 * how bn.js integer division followed by a division by 1e6 comes out.
 */
module Deposits {
  import opened Results

  /** A write position: its epoch and its USD deposit (6-decimal fixed point). */
  datatype WritePosition = WritePosition(epoch: nat, usdDeposit: nat)

  const NoWritePositions: string := "No write positions to hedge"
  const NoWritePositionsForEpoch: string := "No write positions for this epoch to hedge"

  /** bn.js throws this when asked to divide by zero. */
  const DivisionByZero: string := "Assertion failed"

  /** Fixed-point scale of the pool share: 1e6 (multiplier) times 1e2 (percent). */
  const ShareScale: nat := 100000000

  /** The positions of the given epoch, in the order they were listed. */
  function ForEpoch(ps: seq<WritePosition>, epoch: nat): (r: seq<WritePosition>)
    ensures |r| <= |ps|
  {
    if ps == [] then []
    else ForEpoch(ps[..|ps| - 1], epoch) + (if ps[|ps| - 1].epoch == epoch then [ps[|ps| - 1]] else [])
  }

  /** The exact sum of the deposits. */
  function TotalDeposits(ps: seq<WritePosition>): nat {
    if ps == [] then 0 else TotalDeposits(ps[..|ps| - 1]) + ps[|ps| - 1].usdDeposit
  }

  /** An independent reference: every position's deposit, counted only when it is of the epoch. */
  function EpochDeposits(ps: seq<WritePosition>, epoch: nat): nat {
    if ps == [] then 0
    else EpochDeposits(ps[..|ps| - 1], epoch) + (if ps[|ps| - 1].epoch == epoch then ps[|ps| - 1].usdDeposit else 0)
  }

  /** The epoch filter keeps exactly the positions of that epoch. */
  lemma {:induction false} ForEpochMembers(ps: seq<WritePosition>, epoch: nat)
    ensures forall p :: p in ForEpoch(ps, epoch) <==> p in ps && p.epoch == epoch
  {
    if ps != [] {
      var init := ps[..|ps| - 1];
      assert ps == init + [ps[|ps| - 1]];
      ForEpochMembers(init, epoch);
    }
  }

  /** Summing the filtered positions counts each position of the epoch once and no other. */
  lemma {:induction false} TotalOfEpochPositions(ps: seq<WritePosition>, epoch: nat)
    ensures TotalDeposits(ForEpoch(ps, epoch)) == EpochDeposits(ps, epoch)
    ensures EpochDeposits(ps, epoch) <= TotalDeposits(ps)
  {
    if ps != [] {
      var init, last := ps[..|ps| - 1], ps[|ps| - 1];
      TotalOfEpochPositions(init, epoch);
      var f := ForEpoch(init, epoch);
      if last.epoch == epoch {
        assert (f + [last])[..|f|] == f;
      } else {
        assert f + [] == f;
      }
    }
  }

  /**
   * The writer's deposits for the epoch, with the source's two fatal errors:
   * no write positions at all, and none in the current epoch. The loops
   * follow the source: one builds writePositionsForEpoch, one accumulates
   * the deposits.
   */
  method WriterDeposits(ps: seq<WritePosition>, currentEpoch: nat) returns (r: Result<nat>)
    ensures |ps| == 0 ==> r == Failure(NoWritePositions)
    ensures |ps| > 0 && ForEpoch(ps, currentEpoch) == [] ==> r == Failure(NoWritePositionsForEpoch)
    ensures r.Failure? ==> r.error == NoWritePositions || r.error == NoWritePositionsForEpoch
    ensures r.Success? ==> r.value == EpochDeposits(ps, currentEpoch) && ForEpoch(ps, currentEpoch) != []
    ensures ForEpoch(ps, currentEpoch) != [] ==> r.Success?
  {
    if |ps| == 0 {
      return Failure(NoWritePositions);
    }
    var forEpoch: seq<WritePosition> := [];
    var i := 0;
    while i < |ps|
      invariant 0 <= i <= |ps|
      invariant forEpoch == ForEpoch(ps[..i], currentEpoch)
    {
      assert ps[..i + 1][..i] == ps[..i];
      if ps[i].epoch == currentEpoch {
        forEpoch := forEpoch + [ps[i]];
      }
      i := i + 1;
    }
    assert ps[..|ps|] == ps;
    if |forEpoch| == 0 {
      return Failure(NoWritePositionsForEpoch);
    }
    var total := 0;
    var j := 0;
    while j < |forEpoch|
      invariant 0 <= j <= |forEpoch|
      invariant total == TotalDeposits(forEpoch[..j])
    {
      assert forEpoch[..j + 1][..j] == forEpoch[..j];
      total := forEpoch[j].usdDeposit + total;
      j := j + 1;
    }
    assert forEpoch[..|forEpoch|] == forEpoch;
    TotalOfEpochPositions(ps, currentEpoch);
    return Success(total);
  }

  /**
   * The writer's share of the pool in percent: floor(writer * 1e8 / total)
   * read with six decimals. It fails only for an epoch without deposits, it
   * underestimates the exact percentage by less than 1e-6, and it is at most
   * 100 when the writer's deposits are part of the epoch's.
   */
  function PoolShare(writer: nat, epochTotal: nat): (r: Result<real>)
    ensures r.Failure? <==> epochTotal == 0
    ensures r.Failure? ==> r.error == DivisionByZero
    ensures r.Success? ==>
      0.0 <= r.value &&
      r.value * epochTotal as real <= 100.0 * writer as real &&
      100.0 * writer as real < (r.value + 0.000001) * epochTotal as real
    ensures r.Success? && writer <= epochTotal ==> r.value <= 100.0
    ensures r.Success? ==> (r.value * 1000000.0).Floor as real == r.value * 1000000.0
  {
    if epochTotal == 0 then Failure(DivisionByZero)
    else
      var q := writer * ShareScale / epochTotal;
      ShareBounds(writer * ShareScale, epochTotal);
      Success(q as real / 1000000.0)
  }

  /** Integer division brackets the exact quotient. */
  lemma ShareBounds(n: nat, d: nat)
    requires d > 0
    ensures (n / d) * d <= n < (n / d + 1) * d
  {
  }

  /** Writer deposits of 2,000,000 against an epoch total of 10,000,000 are a 20% share. */
  lemma PoolShareExample()
    ensures PoolShare(2000000, 10000000) == Success(20.0)
  {
    assert 2000000 * ShareScale / 10000000 == 20000000;
  }
}
