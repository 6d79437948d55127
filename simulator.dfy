/**
 * The stand-alone simulation script (index.js at the repository root): pick
 * the put listed for the hard-coded next expiry at the strike closest below
 * the last price, walk its ask side without a price ceiling and without
 * placing orders, and compute the writer's pool share for the current epoch.
 */
module Simulator {
  import opened Results
  import opened Text
  import opened OrderFill
  import ExpirySymbol
  import Calendar
  import Deposits

  /** The expiry code the script looks for, fixed in its source. */
  const NextExpiry: string := "23NOV22"

  /** Day 19319 since the epoch falls in 2022, on its 327th day. */
  lemma DayOfNovember23()
    ensures Calendar.YearFromDay(19319) == 2022 && Calendar.DayWithinYear(19319) == 326
  {
    assert Calendar.DayFromYear(2022) == 18993 && Calendar.DayFromYear(2023) == 19358;
    Calendar.YearUnique(19319, Calendar.YearFromDay(19319), 2022);
  }

  /** The UTC date of 1669190400 s (2022-11-23 08:00 UTC). */
  lemma DateOfNovember23()
    ensures Calendar.UtcDateOf(1669190400 * 1000) == Calendar.UtcDate(2022, 10, 23)
  {
    assert Calendar.Day(1669190400 * 1000) == 19319;
    DayOfNovember23();
    assert !Calendar.InLeapYear(2022);
    assert Calendar.MonthFromDay(19319) == 10;
  }

  /** The epoch expiry 1669190400 renders as the script's expiry code. */
  lemma NextExpiryOfNovember23()
    ensures ExpirySymbol.DateCode(1669190400) == NextExpiry
  {
    DateOfNovember23();
    assert NatToString(23) == "23";
    assert NatToString(2022) == "2022";
    assert ExpirySymbol.MonthCode(10) == "NOV";
  }

  /** V8's message for reading `.symbol` of `markets[0]` when no market matched. */
  const NoMarket: string := "Cannot read properties of undefined (reading 'symbol')"

  /** (Math.floor(lastPrice / 25) * 25).toString(). */
  function Closest(lastPrice: real): (r: string)
    ensures r == IntToString(ExpirySymbol.Strike(lastPrice, 0.0))
  {
    assert lastPrice - 0.0 == lastPrice;
    IntToString(ExpirySymbol.FloorTo25(lastPrice))
  }

  /**
   * The market filter: fields 1, 2 and 3 of the symbol split on '-' are the
   * next expiry, the closest strike and "P". A field past the end is
   * undefined and equals no string.
   */
  predicate IsTarget(symbol: string, closest: string) {
    var f := Split(symbol, '-');
    |f| > 3 && f[1] == NextExpiry && f[2] == closest && f[3] == "P"
  }

  /** markets.filter(...): the matching symbols, in listing order. */
  function Targets(markets: seq<string>, closest: string): (r: seq<string>)
    ensures |r| <= |markets|
  {
    if markets == [] then []
    else (if IsTarget(markets[0], closest) then [markets[0]] else []) + Targets(markets[1..], closest)
  }

  /** The filter keeps exactly the matching symbols. */
  lemma {:induction false} TargetsMembers(markets: seq<string>, closest: string)
    ensures forall s :: s in Targets(markets, closest) <==> s in markets && IsTarget(s, closest)
  {
    if markets != [] {
      TargetsMembers(markets[1..], closest);
      assert markets == [markets[0]] + markets[1..];
    }
  }

  /** markets[0].symbol after the filter, or the TypeError when nothing matched. */
  function SelectMarket(markets: seq<string>, closest: string): (r: Result<string>)
    ensures r.Failure? ==> r.error == NoMarket
  {
    var targets := Targets(markets, closest);
    if targets == [] then Failure(NoMarket) else Success(targets[0])
  }

  /**
   * The selection fails exactly when no listed market matches; otherwise it
   * is the first matching market in listing order.
   */
  lemma {:induction false} SelectsFirstMatch(markets: seq<string>, closest: string)
    ensures SelectMarket(markets, closest).Failure? <==>
      forall j :: 0 <= j < |markets| ==> !IsTarget(markets[j], closest)
    ensures SelectMarket(markets, closest).Success? ==>
      exists j :: 0 <= j < |markets| && markets[j] == SelectMarket(markets, closest).value &&
        IsTarget(markets[j], closest) && forall i :: 0 <= i < j ==> !IsTarget(markets[i], closest)
  {
    if markets != [] {
      SelectsFirstMatch(markets[1..], closest);
      var tail := markets[1..];
      if !IsTarget(markets[0], closest) {
        assert Targets(markets, closest) == Targets(tail, closest);
        if SelectMarket(tail, closest).Success? {
          var j :| 0 <= j < |tail| && tail[j] == SelectMarket(tail, closest).value &&
            IsTarget(tail[j], closest) && forall i :: 0 <= i < j ==> !IsTarget(tail[i], closest);
          assert markets[j + 1] == tail[j];
          forall i | 0 <= i < j + 1
            ensures !IsTarget(markets[i], closest)
          {
            if i > 0 {
              assert markets[i] == tail[i - 1];
            }
          }
        } else {
          forall j | 0 <= j < |markets|
            ensures !IsTarget(markets[j], closest)
          {
            if j > 0 {
              assert markets[j] == tail[j - 1];
            }
          }
        }
      }
    }
  }

  /**
   * The put getExpirySymbol builds for an expiry whose date code is the
   * script's, with no premium and a non-negative strike, is the one the
   * script's filter picks.
   */
  lemma ExpirySymbolIsTarget(expiry: nat, lastPrice: real)
    requires ExpirySymbol.DateCode(expiry) == NextExpiry
    requires ExpirySymbol.Strike(lastPrice, 0.0) >= 0
    ensures IsTarget(ExpirySymbol.Symbol(expiry, lastPrice, 0.0), Closest(lastPrice))
  {
    ExpirySymbol.SymbolFields(expiry, lastPrice, 0.0);
  }

  /**
   * The script's walk: size min(remaining, level size) at every ask level
   * until nothing remains or the book runs out; it checks no price and
   * places no order. The loop guard stops at the last level.
   */
  method SimulateFill(symbol: string, book: seq<Entry>, toFill: real) returns (r: Fill)
    ensures r == Walk(symbol, Asks(book), toFill, NoCeiling, AllAccepted, [])
  {
    var orderbook := Asks(book);
    var remaining := toFill;
    var bought: seq<real> := [];
    if |orderbook| > 0 {
      var i := 0;
      while remaining > 0.0 && i < |orderbook|
        invariant 0 <= i <= |orderbook| && |bought| == i
        invariant Walk(symbol, orderbook, remaining, NoCeiling, AllAccepted, bought)
               == Walk(symbol, orderbook, toFill, NoCeiling, AllAccepted, [])
        decreases |orderbook| - i
      {
        var size := orderbook[i].size;
        var filled := 0.0;
        WalkStep(symbol, orderbook, remaining, NoCeiling, AllAccepted, bought);
        if remaining >= size {
          remaining := remaining - size;
          filled := filled + size;
        } else {
          filled := filled + remaining;
          remaining := 0.0;
        }
        bought := bought + [filled];
        i := i + 1;
      }
    }
    r := Fill(bought, remaining, if remaining <= 0.0 then Filled else Exhausted);
  }

  /**
   * Without a ceiling or an exchange to refuse, the walk only ends filled or
   * with the book used up; what it bought plus what is left is the amount
   * asked for; the amount left is never negative and, with non-negative
   * level sizes, never more than was asked for.
   */
  lemma SimulatedWalkEnds(symbol: string, asks: seq<Level>, toFill: real)
    ensures var r := Walk(symbol, asks, toFill, NoCeiling, AllAccepted, []);
      (r.stop == Filled || r.stop == Exhausted) &&
      Sum(r.bought) + r.remaining == toFill &&
      (r.stop == Exhausted ==> |r.bought| == |asks| && r.remaining > 0.0) &&
      (toFill >= 0.0 ==> r.remaining >= 0.0) &&
      ((forall k :: 0 <= k < |asks| ==> asks[k].size >= 0.0) ==> r.remaining <= toFill)
  {
    WalkSound(symbol, asks, toFill, NoCeiling, AllAccepted);
    if forall k :: 0 <= k < |asks| ==> asks[k].size >= 0.0 {
      RemainingNeverGrows(symbol, asks, toFill, NoCeiling, AllAccepted);
    }
  }

  /** One ask of 3 puts, 5 wanted: the as-written loop reads past the book, the corrected one stops. */
  lemma SimulatedReadPastEnd(symbol: string)
    ensures WalkAsWritten(symbol, [Level(10.0, 3.0)], 5.0, NoCeiling, AllAccepted)
         == Fill([3.0], 2.0, ReadPastEnd)
    ensures Walk(symbol, [Level(10.0, 3.0)], 5.0, NoCeiling, AllAccepted, [])
         == Fill([3.0], 2.0, Exhausted)
  {
    assert [] + [3.0] == [3.0];
  }

  /**
   * fillPuts(lastPrice, toFill) of the script: the closest strike, the first
   * matching market, its book from `books`, and the walk over its asks.
   */
  method SimulatedFillPuts(lastPrice: real, toFill: real, markets: seq<string>,
                           books: string -> seq<Entry>) returns (r: Result<Fill>)
    ensures SelectMarket(markets, Closest(lastPrice)).Failure? ==>
      r == Failure(SelectMarket(markets, Closest(lastPrice)).error)
    ensures SelectMarket(markets, Closest(lastPrice)).Success? ==>
      r == Success(Walk(SelectMarket(markets, Closest(lastPrice)).value,
                        Asks(books(SelectMarket(markets, Closest(lastPrice)).value)),
                        toFill, NoCeiling, AllAccepted, []))
  {
    var closest := Closest(lastPrice);
    var market := SelectMarket(markets, closest);
    if market.Failure? {
      return Failure(market.error);
    }
    var symbol := market.value;
    var fill := SimulateFill(symbol, books(symbol), toFill);
    return Success(fill);
  }

  /**
   * The script's pool share: the same two fatal errors as the engine, the
   * exact sum of the epoch's deposits, then the six-decimal percentage of
   * the epoch's total.
   */
  method LoadPoolShare(positions: seq<Deposits.WritePosition>, currentEpoch: nat, epochUsdDeposits: nat)
    returns (r: Result<real>)
    ensures r == if |positions| == 0 then Failure(Deposits.NoWritePositions)
      else if Deposits.ForEpoch(positions, currentEpoch) == [] then Failure(Deposits.NoWritePositionsForEpoch)
      else Deposits.PoolShare(Deposits.EpochDeposits(positions, currentEpoch), epochUsdDeposits)
  {
    var totalUsdDeposits := Deposits.WriterDeposits(positions, currentEpoch);
    if totalUsdDeposits.Failure? {
      return Failure(totalUsdDeposits.error);
    }
    r := Deposits.PoolShare(totalUsdDeposits.value, epochUsdDeposits);
  }
}
