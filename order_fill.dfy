/**
 * The order-fill engine of src/index.js (fillPuts and marketBuyPuts): walk
 * the ask side of a put's order book level by level, market-buying
 * min(remaining, level size) at each level whose price is within the
 * ceiling, until nothing remains to fill, the book runs out, a level is
 * priced above the ceiling, or the exchange rejects an order.
 */
module OrderFill {
  import opened Results

  datatype Side = Buy | Sell

  /** One entry of an order book as the exchange reports it. */
  datatype Entry = Entry(side: Side, price: real, size: real)

  /** One ask level: a price and the size offered at it. */
  datatype Level = Level(price: real, size: real)

  /** orderbook.filter(order => order.side === "Sell"): the ask levels, in book order. */
  function Asks(book: seq<Entry>): (r: seq<Level>)
    ensures |r| <= |book|
    decreases |book|
  {
    if book == [] then []
    else
      var last := book[|book| - 1];
      Asks(book[..|book| - 1]) + (if last.side == Sell then [Level(last.price, last.size)] else [])
  }

  /** The ask levels are exactly the sell entries of the book. */
  lemma {:induction false} AsksAreTheSells(book: seq<Entry>)
    ensures forall e :: e in book && e.side == Sell ==> Level(e.price, e.size) in Asks(book)
    ensures forall l :: l in Asks(book) ==> Entry(Sell, l.price, l.size) in book
    decreases |book|
  {
    if book != [] {
      var init, last := book[..|book| - 1], book[|book| - 1];
      assert book == init + [last];
      AsksAreTheSells(init);
    }
  }

  /** Filtering a concatenation filters each part in place: the ask side keeps book order and multiplicity. */
  lemma {:induction false} AsksAppend(a: seq<Entry>, b: seq<Entry>)
    ensures Asks(a + b) == Asks(a) + Asks(b)
    decreases |b|
  {
    if b == [] {
      assert a + b == a;
    } else {
      var init := b[..|b| - 1];
      assert (a + b)[..|a + b| - 1] == a + init;
      assert (a + b)[|a + b| - 1] == b[|b| - 1];
      AsksAppend(a, init);
    }
  }

  /** A one-entry book: a sell entry becomes one level, a buy entry none. */
  lemma AsksOfOne(e: Entry)
    ensures Asks([e]) == if e.side == Sell then [Level(e.price, e.size)] else []
  {
    assert [e][..0] == [];
  }

  /**
   * The most the walk may pay per put. The source compares each ask with a
   * JavaScript number that may be finite, +Infinity (every price is
   * accepted: NoCeiling) or NaN / -Infinity (no price is accepted).
   */
  datatype Ceiling = AtMost(limit: real) | NoCeiling | AdmitsNothing

  /** orderbook[i].price <= premiumPerStraddle. */
  predicate Admits(c: Ceiling, price: real) {
    match c
    case AtMost(limit) => price <= limit
    case NoCeiling => true
    case AdmitsNothing => false
  }

  /** A ceiling that admits a price admits every lower one, and NaN admits none. */
  lemma AdmitsBelow(c: Ceiling, price: real, lower: real)
    requires lower <= price
    ensures Admits(c, price) ==> Admits(c, lower)
    ensures c.NoCeiling? ==> Admits(c, price)
    ensures c.AdmitsNothing? ==> !Admits(c, price)
  {
  }

  /** The exchange's reply to an order submission. */
  datatype Response = Response(retCode: int, retMsg: string)

  /** An exchange that accepts every order. */
  function AllAccepted(symbol: string, n: nat): Response {
    Response(0, "OK")
  }

  /**
   * marketBuyPuts after the submission returned: the error it throws, or
   * None when the exchange accepted the order.
   */
  function MarketBuyPuts(reply: Response): (r: Option<string>)
    ensures r == None <==> reply.retCode == 0
    ensures r.Some? ==> r.value == "Bybit: submitting order: " + reply.retMsg
  {
    if reply.retCode != 0 then Some("Bybit: submitting order: " + reply.retMsg) else None
  }

  /** Why a walk ended. */
  datatype Stop =
    | Filled              // nothing (left) to fill
    | Exhausted           // every ask level was used
    | PriceTooHigh        // the next ask is above the ceiling
    | Rejected(reason: string)  // the exchange rejected an order; the walk threw
    | ReadPastEnd         // the walk read the level after the last one and threw a TypeError

  /** The orders a walk placed, one per visited level in book order, what was left, and why it ended. */
  datatype Fill = Fill(bought: seq<real>, remaining: real, stop: Stop)

  function Min(a: real, b: real): real {
    if a <= b then a else b
  }

  function Sum(s: seq<real>): real {
    if s == [] then 0.0 else Sum(s[..|s| - 1]) + s[|s| - 1]
  }

  lemma SumAppend(s: seq<real>, x: real)
    ensures Sum(s + [x]) == Sum(s) + x
  {
    assert (s + [x])[..|s|] == s;
  }

  /**
   * The walk from the level after the ones already bought at: `respond(symbol, n)`
   * is the exchange's reply to the n-th order of this walk, and the n-th order
   * is placed at level n.
   */
  function Walk(symbol: string, asks: seq<Level>, toFill: real, ceiling: Ceiling,
                respond: (string, nat) -> Response, bought: seq<real>): Fill
    requires |bought| <= |asks|
    decreases |asks| - |bought|
  {
    var i := |bought|;
    if toFill <= 0.0 then Fill(bought, toFill, Filled)
    else if i == |asks| then Fill(bought, toFill, Exhausted)
    else if !Admits(ceiling, asks[i].price) then Fill(bought, toFill, PriceTooHigh)
    else
      var q := if toFill >= asks[i].size then asks[i].size else toFill;
      match MarketBuyPuts(respond(symbol, i))
      case Some(reason) => Fill(bought, toFill, Rejected(reason))
      case None => Walk(symbol, asks, toFill - q, ceiling, respond, bought + [q])
  }

  /**
   * The order at level k was placed as the walk places it: the level is
   * within the ceiling, something was still to fill after the orders before
   * it, its size is min(still to fill, level size), and the exchange
   * accepted it.
   */
  ghost predicate PlacedAt(symbol: string, asks: seq<Level>, toFill: real, ceiling: Ceiling,
                           respond: (string, nat) -> Response, bought: seq<real>, k: nat)
    requires k < |bought| && k < |asks|
  {
    Admits(ceiling, asks[k].price) &&
    toFill - Sum(bought[..k]) > 0.0 &&
    bought[k] == Min(toFill - Sum(bought[..k]), asks[k].size) &&
    respond(symbol, k).retCode == 0
  }

  /**
   * The recursive proof form of BuysFollowBook, peeling off the last order:
   * the loop invariants and the inductions use it, and PlacedEach turns it
   * into BuysFollowBook's statement about each order.
   */
  ghost predicate Placed(symbol: string, asks: seq<Level>, toFill: real, ceiling: Ceiling,
                         respond: (string, nat) -> Response, bought: seq<real>)
    decreases |bought|
  {
    |bought| <= |asks| &&
    (bought != [] ==>
      Placed(symbol, asks, toFill, ceiling, respond, bought[..|bought| - 1]) &&
      PlacedAt(symbol, asks, toFill, ceiling, respond, bought, |bought| - 1))
  }

  /** Every order placed so far is at its own level in book order, as PlacedAt says. */
  ghost predicate BuysFollowBook(symbol: string, asks: seq<Level>, toFill: real, ceiling: Ceiling,
                                 respond: (string, nat) -> Response, bought: seq<real>)
  {
    |bought| <= |asks| &&
    forall k: nat {:trigger asks[k]} :: k < |bought| ==> PlacedAt(symbol, asks, toFill, ceiling, respond, bought, k)
  }

  /** How one fill of toFill ended: what was bought, what is left, and why it stopped. */
  ghost predicate Ended(symbol: string, asks: seq<Level>, toFill: real, ceiling: Ceiling,
                        respond: (string, nat) -> Response, r: Fill)
    requires |r.bought| <= |asks|
  {
    Sum(r.bought) + r.remaining == toFill &&
    (toFill >= 0.0 ==> r.remaining >= 0.0) &&
    (r.stop == Filled <==> r.remaining <= 0.0) &&
    (r.stop == Exhausted ==> |r.bought| == |asks|) &&
    (r.stop == PriceTooHigh ==> |r.bought| < |asks| && !Admits(ceiling, asks[|r.bought|].price)) &&
    (r.stop.Rejected? ==>
      |r.bought| < |asks| && Admits(ceiling, asks[|r.bought|].price) &&
      MarketBuyPuts(respond(symbol, |r.bought|)) == Some(r.stop.reason)) &&
    r.stop != ReadPastEnd
  }

  /** What the engine promises about the outcome of one fill of toFill. */
  ghost predicate Walked(symbol: string, asks: seq<Level>, toFill: real, ceiling: Ceiling,
                         respond: (string, nat) -> Response, r: Fill)
  {
    BuysFollowBook(symbol, asks, toFill, ceiling, respond, r.bought) &&
    Ended(symbol, asks, toFill, ceiling, respond, r)
  }

  /** The order-by-order record gives the fact about each order. */
  lemma {:induction false} PlacedEach(symbol: string, asks: seq<Level>, toFill: real, ceiling: Ceiling,
                                      respond: (string, nat) -> Response, bought: seq<real>, k: nat)
    requires Placed(symbol, asks, toFill, ceiling, respond, bought) && k < |bought|
    ensures PlacedAt(symbol, asks, toFill, ceiling, respond, bought, k)
    decreases |bought|
  {
    var n := |bought| - 1;
    if k < n {
      var init := bought[..n];
      PlacedEach(symbol, asks, toFill, ceiling, respond, init, k);
      assert init[..k] == bought[..k] && init[k] == bought[k];
    }
  }

  /** One accepted order at the next level within the ceiling: the walk continues from there. */
  lemma WalkStep(symbol: string, asks: seq<Level>, t: real, ceiling: Ceiling,
                 respond: (string, nat) -> Response, bought: seq<real>)
    requires |bought| < |asks| && t > 0.0
    requires Admits(ceiling, asks[|bought|].price) && respond(symbol, |bought|).retCode == 0
    ensures var q := Min(t, asks[|bought|].size);
      Walk(symbol, asks, t, ceiling, respond, bought)
        == Walk(symbol, asks, t - q, ceiling, respond, bought + [q])
  {
  }

  /** Adding the order the walk places next keeps the record of orders consistent. */
  lemma PlacedExtend(symbol: string, asks: seq<Level>, toFill: real, ceiling: Ceiling,
                     respond: (string, nat) -> Response, bought: seq<real>, t: real)
    requires Placed(symbol, asks, toFill, ceiling, respond, bought)
    requires Sum(bought) + t == toFill && t > 0.0 && |bought| < |asks|
    requires Admits(ceiling, asks[|bought|].price) && respond(symbol, |bought|).retCode == 0
    ensures var next := bought + [Min(t, asks[|bought|].size)];
      Placed(symbol, asks, toFill, ceiling, respond, next) &&
      Sum(next) + (t - Min(t, asks[|bought|].size)) == toFill
  {
    var next := bought + [Min(t, asks[|bought|].size)];
    assert next[..|bought|] == bought;
    SumAppend(bought, Min(t, asks[|bought|].size));
  }

  /** A walk that ends at the current state keeps its promises. */
  lemma WalkStopsHere(symbol: string, asks: seq<Level>, toFill: real, ceiling: Ceiling,
                      respond: (string, nat) -> Response, t: real, bought: seq<real>)
    requires |bought| <= |asks|
    requires Sum(bought) + t == toFill
    requires toFill >= 0.0 ==> t >= 0.0
    requires !(t > 0.0 && |bought| < |asks| && Admits(ceiling, asks[|bought|].price) && respond(symbol, |bought|).retCode == 0)
    ensures Walk(symbol, asks, t, ceiling, respond, bought).bought == bought
    ensures Ended(symbol, asks, toFill, ceiling, respond, Walk(symbol, asks, t, ceiling, respond, bought))
  {
  }

  /** The walk keeps its promises from any consistent intermediate state. */
  lemma {:induction false} WalkFromState(symbol: string, asks: seq<Level>, toFill: real, ceiling: Ceiling,
                                         respond: (string, nat) -> Response, t: real, bought: seq<real>)
    requires Placed(symbol, asks, toFill, ceiling, respond, bought)
    requires Sum(bought) + t == toFill
    requires toFill >= 0.0 ==> t >= 0.0
    ensures var r := Walk(symbol, asks, t, ceiling, respond, bought);
      Placed(symbol, asks, toFill, ceiling, respond, r.bought) &&
      Ended(symbol, asks, toFill, ceiling, respond, r)
    decreases |asks| - |bought|
  {
    var i := |bought|;
    if t > 0.0 && i < |asks| && Admits(ceiling, asks[i].price) && respond(symbol, i).retCode == 0 {
      var q := Min(t, asks[i].size);
      PlacedExtend(symbol, asks, toFill, ceiling, respond, bought, t);
      WalkStep(symbol, asks, t, ceiling, respond, bought);
      WalkFromState(symbol, asks, toFill, ceiling, respond, t - q, bought + [q]);
    } else {
      WalkStopsHere(symbol, asks, toFill, ceiling, respond, t, bought);
    }
  }

  /** The fill walk started from the top of the book keeps every promise of the engine. */
  lemma WalkSound(symbol: string, asks: seq<Level>, toFill: real, ceiling: Ceiling,
                  respond: (string, nat) -> Response)
    ensures Walked(symbol, asks, toFill, ceiling, respond, Walk(symbol, asks, toFill, ceiling, respond, []))
  {
    var r := Walk(symbol, asks, toFill, ceiling, respond, []);
    WalkFromState(symbol, asks, toFill, ceiling, respond, toFill, []);
    forall k: nat | k < |r.bought|
      ensures PlacedAt(symbol, asks, toFill, ceiling, respond, r.bought, k)
    {
      PlacedEach(symbol, asks, toFill, ceiling, respond, r.bought, k);
    }
  }

  lemma {:induction false} SumNonNegative(s: seq<real>)
    requires forall k :: 0 <= k < |s| ==> s[k] >= 0.0
    ensures Sum(s) >= 0.0
  {
    if s != [] {
      SumNonNegative(s[..|s| - 1]);
    }
  }

  /** With non-negative level sizes the amount left to fill never grows. */
  lemma RemainingNeverGrows(symbol: string, asks: seq<Level>, toFill: real, ceiling: Ceiling,
                            respond: (string, nat) -> Response)
    requires forall k :: 0 <= k < |asks| ==> asks[k].size >= 0.0
    ensures Walk(symbol, asks, toFill, ceiling, respond, []).remaining <= toFill
  {
    var r := Walk(symbol, asks, toFill, ceiling, respond, []);
    WalkSound(symbol, asks, toFill, ceiling, respond);
    forall k | 0 <= k < |r.bought|
      ensures r.bought[k] >= 0.0
    {
      assert asks[k].size >= 0.0;
    }
    SumNonNegative(r.bought);
  }

  /** An empty ask side places no order and leaves the whole amount unfilled. */
  lemma EmptyBookBuysNothing(symbol: string, toFill: real, ceiling: Ceiling, respond: (string, nat) -> Response)
    ensures var r := Walk(symbol, [], toFill, ceiling, respond, []);
      r.bought == [] && r.remaining == toFill
  {
  }

  /**
   * fillPuts(symbol, toFill, premiumPerStraddle): filters the fetched book to
   * its asks and walks them as the source's while loop does, with the loop
   * guard stopping at the last level.
   */
  method FillPuts(symbol: string, book: seq<Entry>, toFill: real, ceiling: Ceiling,
                  respond: (string, nat) -> Response) returns (r: Fill)
    ensures r == Walk(symbol, Asks(book), toFill, ceiling, respond, [])
  {
    var orderbook := Asks(book);
    var remaining := toFill;
    var bought: seq<real> := [];
    if |orderbook| > 0 {
      var i := 0;
      var priceTooHigh := false;
      while remaining > 0.0 && i < |orderbook| && !priceTooHigh
        invariant 0 <= i <= |orderbook| && |bought| == i
        invariant priceTooHigh ==> remaining > 0.0 && i < |orderbook| && !Admits(ceiling, orderbook[i].price)
        invariant Walk(symbol, orderbook, remaining, ceiling, respond, bought)
               == Walk(symbol, orderbook, toFill, ceiling, respond, [])
        decreases |orderbook| - i, if priceTooHigh then 0 else 1
      {
        if Admits(ceiling, orderbook[i].price) {
          var size := orderbook[i].size;
          var filled := 0.0;
          var error := MarketBuyPuts(respond(symbol, i));
          if error.Some? {
            r := Fill(bought, remaining, Rejected(error.value));
            return;
          }
          WalkStep(symbol, orderbook, remaining, ceiling, respond, bought);
          if remaining >= size {
            remaining := remaining - size;
            filled := filled + size;
          } else {
            filled := filled + remaining;
            remaining := 0.0;
          }
          bought := bought + [filled];
          i := i + 1;
        } else {
          priceTooHigh := true;
        }
      }
      r := Fill(bought, remaining, if priceTooHigh then PriceTooHigh else if remaining <= 0.0 then Filled else Exhausted);
    } else {
      r := Fill(bought, remaining, if remaining <= 0.0 then Filled else Exhausted);
    }
  }

  /**
   * The walk as the source writes its loop guard, `i <= orderbook.length`:
   * when the book runs out with something still to fill, the loop reads the
   * level after the last, which is undefined, and throws.
   */
  function WalkAsWrittenFrom(symbol: string, asks: seq<Level>, toFill: real, ceiling: Ceiling,
                             respond: (string, nat) -> Response, bought: seq<real>): Fill
    requires |bought| <= |asks|
    decreases |asks| - |bought|
  {
    var i := |bought|;
    if toFill <= 0.0 then Fill(bought, toFill, Filled)
    else if i == |asks| then Fill(bought, toFill, ReadPastEnd)
    else if !Admits(ceiling, asks[i].price) then Fill(bought, toFill, PriceTooHigh)
    else
      var q := if toFill >= asks[i].size then asks[i].size else toFill;
      match MarketBuyPuts(respond(symbol, i))
      case Some(reason) => Fill(bought, toFill, Rejected(reason))
      case None => WalkAsWrittenFrom(symbol, asks, toFill - q, ceiling, respond, bought + [q])
  }

  /** The as-written walk, behind the source's `orderbook.length > 0` check. */
  function WalkAsWritten(symbol: string, asks: seq<Level>, toFill: real, ceiling: Ceiling,
                         respond: (string, nat) -> Response): Fill
  {
    if |asks| > 0 then WalkAsWrittenFrom(symbol, asks, toFill, ceiling, respond, [])
    else Fill([], toFill, if toFill <= 0.0 then Filled else Exhausted)
  }

  lemma {:induction false} AsWrittenFromAgrees(symbol: string, asks: seq<Level>, toFill: real, ceiling: Ceiling,
                                               respond: (string, nat) -> Response, bought: seq<real>)
    requires |bought| <= |asks|
    ensures var r := Walk(symbol, asks, toFill, ceiling, respond, bought);
      WalkAsWrittenFrom(symbol, asks, toFill, ceiling, respond, bought)
        == if r.stop == Exhausted then r.(stop := ReadPastEnd) else r
    decreases |asks| - |bought|
  {
    var i := |bought|;
    if toFill > 0.0 && i < |asks| && Admits(ceiling, asks[i].price) && respond(symbol, i).retCode == 0 {
      var q := if toFill >= asks[i].size then asks[i].size else toFill;
      AsWrittenFromAgrees(symbol, asks, toFill - q, ceiling, respond, bought + [q]);
    }
  }

  /**
   * The as-written walk and the corrected one agree on every input except
   * one: a non-empty book used up with something still to fill, where the
   * corrected walk stops and the as-written one throws.
   */
  lemma AsWrittenDiffersOnlyWhenBookRunsOut(symbol: string, asks: seq<Level>, toFill: real, ceiling: Ceiling,
                                            respond: (string, nat) -> Response)
    ensures var r := Walk(symbol, asks, toFill, ceiling, respond, []);
      WalkAsWritten(symbol, asks, toFill, ceiling, respond)
        == if r.stop == Exhausted && |asks| > 0 then r.(stop := ReadPastEnd) else r
  {
    if |asks| > 0 {
      AsWrittenFromAgrees(symbol, asks, toFill, ceiling, respond, []);
    }
  }

  /** One ask of 3 puts at 10 under a ceiling of 11, 5 puts wanted: the as-written loop throws after buying 3. */
  lemma ReadPastEndWitness(symbol: string)
    ensures WalkAsWritten(symbol, [Level(10.0, 3.0)], 5.0, AtMost(11.0), AllAccepted)
         == Fill([3.0], 2.0, ReadPastEnd)
    ensures Walk(symbol, [Level(10.0, 3.0)], 5.0, AtMost(11.0), AllAccepted, [])
         == Fill([3.0], 2.0, Exhausted)
  {
    assert [] + [3.0] == [3.0];
  }

  /** The ceiling examples: asks (10, 3), (12, 4) under a ceiling of 11. */
  lemma CeilingExamples(symbol: string, respond: (string, nat) -> Response)
    requires respond(symbol, 0).retCode == 0
    ensures Walk(symbol, [Level(10.0, 3.0), Level(12.0, 4.0)], 5.0, AtMost(11.0), respond, [])
         == Fill([3.0], 2.0, PriceTooHigh)
    ensures Walk(symbol, [Level(10.0, 3.0), Level(12.0, 4.0)], 3.0, AtMost(11.0), respond, [])
         == Fill([3.0], 0.0, Filled)
  {
    assert [] + [3.0] == [3.0];
  }
}
