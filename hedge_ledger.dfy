/**
 * The hedge ledger of src/index.js: `hedges` maps each put symbol to a bucket
 * of puts held on the exchange, puts owed to cover the writer's share of the
 * straddles sold, and premium collected. run() replays the epoch's past
 * purchases into the buckets, sampling the exchange's positions once per
 * bucket when it is created, and then fills every bucket that holds fewer
 * puts than it owes, under a break-even price ceiling.
 */
module HedgeLedger {
  import opened Results
  import opened OrderFill
  import ExpirySymbol
  import Deposits

  /** A straddle purchase with its on-chain integers: cost, strike (1e8) and underlying (1e18). */
  datatype Purchase = Purchase(straddleId: nat, cost: nat, apStrike: nat, underlyingPurchased: nat, epoch: nat)

  /** An open exchange position: its symbol and size. */
  datatype Position = Position(symbol: string, size: real)

  /** One entry of `hedges`: puts held, puts owed (`writes`) and premium collected. */
  datatype Bucket = Bucket(hedges: real, writes: real, premiumCollected: real)

  /** getPreviousPurchases' filter: the purchases of the current epoch, in event order. */
  function PreviousPurchases(events: seq<Purchase>, currentEpoch: nat): (r: seq<Purchase>)
    ensures |r| <= |events|
    ensures forall e :: e in r <==> e in events && e.epoch == currentEpoch
  {
    if events == [] then []
    else
      var init, last := events[..|events| - 1], events[|events| - 1];
      assert events == init + [last];
      PreviousPurchases(init, currentEpoch) + (if last.epoch == currentEpoch then [last] else [])
  }

  /** The epoch filter of a concatenation keeps each part's events in event order, each once. */
  lemma {:induction false} PreviousPurchasesAppend(a: seq<Purchase>, b: seq<Purchase>, currentEpoch: nat)
    ensures PreviousPurchases(a + b, currentEpoch) == PreviousPurchases(a, currentEpoch) + PreviousPurchases(b, currentEpoch)
    decreases |b|
  {
    if b == [] {
      assert a + b == a;
    } else {
      var init, last := b[..|b| - 1], b[|b| - 1];
      var tail := if last.epoch == currentEpoch then [last] else [];
      assert (a + b)[..|a + b| - 1] == a + init;
      assert (a + b)[|a + b| - 1] == last;
      assert PreviousPurchases(a + b, currentEpoch) == PreviousPurchases(a + init, currentEpoch) + tail;
      assert PreviousPurchases(b, currentEpoch) == PreviousPurchases(init, currentEpoch) + tail;
      PreviousPurchasesAppend(a, init, currentEpoch);
    }
  }

  /** A single event is kept exactly when it is of the current epoch. */
  lemma PreviousPurchasesOfOne(e: Purchase, currentEpoch: nat)
    ensures PreviousPurchases([e], currentEpoch) == if e.epoch == currentEpoch then [e] else []
  {
    assert [e][..0] == [];
  }

  /** A purchase of some underlying, so that its premium per straddle is a number. */
  predicate Priced(e: Purchase) {
    e.underlyingPurchased > 0
  }

  predicate AllPriced(es: seq<Purchase>) {
    forall k :: 0 <= k < |es| ==> Priced(es[k])
  }

  /** The premium per straddle of a past purchase, cost / (underlyingPurchased * 2) / 1e8. */
  function PremiumPerStraddle(e: Purchase): real
    requires Priced(e)
  {
    e.cost as real / (e.underlyingPurchased as real * 2.0) / 100000000.0
  }

  /** The put that hedges a purchase: its strike net of premium, on the epoch's expiry. */
  function SymbolOf(e: Purchase, expiry: nat): string
    requires Priced(e)
  {
    ExpirySymbol.Symbol(expiry, e.apStrike as real / 100000000.0, PremiumPerStraddle(e))
  }

  /** amountToHedge: two puts per straddle of underlying, scaled by the writer's pool share in percent. */
  function AmountToHedge(e: Purchase, poolShare: real): real {
    (e.underlyingPurchased as real / 1000000000000000000.0) * 2.0 * poolShare / 100.0
  }

  /** The writer's part of the premium the purchase paid. */
  function PremiumShare(e: Purchase, poolShare: real): real {
    e.cost as real * poolShare / 10000000000000000000000000000.0
  }

  /** getPositions(symbol): the positions listed for exactly that symbol. */
  function PositionsFor(listing: seq<Position>, symbol: string): (r: seq<Position>)
    ensures forall p :: p in r <==> p in listing && p.symbol == symbol
  {
    if listing == [] then []
    else
      var init, last := listing[..|listing| - 1], listing[|listing| - 1];
      assert listing == init + [last];
      PositionsFor(init, symbol) + (if last.symbol == symbol then [last] else [])
  }

  /** The symbol filter of a concatenation keeps each part's positions in listing order, each once. */
  lemma {:induction false} PositionsForAppend(a: seq<Position>, b: seq<Position>, symbol: string)
    ensures PositionsFor(a + b, symbol) == PositionsFor(a, symbol) + PositionsFor(b, symbol)
    decreases |b|
  {
    if b == [] {
      assert a + b == a;
    } else {
      var init := b[..|b| - 1];
      assert (a + b)[..|a + b| - 1] == a + init;
      assert (a + b)[|a + b| - 1] == b[|b| - 1];
      PositionsForAppend(a, init, symbol);
    }
  }

  /** A single position is kept exactly when it is listed under the symbol. */
  lemma PositionsForOfOne(p: Position, symbol: string)
    ensures PositionsFor([p], symbol) == if p.symbol == symbol then [p] else []
  {
    assert [p][..0] == [];
  }

  function SizeSum(ps: seq<Position>): real {
    if ps == [] then 0.0 else SizeSum(ps[..|ps| - 1]) + ps[|ps| - 1].size
  }

  /** An independent reference: every listed size, counted only when it is under the symbol. */
  function SizeOfSymbol(listing: seq<Position>, symbol: string): real {
    if listing == [] then 0.0
    else SizeOfSymbol(listing[..|listing| - 1], symbol)
         + (if listing[|listing| - 1].symbol == symbol then listing[|listing| - 1].size else 0.0)
  }

  /** Summing the filtered positions counts each position of the symbol once and no other. */
  lemma {:induction false} SizeOfFiltered(listing: seq<Position>, symbol: string)
    ensures SizeSum(PositionsFor(listing, symbol)) == SizeOfSymbol(listing, symbol)
  {
    if listing != [] {
      var init, last := listing[..|listing| - 1], listing[|listing| - 1];
      SizeOfFiltered(init, symbol);
      var f := PositionsFor(init, symbol);
      if last.symbol == symbol {
        assert (f + [last])[..|f|] == f;
      } else {
        assert f + [] == f;
      }
    }
  }

  /**
   * The puts held when a bucket is created: `listing(s)` is what the
   * exchange's position listing returns when bucket s is created.
   */
  function OpeningHedges(listing: string -> seq<Position>, s: string): real {
    SizeSum(PositionsFor(listing(s), s))
  }

  /** The holdings sampled for a new bucket are the sizes of exactly the positions listed under its symbol. */
  lemma OpeningHedgesAreTheSymbolsSizes(listing: string -> seq<Position>, s: string)
    ensures OpeningHedges(listing, s) == SizeOfSymbol(listing(s), s)
  {
    SizeOfFiltered(listing(s), s);
  }

  /** What one purchase adds to the ledger: its hedge symbol, the puts it owes and the premium it paid. */
  datatype Credit = Credit(symbol: string, amount: real, premium: real)

  /** The credit of one past purchase under the writer's pool share. */
  function CreditOf(e: Purchase, poolShare: real, expiry: nat): (c: Credit)
    requires Priced(e)
    ensures poolShare >= 0.0 ==> c.amount >= 0.0 && c.premium >= 0.0
  {
    Credit(SymbolOf(e, expiry), AmountToHedge(e, poolShare), PremiumShare(e, poolShare))
  }

  /** The credits of the purchases, in event order. */
  function Credits(es: seq<Purchase>, poolShare: real, expiry: nat): (r: seq<Credit>)
    requires AllPriced(es)
    ensures |r| == |es|
  {
    if es == [] then []
    else Credits(es[..|es| - 1], poolShare, expiry) + [CreditOf(es[|es| - 1], poolShare, expiry)]
  }

  /** The k-th credit is the k-th purchase's. */
  lemma {:induction false} CreditsInOrder(es: seq<Purchase>, poolShare: real, expiry: nat)
    requires AllPriced(es)
    ensures forall k :: 0 <= k < |es| ==> Credits(es, poolShare, expiry)[k] == CreditOf(es[k], poolShare, expiry)
  {
    if es != [] {
      var init := es[..|es| - 1];
      assert AllPriced(init);
      CreditsInOrder(init, poolShare, expiry);
      assert forall k :: 0 <= k < |init| ==> es[k] == init[k];
    }
  }

  /** Appending a purchase appends its credit. */
  lemma CreditsAppend(es: seq<Purchase>, e: Purchase, poolShare: real, expiry: nat)
    requires AllPriced(es) && Priced(e)
    ensures AllPriced(es + [e])
    ensures Credits(es + [e], poolShare, expiry) == Credits(es, poolShare, expiry) + [CreditOf(e, poolShare, expiry)]
  {
    assert (es + [e])[..|es|] == es;
  }

  /** The bucket a symbol starts from: the existing one, or a new one with the sampled holdings. */
  function Base(m: map<string, Bucket>, s: string, listing: string -> seq<Position>): Bucket {
    if s in m then m[s] else Bucket(OpeningHedges(listing, s), 0.0, 0.0)
  }

  /** The ledger after one purchase's credit. */
  function Credited(m: map<string, Bucket>, c: Credit, listing: string -> seq<Position>): map<string, Bucket> {
    var b := Base(m, c.symbol, listing);
    m[c.symbol := Bucket(b.hedges, b.writes + c.amount, b.premiumCollected + c.premium)]
  }

  /** The key order of a JavaScript object after assigning key s. */
  function Enrolled(order: seq<string>, s: string): seq<string> {
    if s in order then order else order + [s]
  }

  /** The ledger after the credits, in order. */
  function Replayed(m: map<string, Bucket>, cs: seq<Credit>, listing: string -> seq<Position>): map<string, Bucket> {
    if cs == [] then m
    else Credited(Replayed(m, cs[..|cs| - 1], listing), cs[|cs| - 1], listing)
  }

  /** The key order after the credits, in order: Object.keys after the replay. */
  function ReplayedOrder(order: seq<string>, cs: seq<Credit>): seq<string> {
    if cs == [] then order
    else Enrolled(ReplayedOrder(order, cs[..|cs| - 1]), cs[|cs| - 1].symbol)
  }

  /**
   * The replay keeps the old keys first and in place, adds exactly the
   * credited symbols that were not keys yet, and lists no key twice.
   */
  lemma {:induction false} ReplayedOrderKeys(order: seq<string>, cs: seq<Credit>)
    ensures var r := ReplayedOrder(order, cs);
      |order| <= |r| && r[..|order|] == order &&
      (forall s :: s in r <==> s in order || s in Symbols(cs)) &&
      (Distinct(order) ==> Distinct(r))
  {
    if cs != [] {
      var init := cs[..|cs| - 1];
      var s := cs[|cs| - 1].symbol;
      ReplayedOrderKeys(order, init);
      var prev := ReplayedOrder(order, init);
      assert Symbols(cs) == Symbols(init) + [s];
      if s !in prev {
        var next := prev + [s];
        assert next[..|order|] == prev[..|order|];
        if Distinct(order) {
          forall i, j | 0 <= i < j < |next|
            ensures next[i] != next[j]
          {
            if j == |prev| {
              assert prev[i] in prev;
            }
          }
        }
      }
    }
  }

  /** The symbols the credits are for. */
  function Symbols(cs: seq<Credit>): seq<string> {
    if cs == [] then [] else Symbols(cs[..|cs| - 1]) + [cs[|cs| - 1].symbol]
  }

  /** Puts owed for symbol s by the purchases that map to it. */
  function WritesFor(cs: seq<Credit>, s: string): real {
    if cs == [] then 0.0
    else
      var last := cs[|cs| - 1];
      WritesFor(cs[..|cs| - 1], s) + (if last.symbol == s then last.amount else 0.0)
  }

  /** Premium collected for symbol s from the purchases that map to it. */
  function PremiumFor(cs: seq<Credit>, s: string): real {
    if cs == [] then 0.0
    else
      var last := cs[|cs| - 1];
      PremiumFor(cs[..|cs| - 1], s) + (if last.symbol == s then last.premium else 0.0)
  }

  /**
   * After a replay, the bucket of symbol s exists exactly when it existed
   * before or some purchase maps to s. Its holdings are those it had, or
   * those sampled when it was created. What it owes and the premium it
   * collected grow by the sum over the purchases mapped to s, each counted
   * once.
   */
  lemma {:induction false} ReplayedBucket(m: map<string, Bucket>, cs: seq<Credit>,
                                          listing: string -> seq<Position>, s: string)
    ensures var r := Replayed(m, cs, listing);
      (s in r <==> s in m || s in Symbols(cs)) &&
      (s in r ==> r[s] == Bucket(Base(m, s, listing).hedges,
                                 Base(m, s, listing).writes + WritesFor(cs, s),
                                 Base(m, s, listing).premiumCollected + PremiumFor(cs, s)))
  {
    if cs != [] {
      var init := cs[..|cs| - 1];
      ReplayedBucket(m, init, listing, s);
      if s !in Symbols(init) {
        UncreditedSymbol(init, s);
      }
    }
  }

  /** A symbol no credit is for owes nothing and has collected nothing. */
  lemma {:induction false} UncreditedSymbol(cs: seq<Credit>, s: string)
    requires s !in Symbols(cs)
    ensures WritesFor(cs, s) == 0.0 && PremiumFor(cs, s) == 0.0
  {
    if cs != [] {
      var init := cs[..|cs| - 1];
      assert Symbols(cs) == Symbols(init) + [cs[|cs| - 1].symbol];
      UncreditedSymbol(init, s);
    }
  }

  /** With non-negative credits, replaying never lowers what a bucket owes or has collected. */
  lemma {:induction false} WritesNonNegative(es: seq<Purchase>, s: string, poolShare: real, expiry: nat)
    requires AllPriced(es) && poolShare >= 0.0
    ensures var cs := Credits(es, poolShare, expiry);
      WritesFor(cs, s) >= 0.0 && PremiumFor(cs, s) >= 0.0
  {
    if es != [] {
      var init := es[..|es| - 1];
      assert AllPriced(init);
      WritesNonNegative(init, s, poolShare, expiry);
      var c := CreditOf(es[|es| - 1], poolShare, expiry);
      var cs := Credits(es, poolShare, expiry);
      assert cs == Credits(init, poolShare, expiry) + [c];
      assert cs[..|cs| - 1] == Credits(init, poolShare, expiry);
    }
  }

  predicate Distinct(order: seq<string>) {
    forall i, j :: 0 <= i < j < |order| ==> order[i] != order[j]
  }

  /** The ledger's key order lists each bucket exactly once. */
  ghost predicate Indexed(m: map<string, Bucket>, order: seq<string>) {
    Distinct(order) && forall s :: s in m <==> s in order
  }

  /** Assigning key s keeps the key order indexing the ledger. */
  lemma EnrollKeepsIndexed(m: map<string, Bucket>, order: seq<string>, s: string, b: Bucket)
    requires Indexed(m, order)
    ensures Indexed(m[s := b], Enrolled(order, s))
  {
    if s !in order {
      var next := order + [s];
      forall i, j | 0 <= i < j < |next|
        ensures next[i] != next[j]
      {
        if j == |order| {
          assert order[i] in order;
        }
      }
    }
  }

  /** A bucket that owes more puts than it holds: how many to buy, and the ceiling to buy under. */
  datatype Deficit = Deficit(symbol: string, toFill: real, ceiling: Ceiling)

  /**
   * premiumCollected / writes as a JavaScript number: finite when writes is
   * not zero, +Infinity for positive premium over zero, and NaN or
   * -Infinity (admitting no price) otherwise.
   */
  function BreakEven(b: Bucket): (c: Ceiling)
    ensures b.writes != 0.0 ==> c == AtMost(b.premiumCollected / b.writes)
    ensures b.writes == 0.0 ==> (c == NoCeiling <==> b.premiumCollected > 0.0)
    ensures b.writes == 0.0 && b.premiumCollected <= 0.0 ==> c == AdmitsNothing
  {
    if b.writes != 0.0 then AtMost(b.premiumCollected / b.writes)
    else if b.premiumCollected > 0.0 then NoCeiling
    else AdmitsNothing
  }

  predicate Short(m: map<string, Bucket>, s: string) {
    s in m && m[s].hedges < m[s].writes
  }

  function DeficitOf(m: map<string, Bucket>, s: string): Deficit
    requires s in m
  {
    Deficit(s, m[s].writes - m[s].hedges, BreakEven(m[s]))
  }

  /** The buckets that owe more than they hold, in key order. */
  function Deficits(m: map<string, Bucket>, order: seq<string>): seq<Deficit> {
    if order == [] then []
    else (if Short(m, order[0]) then [DeficitOf(m, order[0])] else []) + Deficits(m, order[1..])
  }

  /**
   * The deficit pass visits exactly the short buckets: each deficit names a
   * bucket with fewer puts than it owes and asks for the positive
   * difference under its break-even ceiling, and every short bucket in the
   * key order has its deficit, once.
   */
  lemma {:induction false} DeficitsAreTheShortBuckets(m: map<string, Bucket>, order: seq<string>)
    ensures forall d :: d in Deficits(m, order) ==>
      d.symbol in order && Short(m, d.symbol) && d == DeficitOf(m, d.symbol) && d.toFill > 0.0
    ensures forall s :: s in order && Short(m, s) ==> DeficitOf(m, s) in Deficits(m, order)
    ensures Distinct(order) ==> forall i, j :: 0 <= i < j < |Deficits(m, order)| ==>
      Deficits(m, order)[i].symbol != Deficits(m, order)[j].symbol
  {
    if order != [] {
      DeficitsAreTheShortBuckets(m, order[1..]);
      var head := if Short(m, order[0]) then [DeficitOf(m, order[0])] else [];
      var tail := Deficits(m, order[1..]);
      assert Deficits(m, order) == head + tail;
      if Distinct(order) {
        assert Distinct(order[1..]);
        forall d | d in tail
          ensures d.symbol != order[0]
        {
          assert d.symbol in order[1..];
        }
      }
    }
  }

  /** One fill the pass performed. */
  datatype Hedge = Hedge(deficit: Deficit, fill: Fill)

  /** The fills of a deficit pass, and the error that ended it early, if any. */
  datatype Pass = Pass(hedges: seq<Hedge>, error: Option<string>)

  /** The fill for one deficit against the book the exchange returns for its symbol. */
  function FillFor(d: Deficit, books: string -> seq<Entry>, respond: (string, nat) -> Response): Fill {
    Walk(d.symbol, Asks(books(d.symbol)), d.toFill, d.ceiling, respond, [])
  }

  /** The deficits filled in order; a rejected order throws and ends the pass. */
  function PassOver(ds: seq<Deficit>, books: string -> seq<Entry>, respond: (string, nat) -> Response): Pass {
    if ds == [] then Pass([], None)
    else
      var h := Hedge(ds[0], FillFor(ds[0], books, respond));
      if h.fill.stop.Rejected? then Pass([h], Some(h.fill.stop.reason))
      else
        var rest := PassOver(ds[1..], books, respond);
        Pass([h] + rest.hedges, rest.error)
  }

  /** The pass fills the deficits in order, one fill each, against each deficit's own book. */
  lemma {:induction false} PassFollowsDeficits(ds: seq<Deficit>, books: string -> seq<Entry>,
                                               respond: (string, nat) -> Response)
    ensures var p := PassOver(ds, books, respond);
      |p.hedges| <= |ds| &&
      forall k :: 0 <= k < |p.hedges| ==> p.hedges[k] == Hedge(ds[k], FillFor(ds[k], books, respond))
  {
    if ds != [] {
      PassFollowsDeficits(ds[1..], books, respond);
    }
  }

  /** Only the last fill of a pass can have had its order rejected. */
  lemma {:induction false} PassGoesOnAfterAcceptance(ds: seq<Deficit>, books: string -> seq<Entry>,
                                                     respond: (string, nat) -> Response)
    ensures forall k :: 0 <= k < |PassOver(ds, books, respond).hedges| - 1 ==>
      !PassOver(ds, books, respond).hedges[k].fill.stop.Rejected?
  {
    if ds != [] {
      var p, rest := PassOver(ds, books, respond), PassOver(ds[1..], books, respond);
      PassGoesOnAfterAcceptance(ds[1..], books, respond);
      if !FillFor(ds[0], books, respond).stop.Rejected? {
        forall k | 1 <= k < |p.hedges| - 1
          ensures !p.hedges[k].fill.stop.Rejected?
        {
          assert p.hedges[k] == rest.hedges[k - 1];
        }
      }
    }
  }

  /**
   * The pass fills every deficit unless an order is rejected; then it stops
   * right after the fill whose order was rejected, with that fill's error.
   */
  lemma {:induction false} PassEndsOnRejection(ds: seq<Deficit>, books: string -> seq<Entry>,
                                               respond: (string, nat) -> Response)
    ensures var p := PassOver(ds, books, respond);
      (p.error == None <==> |p.hedges| == |ds| && (ds == [] || !p.hedges[|ds| - 1].fill.stop.Rejected?)) &&
      (p.error.Some? ==> |p.hedges| > 0 && p.hedges[|p.hedges| - 1].fill.stop == Rejected(p.error.value))
  {
    if ds != [] {
      PassEndsOnRejection(ds[1..], books, respond);
      PassFollowsDeficits(ds[1..], books, respond);
    }
  }

  /** Prefixing fills already made to the rest of a pass. */
  function After(done: seq<Hedge>, p: Pass): Pass {
    Pass(done + p.hedges, p.error)
  }

  /**
   * The pass over the deficits from position i of the key order on: the
   * fill for bucket order[i] when it is short, then (unless that fill was
   * rejected) the pass over the positions after it.
   */
  lemma PassFrom(m: map<string, Bucket>, order: seq<string>, i: nat,
                 books: string -> seq<Entry>, respond: (string, nat) -> Response)
    requires i < |order|
    ensures var rest := PassOver(Deficits(m, order[i + 1..]), books, respond);
      PassOver(Deficits(m, order[i..]), books, respond) ==
        if !Short(m, order[i]) then rest
        else
          var h := Hedge(DeficitOf(m, order[i]), FillFor(DeficitOf(m, order[i]), books, respond));
          if h.fill.stop.Rejected? then Pass([h], Some(h.fill.stop.reason)) else After([h], rest)
  {
    assert order[i..][0] == order[i] && order[i..][1..] == order[i + 1..];
    if Short(m, order[i]) {
      var ds := [DeficitOf(m, order[i])] + Deficits(m, order[i + 1..]);
      assert Deficits(m, order[i..]) == ds;
      assert ds[0] == DeficitOf(m, order[i]) && ds[1..] == Deficits(m, order[i + 1..]);
    } else {
      assert Deficits(m, order[i..]) == [] + Deficits(m, order[i + 1..]) == Deficits(m, order[i + 1..]);
    }
  }

  lemma AfterAfter(done: seq<Hedge>, h: Hedge, p: Pass)
    ensures After(done, After([h], p)) == After(done + [h], p)
  {
    assert done + ([h] + p.hedges) == (done + [h]) + p.hedges;
  }

  class Ledger {
    /** `hedges` of the source: bucket per symbol. */
    var buckets: map<string, Bucket>
    /** The object's keys in insertion order, the order Object.keys lists them. */
    var symbols: seq<string>

    ghost predicate Valid()
      reads this
    {
      Indexed(buckets, symbols)
    }

    constructor ()
      ensures Valid() && buckets == map[] && symbols == []
    {
      buckets := map[];
      symbols := [];
    }

    /**
     * The ledger update of one iteration of run()'s replay loop: create the
     * credit's bucket on first sight with the holdings the exchange lists
     * for that symbol, then add what the purchase owes and paid.
     */
    method Record(credit: Credit, listing: string -> seq<Position>)
      requires Valid()
      modifies this
      ensures Valid()
      ensures buckets == Credited(old(buckets), credit, listing)
      ensures symbols == Enrolled(old(symbols), credit.symbol)
    {
      var expirySymbol := credit.symbol;
      if expirySymbol !in buckets {
        var held := 0.0;
        var hedgePositions := PositionsFor(listing(expirySymbol), expirySymbol);
        var k := 0;
        while k < |hedgePositions|
          invariant 0 <= k <= |hedgePositions|
          invariant held == SizeSum(hedgePositions[..k])
        {
          assert hedgePositions[..k + 1][..k] == hedgePositions[..k];
          held := held + hedgePositions[k].size;
          k := k + 1;
        }
        assert hedgePositions[..k] == hedgePositions;
        EnrollKeepsIndexed(buckets, symbols, expirySymbol, Bucket(held, 0.0, 0.0));
        buckets := buckets[expirySymbol := Bucket(held, 0.0, 0.0)];
        symbols := symbols + [expirySymbol];
      }
      var b := buckets[expirySymbol];
      EnrollKeepsIndexed(buckets, symbols, expirySymbol, Bucket(b.hedges, b.writes + credit.amount,
                                                               b.premiumCollected + credit.premium));
      buckets := buckets[expirySymbol := Bucket(b.hedges, b.writes + credit.amount,
                                                b.premiumCollected + credit.premium)];
    }

    /**
     * run()'s replay loop over the epoch's past purchases: each purchase's
     * premium per straddle, hedge symbol, amount to hedge and premium share,
     * recorded in event order.
     */
    method Replay(purchases: seq<Purchase>, poolShare: real, expiry: nat, listing: string -> seq<Position>)
      requires Valid() && AllPriced(purchases)
      modifies this
      ensures Valid()
      ensures buckets == Replayed(old(buckets), Credits(purchases, poolShare, expiry), listing)
      ensures symbols == ReplayedOrder(old(symbols), Credits(purchases, poolShare, expiry))
    {
      var i := 0;
      while i < |purchases|
        invariant 0 <= i <= |purchases| && Valid()
        invariant AllPriced(purchases[..i])
        invariant buckets == Replayed(old(buckets), Credits(purchases[..i], poolShare, expiry), listing)
        invariant symbols == ReplayedOrder(old(symbols), Credits(purchases[..i], poolShare, expiry))
      {
        var purchase := purchases[i];
        var credit := CreditOf(purchase, poolShare, expiry);
        CreditsAppend(purchases[..i], purchase, poolShare, expiry);
        assert purchases[..i + 1] == purchases[..i] + [purchase];
        Record(credit, listing);
        i := i + 1;
      }
      assert purchases[..i] == purchases;
    }

    /**
     * run()'s deficit pass: for each bucket in key order that holds fewer
     * puts than it owes, fill the difference under its break-even ceiling.
     * The ledger itself is not updated by the fills.
     */
    method DeficitPass(books: string -> seq<Entry>, respond: (string, nat) -> Response) returns (r: Pass)
      ensures r == PassOver(Deficits(buckets, symbols), books, respond)
    {
      var done: seq<Hedge> := [];
      var i := 0;
      while i < |symbols|
        invariant 0 <= i <= |symbols|
        invariant PassOver(Deficits(buckets, symbols), books, respond)
               == After(done, PassOver(Deficits(buckets, symbols[i..]), books, respond))
      {
        var strike := symbols[i];
        PassFrom(buckets, symbols, i, books, respond);
        if Short(buckets, strike) {
          var deficit := DeficitOf(buckets, strike);
          var fill := FillPuts(strike, books(strike), deficit.toFill, deficit.ceiling, respond);
          if fill.stop.Rejected? {
            return Pass(done + [Hedge(deficit, fill)], Some(fill.stop.reason));
          }
          AfterAfter(done, Hedge(deficit, fill), PassOver(Deficits(buckets, symbols[i + 1..]), books, respond));
          done := done + [Hedge(deficit, fill)];
        }
        i := i + 1;
      }
      assert Deficits(buckets, symbols[i..]) == [];
      return Pass(done, None);
    }
  }


  /**
   * run(): load the writer's pool share, replay the epoch's past purchases
   * into the ledger and fill the deficits. A fatal load error leaves the
   * ledger as it was; the ledger is never cleared before the replay.
   */
  method Run(ledger: Ledger, positions: seq<Deposits.WritePosition>, currentEpoch: nat, epochUsdDeposits: nat,
             expiry: nat, events: seq<Purchase>, listing: string -> seq<Position>,
             books: string -> seq<Entry>, respond: (string, nat) -> Response) returns (r: Result<Pass>)
    requires ledger.Valid() && AllPriced(PreviousPurchases(events, currentEpoch))
    modifies ledger
    ensures ledger.Valid()
    ensures |positions| == 0 ==> r == Failure(Deposits.NoWritePositions)
    ensures |positions| > 0 && Deposits.ForEpoch(positions, currentEpoch) == [] ==>
      r == Failure(Deposits.NoWritePositionsForEpoch)
    ensures |positions| > 0 && Deposits.ForEpoch(positions, currentEpoch) != [] && epochUsdDeposits == 0 ==>
      r == Failure(Deposits.DivisionByZero)
    ensures r.Failure? ==> ledger.buckets == old(ledger.buckets) && ledger.symbols == old(ledger.symbols)
    ensures r.Success? ==>
      var share := Deposits.PoolShare(Deposits.EpochDeposits(positions, currentEpoch), epochUsdDeposits);
      share.Success? &&
      ledger.buckets == Replayed(old(ledger.buckets),
                                 Credits(PreviousPurchases(events, currentEpoch), share.value, expiry), listing) &&
      ledger.symbols == ReplayedOrder(old(ledger.symbols),
                                      Credits(PreviousPurchases(events, currentEpoch), share.value, expiry)) &&
      r.value == PassOver(Deficits(ledger.buckets, ledger.symbols), books, respond)
    ensures Deposits.ForEpoch(positions, currentEpoch) != [] && epochUsdDeposits > 0 ==> r.Success?
  {
    var writerUsdDeposits := Deposits.WriterDeposits(positions, currentEpoch);
    if writerUsdDeposits.Failure? {
      return Failure(writerUsdDeposits.error);
    }
    var poolShare := Deposits.PoolShare(writerUsdDeposits.value, epochUsdDeposits);
    if poolShare.Failure? {
      return Failure(poolShare.error);
    }
    ledger.Replay(PreviousPurchases(events, currentEpoch), poolShare.value, expiry, listing);
    var pass := ledger.DeficitPass(books, respond);
    return Success(pass);
  }
}
