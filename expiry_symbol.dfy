/**
 * Construction of the exchange's put-option instrument symbol for an epoch
 * expiry (getExpirySymbol in utils/index.js):
 *   ETH-{day}{MON}{YY}-{strike}-P
 * where the date is the expiry's calendar date, MON the upper-cased English
 * short month name, YY the last two characters of the year, and the strike
 * the price net of premium rounded down to the $25 strike ladder.
 */
module ExpirySymbol {
  import opened Text
  import opened Calendar

  /** Step of the exchange's strike ladder. */
  const StrikeStep: int := 25

  /** English short month names, as toLocaleString yields them for { month: "short" }. */
  const MonthNames: seq<string> :=
    ["Jan", "Feb", "Mar", "Apr", "May", "Jun", "Jul", "Aug", "Sep", "Oct", "Nov", "Dec"]

  /** Math.floor(x / 25) * 25: the largest multiple of 25 not above x. */
  function FloorTo25(x: real): (r: int)
    ensures r % StrikeStep == 0
    ensures r as real <= x < r as real + StrikeStep as real
  {
    (x / 25.0).Floor * StrikeStep
  }

  /** Rounding down to the ladder never reverses the order of two prices. */
  lemma FloorTo25Monotone(x: real, y: real)
    requires x <= y
    ensures FloorTo25(x) <= FloorTo25(y)
  {
    assert x / 25.0 <= y / 25.0;
  }

  /** The strike chosen for a reference price and a premium. */
  function Strike(lastPrice: real, premium: real): int {
    FloorTo25(lastPrice - premium)
  }

  /** new Date(expiry * 1000) is a valid date. */
  predicate ValidExpiry(expiry: nat) {
    expiry * 1000 <= MaxTimeValue
  }

  /** The upper-cased month name of month m (0-based). */
  function MonthCode(m: nat): (r: string)
    requires m < 12
    ensures |r| == 3 && forall k :: 0 <= k < 3 ==> IsUpperLetter(r[k])
  {
    ToUpper(MonthNames[m])
  }

  /**
   * The date field of an invalid Date: its day renders as "NaN", its
   * locale month string is "Invalid Date" and the last two characters of
   * its year "NaN" are "aN".
   */
  const InvalidDateCode: string := "NaNINVALID DATEaN"

  /** InvalidDateCode is the upper-cased rendering described above. */
  lemma InvalidDateCodeRendering()
    ensures InvalidDateCode == "NaN" + ToUpper("Invalid Date") + Last2("NaN")
  {
  }

  /**
   * The "{day}{MON}{YY}" field. An invalid Date renders its day and year as
   * NaN and its locale month string as "Invalid Date".
   */
  function DateCode(expiry: nat): string {
    if !ValidExpiry(expiry) then InvalidDateCode
    else
      var dt := UtcDateOf(expiry * 1000);
      NatToString(dt.date) + MonthCode(dt.month) + Last2(NatToString(dt.year))
  }

  /** The four '-'-separated fields of the symbol. */
  function Fields(expiry: nat, lastPrice: real, premium: real): seq<string> {
    ["ETH", DateCode(expiry), IntToString(Strike(lastPrice, premium)), "P"]
  }

  /** getExpirySymbol(expiry, lastPrice, premium). */
  function Symbol(expiry: nat, lastPrice: real, premium: real): string {
    Join(Fields(expiry, lastPrice, premium), '-')
  }

  /** The symbol is the template "ETH-{date}-{strike}-P". */
  lemma SymbolTemplate(expiry: nat, lastPrice: real, premium: real)
    ensures Symbol(expiry, lastPrice, premium) ==
      "ETH-" + DateCode(expiry) + "-" + IntToString(Strike(lastPrice, premium)) + "-P"
  {
    var f := Fields(expiry, lastPrice, premium);
    assert f[1..][1..][1..] == ["P"];
    assert Join(f[1..][1..], '-') == f[2] + "-P";
    assert Join(f[1..], '-') == f[1] + "-" + (f[2] + "-P");
  }

  /**
   * The date field of a valid expiry: the unpadded day of the month (1..31),
   * the three-letter month, then the year mod 100 as two digits.
   */
  lemma DateCodeLayout(expiry: nat)
    requires ValidExpiry(expiry)
    ensures var dt := UtcDateOf(expiry * 1000);
      1 <= dt.date <= 31 && dt.year >= 1970 &&
      DateCode(expiry) == NatToString(dt.date) + MonthCode(dt.month) + TwoDigits(dt.year % 100)
  {
    var dt := UtcDateOf(expiry * 1000);
    Last2OfNatToString(dt.year);
  }

  /** A rendered date is made of digits and upper-case letters only. */
  lemma DateTextHasNoDash(day: string, mon: string, year: string)
    requires AllDigits(day) && AllDigits(year)
    requires forall k :: 0 <= k < |mon| ==> IsUpperLetter(mon[k])
    ensures '-' !in day + mon + Last2(year)
  {
    var yy := Last2(year);
    assert forall k :: 0 <= k < |yy| ==> IsDigit(yy[k]);
    assert forall k :: 0 <= k < |day + mon + yy| ==> (day + mon + yy)[k] != '-';
  }

  /** The date field never contains the '-' field separator. */
  lemma DateCodeHasNoDash(expiry: nat)
    ensures '-' !in DateCode(expiry)
  {
    if ValidExpiry(expiry) {
      var dt := UtcDateOf(expiry * 1000);
      DateTextHasNoDash(NatToString(dt.date), MonthCode(dt.month), NatToString(dt.year));
    }
  }

  lemma DigitsHaveNoDash(s: string)
    requires AllDigits(s)
    ensures '-' !in s
  {
    assert forall k :: 0 <= k < |s| ==> s[k] != '-';
  }

  /**
   * For a non-negative strike the symbol splits on '-' into exactly four
   * fields: the asset, the date, the decimal strike and "P".
   */
  lemma SymbolFields(expiry: nat, lastPrice: real, premium: real)
    requires Strike(lastPrice, premium) >= 0
    ensures Split(Symbol(expiry, lastPrice, premium), '-') ==
      ["ETH", DateCode(expiry), NatToString(Strike(lastPrice, premium)), "P"]
  {
    var f := Fields(expiry, lastPrice, premium);
    DateCodeHasNoDash(expiry);
    DigitsHaveNoDash(f[2]);
    assert FreeOf(f, '-');
    SplitJoin(f, '-');
  }

  /** The strike field of a symbol reads back as the strike that was chosen. */
  lemma StrikeFieldRoundTrip(expiry: nat, lastPrice: real, premium: real)
    requires Strike(lastPrice, premium) >= 0
    ensures var f := Split(Symbol(expiry, lastPrice, premium), '-');
      |f| == 4 && AllDigits(f[2]) && ParseNat(f[2]) == Strike(lastPrice, premium)
  {
    SymbolFields(expiry, lastPrice, premium);
    ParseNatOfNatToString(Strike(lastPrice, premium));
  }

  /**
   * A negative strike carries its own '-': the symbol then splits into five
   * fields and its third field is empty.
   */
  lemma NegativeStrikeFields(expiry: nat, lastPrice: real, premium: real)
    requires Strike(lastPrice, premium) < 0
    ensures Split(Symbol(expiry, lastPrice, premium), '-') ==
      ["ETH", DateCode(expiry), "", NatToString(-Strike(lastPrice, premium)), "P"]
  {
    var f := Fields(expiry, lastPrice, premium);
    var g := ["ETH", f[1], "", NatToString(-Strike(lastPrice, premium)), "P"];
    DateCodeHasNoDash(expiry);
    DigitsHaveNoDash(g[3]);
    assert f[2] == ['-'] + g[3];
    assert Join(f[2..], '-') == Join(g[2..], '-') by {
      assert f[2..][1..] == ["P"] && g[2..][1..][1..] == ["P"];
      assert Join(g[2..][1..], '-') == g[3] + "-P";
    }
    assert Join(f[1..], '-') == Join(g[1..], '-') by {
      assert f[1..][1..] == f[2..] && g[1..][1..] == g[2..];
    }
    assert f[1..] != [] && g[1..] != [];
    assert Join(f, '-') == Join(g, '-');
    assert FreeOf(g, '-');
    SplitJoin(g, '-');
  }
}
