/**
 * The string operations the hedging scripts rely on: decimal formatting of
 * integers (JavaScript's Number.prototype.toString on integral values),
 * String.prototype.split on one separator character, ASCII upper-casing and
 * String.prototype.slice(-2).
 */
module Text {

  predicate IsDigit(c: char) {
    '0' <= c <= '9'
  }

  predicate IsUpperLetter(c: char) {
    'A' <= c <= 'Z'
  }

  predicate AllDigits(s: string) {
    forall k :: 0 <= k < |s| ==> IsDigit(s[k])
  }

  function Digit(d: nat): (c: char)
    requires d < 10
    ensures IsDigit(c) && (c as int) - ('0' as int) == d
  {
    "0123456789"[d]
  }

  function DigitValue(c: char): (d: nat)
    requires IsDigit(c)
    ensures d < 10 && Digit(d) == c
  {
    (c as int) - ('0' as int)
  }

  /** Decimal representation of a natural number, most significant digit first, no leading zeros. */
  function NatToString(n: nat): (s: string)
    ensures |s| >= 1 && AllDigits(s)
    ensures |s| > 1 ==> s[0] != '0'
    decreases n
  {
    if n < 10 then [Digit(n)] else NatToString(n / 10) + [Digit(n % 10)]
  }

  /** Decimal representation of an integer; a negative value carries a leading '-'. */
  function IntToString(i: int): (s: string)
    ensures i >= 0 ==> s == NatToString(i)
    ensures i < 0 ==> s == "-" + NatToString(-i)
  {
    if i < 0 then "-" + NatToString(-i) else NatToString(i)
  }

  /** Reads a string of decimal digits back as a natural number. */
  function ParseNat(s: string): nat
    requires AllDigits(s)
  {
    if s == [] then 0 else ParseNat(s[..|s| - 1]) * 10 + DigitValue(s[|s| - 1])
  }

  /** Parsing a formatted natural number gives the number back. */
  lemma {:induction false} ParseNatOfNatToString(n: nat)
    ensures ParseNat(NatToString(n)) == n
    decreases n
  {
    var s := NatToString(n);
    if n >= 10 {
      assert s[..|s| - 1] == NatToString(n / 10);
      ParseNatOfNatToString(n / 10);
    }
  }

  /** JavaScript's s.slice(-2): the last two characters, or the whole string when shorter. */
  function Last2(s: string): (r: string)
    ensures |s| >= 2 ==> |r| == 2 && r[0] == s[|s| - 2] && r[1] == s[|s| - 1]
    ensures |s| < 2 ==> r == s
  {
    if |s| >= 2 then s[|s| - 2..] else s
  }

  /** The two-digit, zero-padded rendering of a number below 100. */
  function TwoDigits(n: nat): string
    requires n < 100
  {
    [Digit(n / 10), Digit(n % 10)]
  }

  /** The two lowest decimal digits of n, read off n mod 100. */
  lemma LowDigits(n: nat)
    ensures (n % 100) / 10 == (n / 10) % 10 && (n % 100) % 10 == n % 10
  {
    var h, t, u := n / 100, (n / 10) % 10, n % 10;
    assert n / 10 == 10 * h + t;
    assert n == 100 * h + (10 * t + u);
    assert 0 <= 10 * t + u < 100;
  }

  /** The last character of a decimal rendering is the units digit. */
  lemma LastDigit(n: nat)
    ensures var s := NatToString(n); s[|s| - 1] == Digit(n % 10)
  {
  }

  /** For a number of at least two digits, slice(-2) of its decimal form is its value mod 100, zero padded. */
  lemma Last2OfNatToString(n: nat)
    requires n >= 10
    ensures Last2(NatToString(n)) == TwoDigits(n % 100)
  {
    var head, s := NatToString(n / 10), NatToString(n);
    assert s == head + [Digit(n % 10)];
    LastDigit(n / 10);
    assert s[|s| - 2] == head[|head| - 1] == Digit((n / 10) % 10);
    LowDigits(n);
  }

  function UpperChar(c: char): (u: char)
    ensures 'a' <= c <= 'z' ==> IsUpperLetter(u)
    ensures !('a' <= c <= 'z') ==> u == c
  {
    if 'a' <= c <= 'z' then (c as int - 32) as char else c
  }

  /** String.prototype.toUpperCase restricted to ASCII. */
  function ToUpper(s: string): (r: string)
    ensures |r| == |s|
    ensures forall k :: 0 <= k < |s| ==> r[k] == UpperChar(s[k])
  {
    seq(|s|, k requires 0 <= k < |s| => UpperChar(s[k]))
  }

  /**
   * String.prototype.split with a one-character separator: the pieces between
   * consecutive separators, so that there is always at least one piece and a
   * string with n separators has n + 1 pieces.
   */
  function Split(s: string, sep: char): (r: seq<string>)
    ensures |r| >= 1
    decreases |s|
  {
    if |s| == 0 then [""]
    else
      var rest := Split(s[1..], sep);
      if s[0] == sep then [""] + rest else [[s[0]] + rest[0]] + rest[1..]
  }

  /** A string without the separator is a single piece. */
  lemma {:induction false} SplitWithoutSeparator(a: string, sep: char)
    requires sep !in a
    ensures Split(a, sep) == [a]
    decreases |a|
  {
    if |a| > 0 {
      assert a[0] != sep && sep !in a[1..];
      SplitWithoutSeparator(a[1..], sep);
      assert [a[0]] + a[1..] == a;
    }
  }

  /** Splitting "a<sep>b" gives a followed by the pieces of b, when a holds no separator. */
  lemma {:induction false} SplitAfterPiece(a: string, sep: char, b: string)
    requires sep !in a
    ensures Split(a + [sep] + b, sep) == [a] + Split(b, sep)
    decreases |a|
  {
    var s := a + [sep] + b;
    if |a| == 0 {
      assert s[0] == sep && s[1..] == b;
    } else {
      assert s[0] == a[0] && a[0] != sep;
      assert s[1..] == a[1..] + [sep] + b;
      assert sep !in a[1..];
      SplitAfterPiece(a[1..], sep, b);
      assert [a[0]] + a[1..] == a;
    }
  }

  /** The pieces joined by the separator, as a template string `${a}-${b}-...` writes them. */
  function Join(pieces: seq<string>, sep: char): string
    requires |pieces| >= 1
  {
    if |pieces| == 1 then pieces[0] else pieces[0] + [sep] + Join(pieces[1..], sep)
  }

  predicate FreeOf(pieces: seq<string>, sep: char) {
    forall k :: 0 <= k < |pieces| ==> sep !in pieces[k]
  }

  /** Splitting separator-free pieces joined by the separator gives the pieces back. */
  lemma {:induction false} SplitJoin(pieces: seq<string>, sep: char)
    requires |pieces| >= 1 && FreeOf(pieces, sep)
    ensures Split(Join(pieces, sep), sep) == pieces
    decreases |pieces|
  {
    if |pieces| == 1 {
      SplitWithoutSeparator(pieces[0], sep);
    } else {
      assert sep !in pieces[0];
      SplitAfterPiece(pieces[0], sep, Join(pieces[1..], sep));
      SplitJoin(pieces[1..], sep);
      assert [pieces[0]] + pieces[1..] == pieces;
    }
  }
}
