/** JavaScript's `parseInt(s, 10)` on decimal integers, and decimal rendering as its partner. */
module Numbers {
  import opened Wrappers
  import opened Text

  function DigitValue(c: char): nat
    requires IsDigit(c)
  {
    c as int - '0' as int
  }

  function DigitChar(d: nat): (c: char)
    requires d < 10
    ensures IsDigit(c) && DigitValue(c) == d
  {
    ('0' as int + d) as char
  }

  /** Length of the leading run of decimal digits. */
  function DigitRunLength(s: string): (n: nat)
    ensures n <= |s|
    ensures forall i :: 0 <= i < n ==> IsDigit(s[i])
    ensures n < |s| ==> !IsDigit(s[n])
    decreases |s|
  {
    if s == [] || !IsDigit(s[0]) then 0 else 1 + DigitRunLength(s[1..])
  }

  /** The value of a string of decimal digits, most significant first. */
  function DigitsValue(ds: string): nat
    requires forall c <- ds :: IsDigit(c)
    decreases |ds|
  {
    if ds == [] then 0
    else
      assert ds[|ds| - 1] in ds;
      DigitsValue(ds[..|ds| - 1]) * 10 + DigitValue(ds[|ds| - 1])
  }

  /**
   * `parseInt(s, 10)`: skips leading `\s`, reads an optional sign and the
   * longest run of digits after it; no digit at all gives NaN (`None`).
   */
  function ParseInt(s: string): Option<int> {
    var t := TrimStart(s);
    var negative := t != [] && t[0] == '-';
    var body := if t != [] && (t[0] == '-' || t[0] == '+') then t[1..] else t;
    var n := DigitRunLength(body);
    if n == 0 then None
    else
      var v: int := DigitsValue(body[..n]);
      Some(if negative then -v else v)
  }

  /** The decimal rendering of `n` (JavaScript's `String(n)` for a natural number). */
  function Decimal(n: nat): (s: string)
    ensures s != [] && forall c <- s :: IsDigit(c)
    decreases n
  {
    if n < 10 then [DigitChar(n)] else Decimal(n / 10) + [DigitChar(n % 10)]
  }

  lemma {:induction false} DecimalValue(n: nat)
    ensures DigitsValue(Decimal(n)) == n
    decreases n
  {
    var s := Decimal(n);
    if n < 10 {
      assert s[..|s| - 1] == [];
    } else {
      assert s[..|s| - 1] == Decimal(n / 10);
      DecimalValue(n / 10);
    }
  }

  lemma {:induction false} DigitRunOfDigits(ds: string, rest: string)
    requires forall c <- ds :: IsDigit(c)
    requires rest == [] || !IsDigit(rest[0])
    ensures DigitRunLength(ds + rest) == |ds|
    decreases |ds|
  {
    if ds != [] {
      assert ds[0] in ds;
      assert (ds + rest)[0] == ds[0];
      assert (ds + rest)[1..] == ds[1..] + rest;
      forall c <- ds[1..] ensures IsDigit(c) {
        assert c in ds;
      }
      DigitRunOfDigits(ds[1..], rest);
    } else {
      assert ds + rest == rest;
    }
  }

  /**
   * `parseInt` reads back a rendered natural number, whatever follows it
   * as long as that does not start with a digit.
   */
  lemma ParseIntDecimal(n: nat, rest: string)
    requires rest == [] || !IsDigit(rest[0])
    ensures ParseInt(Decimal(n) + rest) == Some(n)
  {
    var d := Decimal(n);
    var s := d + rest;
    assert d[0] in d;
    assert s[0] == d[0];
    LeadingDigitUntrimmed(s);
    DigitRunOfDigits(d, rest);
    assert s[..|d|] == d;
    DecimalValue(n);
    ParseIntUnsigned(s);
  }

  /** A digit is not `\s`, so `TrimStart` leaves a string starting with one alone. */
  lemma LeadingDigitUntrimmed(s: string)
    requires s != [] && IsDigit(s[0])
    ensures TrimStart(s) == s
  {
    assert !IsWhitespace(s[0]);
  }

  /** On a string starting with a digit, `parseInt` reads the leading run of digits. */
  lemma ParseIntUnsigned(s: string)
    requires s != [] && IsDigit(s[0]) && TrimStart(s) == s
    ensures DigitRunLength(s) >= 1
    ensures ParseInt(s) == Some(DigitsValue(s[..DigitRunLength(s)]))
  {
  }
}
