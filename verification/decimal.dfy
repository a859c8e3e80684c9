/** Decimal rendering of unsigned integers as Rust's `{}` and `{:0N}` produce it,
    together with the reading-back function that gives the text its meaning. */
module Decimal {

  import opened Numeric

  predicate IsDigit(ch: char) {
    '0' <= ch <= '9'
  }

  predicate AllDigits(s: string) {
    forall i :: 0 <= i < |s| ==> IsDigit(s[i])
  }

  function DigitChar(d: nat): (ch: char)
    requires d < 10
    ensures IsDigit(ch)
  {
    "0123456789"[d]
  }

  function DigitValue(ch: char): nat
    requires IsDigit(ch)
  {
    ch as int - '0' as int
  }

  /** The number a string of decimal digits denotes (most significant first). */
  function Read(s: string): nat
    requires AllDigits(s)
  {
    if |s| == 0 then 0 else Read(s[..|s| - 1]) * 10 + DigitValue(s[|s| - 1])
  }

  /** `{}` of an unsigned integer: the shortest digit string, "0" for zero. */
  function Show(n: nat): (s: string)
    ensures |s| >= 1 && AllDigits(s)
    ensures |s| > 1 ==> s[0] != '0'
    ensures Read(s) == n
  {
    if n < 10 then [DigitChar(n)]
    else
      var prefix := Show(n / 10);
      var s := prefix + [DigitChar(n % 10)];
      assert s[..|s| - 1] == prefix;
      s
  }

  function Zeros(k: nat): (s: string)
    ensures |s| == k && AllDigits(s)
  {
    seq(k, _ => '0')
  }

  /** `{:0width}` of an unsigned integer: zero-padded on the left to at least `width`. */
  function ZeroPad(n: nat, width: nat): (s: string)
    ensures AllDigits(s)
    ensures |s| == Max(width, |Show(n)|)
    ensures Read(s) == n
  {
    var digits := Show(n);
    var pad := if |digits| < width then width - |digits| else 0;
    ReadLeadingZeros(pad, digits);
    Zeros(pad) + digits
  }

  lemma {:induction false} ReadZeros(k: nat)
    ensures Read(Zeros(k)) == 0
  {
    if k > 0 {
      assert Zeros(k)[..k - 1] == Zeros(k - 1);
      ReadZeros(k - 1);
    }
  }

  /** Leading zeros do not change the value read. */
  lemma {:induction false} ReadLeadingZeros(k: nat, s: string)
    requires AllDigits(s)
    ensures AllDigits(Zeros(k) + s)
    ensures Read(Zeros(k) + s) == Read(s)
    decreases |s|
  {
    var t := Zeros(k) + s;
    if |s| == 0 {
      assert t == Zeros(k);
      ReadZeros(k);
    } else {
      assert t[..|t| - 1] == Zeros(k) + s[..|s| - 1];
      ReadLeadingZeros(k, s[..|s| - 1]);
    }
  }

  /** A number below 1000 is shown with at most three digits. */
  lemma ShowBelowThousand(n: nat)
    requires n < 1000
    ensures |Show(n)| <= 3
  {
    if n >= 10 {
      if n >= 100 {
        assert |Show(n / 10 / 10)| == 1;
      }
    }
  }
}
