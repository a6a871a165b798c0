/** Decimal numerals: `str(n)` and `f"{n:010d}"`, and reading them back. */
module Decimal {

  function Digit(d: nat): char
    requires d < 10
  {
    (48 + d) as char
  }

  predicate IsDigit(c: char) { '0' <= c <= '9' }

  /** `str(n)` */
  function Dec(n: nat): (s: string)
    ensures s != ""
  {
    if n < 10 then [Digit(n)] else Dec(n / 10) + [Digit(n % 10)]
  }

  /** `int(s)` for a string of digits. */
  function Parse(s: string): nat {
    if s == "" then 0
    else Parse(s[..|s| - 1]) * 10 + (if IsDigit(s[|s| - 1]) then s[|s| - 1] as int - 48 else 0)
  }

  predicate AllDigits(s: string) {
    forall i :: 0 <= i < |s| ==> IsDigit(s[i])
  }

  lemma {:induction false} ParseDec(n: nat)
    ensures AllDigits(Dec(n)) && Parse(Dec(n)) == n
  {
    if n < 10 {
      assert Dec(n)[..0] == "";
    } else {
      ParseDec(n / 10);
      assert Dec(n)[..|Dec(n)| - 1] == Dec(n / 10);
    }
  }

  function Pow10(k: nat): nat {
    if k == 0 then 1 else 10 * Pow10(k - 1)
  }

  /** A numeral has at most `k` digits exactly when the number is below ten to the `k`. */
  lemma {:induction false} DecLength(n: nat, k: nat)
    requires k > 0
    ensures |Dec(n)| <= k <==> n < Pow10(k)
  {
    if k == 1 {
      assert Pow10(1) == 10 * Pow10(0);
    } else if n >= 10 {
      DecLength(n / 10, k - 1);
    } else {
      Pow10Positive(k - 1);
    }
  }

  lemma {:induction false} Pow10Positive(k: nat)
    ensures Pow10(k) >= 1
  {
    if k > 0 {
      Pow10Positive(k - 1);
    }
  }

  function Zeros(n: nat): (s: string)
    ensures |s| == n
  {
    if n == 0 then "" else "0" + Zeros(n - 1)
  }

  /** `f"{n:0{width}d}"` */
  function Padded(n: nat, width: nat): string {
    (if |Dec(n)| < width then Zeros(width - |Dec(n)|) else "") + Dec(n)
  }

  /** `f"{n:010d}"` */
  function Pad10(n: nat): string { Padded(n, 10) }

  lemma {:induction false} ParseZeros(k: nat, s: string)
    ensures Parse(Zeros(k) + s) == Parse(s)
  {
    if s == "" {
      assert Zeros(k) + "" == Zeros(k);
      ZerosAreZero(k);
    } else {
      ParseZeros(k, s[..|s| - 1]);
      assert (Zeros(k) + s)[..|Zeros(k) + s| - 1] == Zeros(k) + s[..|s| - 1];
    }
  }

  lemma {:induction false} ZerosAreDigits(n: nat)
    ensures AllDigits(Zeros(n))
  {
    if n > 0 {
      ZerosAreDigits(n - 1);
    }
  }

  lemma {:induction false} ZerosAreZero(k: nat)
    ensures Parse(Zeros(k)) == 0
  {
    if k > 0 {
      ZerosAreZero(k - 1);
      ZerosSnoc(k - 1);
      assert Zeros(k)[..k - 1] == Zeros(k - 1);
    }
  }

  lemma {:induction false} ZerosSnoc(k: nat)
    ensures Zeros(k + 1) == Zeros(k) + "0"
  {
    if k > 0 {
      ZerosSnoc(k - 1);
    }
  }

  /** A padded numeral always reads back as the number, and has exactly the width exactly when the number has no more
      digits than that; otherwise it has more. */
  lemma PaddedFacts(n: nat, width: nat)
    requires width > 0
    ensures Parse(Padded(n, width)) == n && |Padded(n, width)| >= width
    ensures |Padded(n, width)| == width <==> n < Pow10(width)
  {
    ParseDec(n);
    DecLength(n, width);
    if |Dec(n)| < width {
      ParseZeros(width - |Dec(n)|, Dec(n));
    } else {
      assert "" + Dec(n) == Dec(n);
    }
  }

  /** An offset has exactly ten digits exactly when it is below ten to the tenth. */
  lemma Pad10Facts(n: nat)
    ensures Parse(Pad10(n)) == n
    ensures |Pad10(n)| == 10 <==> n < Pow10(10)
  {
    PaddedFacts(n, 10);
  }
}
