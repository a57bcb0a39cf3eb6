/** Decimal spelling of integers (strconv.FormatInt), always a canonical JSON integer. */
module Decimal {
  import opened Json
  import opened Canonical

  function Digit(n: int): char
    requires 0 <= n < 10
  {
    '0' + n as char
  }

  function FormatNat(n: nat): (s: string)
    ensures s != "" && forall i | 0 <= i < |s| :: IsDigit(s[i])
  {
    if n < 10 then [Digit(n)] else FormatNat(n / 10) + [Digit(n % 10)]
  }

  function FormatInt(n: int): string {
    if n < 0 then "-" + FormatNat(-n) else FormatNat(n)
  }

  lemma {:induction false} NatRoundTrip(n: nat)
    ensures DigitsValue(FormatNat(n)) == n
    ensures n > 0 ==> '1' <= FormatNat(n)[0] <= '9'
  {
    var s := FormatNat(n);
    if n < 10 {
      assert s[..0] == "";
    } else {
      NatRoundTrip(n / 10);
      assert s[..|s| - 1] == FormatNat(n / 10);
    }
  }

  /** The spelling of n is an accepted integer literal with value n, so spellings are unique. */
  lemma IntRoundTrip(n: int)
    ensures IntPattern(FormatInt(n)) && IntValue(FormatInt(n)) == n && FormatInt(n) != "-0"
  {
    var a: nat := if n < 0 then -n else n;
    NatRoundTrip(a);
    var d := FormatNat(a);
    assert IsDigit(d[0]);
    assert Unsigned(FormatInt(n)) == d by {
      if n < 0 { assert ("-" + d)[1..] == d; }
    }
  }

  lemma {:induction false} NatLength(n: nat, k: nat)
    requires n >= Power10(k)
    ensures |FormatNat(n)| > k
  {
    if k > 0 {
      assert n / 10 >= Power10(k - 1);
      NatLength(n / 10, k - 1);
    }
  }

  function Power10(k: nat): nat { if k == 0 then 1 else 10 * Power10(k - 1) }

  lemma {:induction false} SpellingUnique(d: string)
    requires d == "0" || (d != "" && '1' <= d[0] <= '9' && forall i | 0 <= i < |d| :: IsDigit(d[i]))
    ensures FormatNat(DigitsValue(d)) == d && (d != "0" ==> DigitsValue(d) > 0)
    decreases |d|
  {
    var init, last := d[..|d| - 1], d[|d| - 1];
    if |d| == 1 {
      assert init == "";
    } else {
      SpellingUnique(init);
      assert d == init + [last];
    }
  }

  /** The accepted numbers are exactly the decimal spellings of the integers below 2^53. */
  lemma AcceptedNumbers(lit: string)
    ensures CanonicalInt(lit) <==>
            exists n: int :: -0x20_0000_0000_0000 < n < 0x20_0000_0000_0000 && lit == FormatInt(n)
  {
    if CanonicalInt(lit) {
      var d := Unsigned(lit);
      SpellingUnique(d);
      assert lit == FormatInt(IntValue(lit)) by { if lit[0] == '-' { assert lit == "-" + d; } }
    }
    if n: int :| -0x20_0000_0000_0000 < n < 0x20_0000_0000_0000 && lit == FormatInt(n) { IntRoundTrip(n); }
  }
}
