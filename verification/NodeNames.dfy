/** The node names of the emulator ("node-00", "node-01", ...) and of the chaos experiment
    ("node-0", "node-1", ...) are pairwise different. */
module NodeNames {
  function Digit(d: nat): char
    requires d < 10
  {
    "0123456789"[d]
  }

  function Decimal(n: nat): (s: string)
    ensures |s| > 0 && (|s| == 1 <==> n < 10)
  {
    if n < 10 then [Digit(n)] else Decimal(n / 10) + [Digit(n % 10)]
  }

  /** `f"{n:02d}"`. */
  function Padded(n: nat): string {
    if |Decimal(n)| < 2 then "0" + Decimal(n) else Decimal(n)
  }

  function PlainName(n: nat): string {
    "node-" + Decimal(n)
  }

  function PaddedName(n: nat): string {
    "node-" + Padded(n)
  }

  predicate IsDigit(c: char) {
    '0' <= c <= '9'
  }

  /** What a string of digits means as a decimal number. */
  function Value(s: string): int {
    if s == "" then 0 else 10 * Value(s[..|s| - 1]) + s[|s| - 1] as int - '0' as int
  }

  lemma DigitIs(d: nat)
    requires d < 10
    ensures IsDigit(Digit(d)) && Digit(d) as int - '0' as int == d
  {
  }

  /** `str(n)`: digits that mean n, without a leading zero but for 0 itself. */
  lemma {:induction false} DecimalIsTheNumber(n: nat)
    ensures Value(Decimal(n)) == n
    ensures forall i :: 0 <= i < |Decimal(n)| ==> IsDigit(Decimal(n)[i])
    ensures Decimal(n)[0] == '0' <==> n == 0
  {
    hide Digit;
    DigitIs(0);
    DigitIs(n % 10);
    if n < 10 {
      assert Decimal(n)[..0] == "";
      if Digit(n) == '0' {
        DigitInjective(n, 0);
      }
    } else {
      DecimalIsTheNumber(n / 10);
      assert Decimal(n)[..|Decimal(n)| - 1] == Decimal(n / 10);
    }
  }

  /** The names: the number in decimal after "node-", in the emulator with a zero before a single digit. */
  lemma NamesAreNumbers(n: nat)
    ensures PlainName(n)[..5] == "node-" == PaddedName(n)[..5]
    ensures Value(PlainName(n)[5..]) == n == Value(PaddedName(n)[5..])
    ensures forall i :: 5 <= i < |PlainName(n)| ==> IsDigit(PlainName(n)[i])
    ensures forall i :: 5 <= i < |PaddedName(n)| ==> IsDigit(PaddedName(n)[i])
    ensures PlainName(n)[5] == '0' <==> n == 0
    ensures if n < 10 then |PaddedName(n)| == 7 else PaddedName(n) == PlainName(n)
  {
    hide Value;
    DecimalIsTheNumber(n);
    assert PlainName(n)[5..] == Decimal(n) && PaddedName(n)[5..] == Padded(n);
    hide Decimal;
    if n < 10 {
      LeadingZero(Decimal(n));
    }
  }

  lemma LeadingZero(s: string)
    requires |s| == 1
    ensures Value("0" + s) == Value(s)
  {
    assert ("0" + s)[..1] == "0" && s[..0] == "" && "0"[..0] == "";
  }

  lemma DigitInjective(d: nat, e: nat)
    requires d < 10 && e < 10 && Digit(d) == Digit(e)
    ensures d == e
  {
    var digits := "0123456789";
    assert digits[0] == '0' && digits[1] == '1' && digits[2] == '2' && digits[3] == '3' && digits[4] == '4';
    assert digits[5] == '5' && digits[6] == '6' && digits[7] == '7' && digits[8] == '8' && digits[9] == '9';
  }

  lemma {:induction false} DecimalInjective(m: nat, n: nat)
    requires Decimal(m) == Decimal(n)
    ensures m == n
  {
    hide Digit;
    if m < 10 {
      assert Decimal(m)[0] == Digit(m) && Decimal(n)[0] == Digit(n);
      DigitInjective(m, n);
    } else {
      var k := |Decimal(m)| - 1;
      assert Decimal(m)[k] == Digit(m % 10) && Decimal(n)[k] == Digit(n % 10);
      DigitInjective(m % 10, n % 10);
      assert Decimal(m)[..k] == Decimal(m / 10) && Decimal(n)[..k] == Decimal(n / 10);
      DecimalInjective(m / 10, n / 10);
    }
  }

  lemma {:induction false} NoLeadingZero(n: nat)
    requires n > 0
    ensures Decimal(n)[0] != Digit(0)
  {
    hide Digit;
    if n < 10 {
      if Digit(n) == Digit(0) {
        DigitInjective(n, 0);
      }
    } else {
      NoLeadingZero(n / 10);
    }
  }

  /** Zero padding to two digits keeps the names apart, also past 99. */
  lemma NamesInjective(m: nat, n: nat)
    requires m != n
    ensures PlainName(m) != PlainName(n)
    ensures PaddedName(m) != PaddedName(n)
  {
    hide Decimal;
    if PlainName(m) == PlainName(n) {
      assert PlainName(m)[5..] == PlainName(n)[5..];
      DecimalInjective(m, n);
    }
    if PaddedName(m) == PaddedName(n) {
      assert PaddedName(m)[5..] == PaddedName(n)[5..];
      PaddedInjective(m, n);
    }
  }

  lemma PaddedInjective(m: nat, n: nat)
    requires Padded(m) == Padded(n)
    ensures m == n
  {
    hide Decimal;
    if m < 10 && n < 10 {
      assert Padded(m)[1..] == Decimal(m) && Padded(n)[1..] == Decimal(n);
      DecimalInjective(m, n);
    } else if m >= 10 && n >= 10 {
      DecimalInjective(m, n);
    } else {
      PaddedDiffer(if m < 10 then m else n, if m < 10 then n else m);
    }
  }

  lemma PaddedDiffer(m: nat, n: nat)
    requires m < 10 <= n
    ensures Padded(m) != Padded(n)
  {
    hide Decimal;
    NoLeadingZero(n);
    assert Padded(m)[0] == Digit(0);
  }
}
