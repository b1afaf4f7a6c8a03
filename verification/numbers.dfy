/** Python's integer formatting as `plot.py` uses it: `{n}`, `{n:,.0f}` on a
    whole number (thousands separated by commas) and `{n:08X}` (upper-case
    hexadecimal, zero-padded to eight digits). */
module Numbers {
  import opened Seqs
  import opened Strings

  /** The digit for `d`: 0-9, then A-F. */
  function DigitChar(d: nat): (c: char)
    requires d < 16
    ensures CharValue(c) == d
    ensures d < 10 ==> '0' <= c <= '9'
    ensures d >= 10 ==> 'A' <= c <= 'F'
  {
    if d < 10 then ('0' as int + d) as char else ('A' as int + d - 10) as char
  }

  /** The value of a digit character, 0 for anything else. */
  function CharValue(c: char): nat
  {
    if '0' <= c <= '9' then c as int - '0' as int
    else if 'A' <= c <= 'F' then c as int - 'A' as int + 10
    else 0
  }

  predicate IsDigitIn(c: char, base: nat)
  {
    ('0' <= c <= '9' || 'A' <= c <= 'F') && CharValue(c) < base
  }

  /** `n` written in `base` without leading zeros ("0" for zero). */
  function ToBase(n: nat, base: nat): (s: string)
    requires 2 <= base <= 16
    ensures |s| >= 1
    ensures forall k :: 0 <= k < |s| ==> IsDigitIn(s[k], base)
    ensures s[0] == '0' ==> n == 0
  {
    if n < base then [DigitChar(n)]
    else
      DivFacts(n, base);
      var r := ToBase(n / base, base) + [DigitChar(n % base)];
      assert r[0] == ToBase(n / base, base)[0];
      r
  }

  /** One digit of `ToBase`: the digits of the quotient, then the remainder's digit. */
  lemma ToBaseStep(n: nat, base: nat)
    requires 2 <= base <= 16 && n >= base
    ensures ToBase(n, base) == ToBase(n / base, base) + [DigitChar(n % base)]
  {
  }

  lemma DivFacts(n: nat, base: nat)
    requires 2 <= base <= 16 && n >= base
    ensures 1 <= n / base < n
    ensures n == n / base * base + n % base
    ensures n % base < base
  {
    var q, r := n / base, n % base;
    assert n == q * base + r;
    assert q * base >= q * 2;
  }

  /** The value of a digit string in `base`. */
  function ParseBase(s: string, base: nat): nat
  {
    if s == [] then 0 else ParseBase(s[..|s| - 1], base) * base + CharValue(s[|s| - 1])
  }

  /** Reading back what `ToBase` writes gives the number. */
  lemma {:induction false} ToBaseRoundTrip(n: nat, base: nat)
    requires 2 <= base <= 16
    ensures ParseBase(ToBase(n, base), base) == n
  {
    if n >= base {
      var s := ToBase(n, base);
      DivFacts(n, base);
      ToBaseRoundTrip(n / base, base);
      assert s[..|s| - 1] == ToBase(n / base, base);
    }
  }

  /** `{n}` for an int. */
  function IntText(n: int): string
  {
    if n < 0 then "-" + ToBase(-n, 10) else ToBase(n, 10)
  }

  /** Python's `int(s)` on what `IntText` writes: an optional minus sign,
      then decimal digits. */
  function ParseInt(s: string): int
  {
    if |s| > 0 && s[0] == '-' then 0 - ParseBase(s[1..], 10) as int else ParseBase(s, 10)
  }

  /** A leading minus sign exactly when `negative`, then one or more decimal
      digits and nothing else. */
  ghost predicate SignedDigits(t: string, negative: bool)
  {
    var start := if negative then 1 else 0;
    |t| > start && (negative ==> t[0] == '-') &&
    forall k :: start <= k < |t| ==> '0' <= t[k] <= '9'
  }

  /** `IntText` reads back as the number, and it is a minus sign (for
      negatives only) followed by decimal digits. */
  lemma IntTextRoundTrip(n: int)
    ensures ParseInt(IntText(n)) == n
    ensures SignedDigits(IntText(n), n < 0)
    ensures forall k :: 0 <= k < |IntText(n)| ==> (IntText(n)[k] == '-' <==> k == 0 && n < 0)
  {
    if n < 0 {
      NegativeText(-n);
    } else {
      ToBaseRoundTrip(n, 10);
      var t := ToBase(n, 10);
      forall k | 0 <= k < |t| ensures '0' <= t[k] <= '9' {
        assert IsDigitIn(t[k], 10);
      }
    }
  }

  lemma NegativeText(m: nat)
    requires m > 0
    ensures ParseInt("-" + ToBase(m, 10)) == 0 - m
    ensures SignedDigits("-" + ToBase(m, 10), true)
  {
    ToBaseRoundTrip(m, 10);
    var t := "-" + ToBase(m, 10);
    assert t[1..] == ToBase(m, 10);
    forall k | 1 <= k < |t| ensures '0' <= t[k] <= '9' {
      assert IsDigitIn(ToBase(m, 10)[k - 1], 10);
    }
  }

  function Zeros(k: nat): (s: string)
    ensures |s| == k && forall i :: 0 <= i < k ==> s[i] == '0'
  {
    if k == 0 then "" else "0" + Zeros(k - 1)
  }

  lemma {:induction false} ZerosParse(k: nat, base: nat)
    ensures ParseBase(Zeros(k), base) == 0
  {
    if k > 0 {
      assert Zeros(k)[..k - 1] == Zeros(k - 1);
      ZerosParse(k - 1, base);
    }
  }

  /** Leading zeros do not change the value. */
  lemma {:induction false} LeadingZerosParse(k: nat, s: string, base: nat)
    ensures ParseBase(Zeros(k) + s, base) == ParseBase(s, base)
  {
    if s == [] {
      assert Zeros(k) + s == Zeros(k);
      ZerosParse(k, base);
    } else {
      var t := Zeros(k) + s;
      assert t[..|t| - 1] == Zeros(k) + s[..|s| - 1];
      LeadingZerosParse(k, s[..|s| - 1], base);
    }
  }

  /** `{n:08X}`: upper-case hexadecimal, padded with zeros to at least eight digits. */
  function Hex08(n: nat): string
  {
    var h := ToBase(n, 16);
    if |h| < 8 then Zeros(8 - |h|) + h else h
  }

  /** The seed field is at least eight upper-case hexadecimal digits and reads
      back as the number. */
  lemma Hex08Spec(n: nat)
    ensures |Hex08(n)| >= 8
    ensures forall k :: 0 <= k < |Hex08(n)| ==> '0' <= Hex08(n)[k] <= '9' || 'A' <= Hex08(n)[k] <= 'F'
    ensures ParseBase(Hex08(n), 16) == n
  {
    var h := ToBase(n, 16);
    ToBaseRoundTrip(n, 16);
    if |h| < 8 {
      LeadingZerosParse(8 - |h|, h, 16);
      assert forall k :: 0 <= k < 8 - |h| ==> Hex08(n)[k] == '0';
      assert forall k :: 8 - |h| <= k < 8 ==> Hex08(n)[k] == h[k - (8 - |h|)];
    }
  }

  /** Three decimal digits with leading zeros. */
  function Pad3(m: nat): (s: string)
    requires m < 1000
    ensures |s| == 3
  {
    [DigitChar(m / 100), DigitChar(m / 10 % 10), DigitChar(m % 10)]
  }

  /** `{n:,.0f}` for a whole number: its decimal digits with a comma between
      every group of three, counted from the right. */
  function Grouped(n: nat): (s: string)
    ensures |s| >= 1
  {
    if n < 1000 then ToBase(n, 10) else Grouped(n / 1000) + "," + Pad3(n % 1000)
  }

  function Comma(): char -> bool
  {
    c => c != ','
  }

  /** The text with its commas removed. */
  function RemoveCommas(s: string): string
  {
    Filter(s, Comma())
  }

  lemma DecimalSplit(n: nat)
    requires n >= 1000
    ensures ToBase(n, 10) == ToBase(n / 1000, 10) + Pad3(n % 1000)
  {
    var c, m := n / 1000, n % 1000;
    ThreeDigits(n);
    var a, b := n / 10, n / 100;
    assert ToBase(n, 10) == ToBase(a, 10) + [DigitChar(m % 10)];
    assert ToBase(a, 10) == ToBase(b, 10) + [DigitChar(m / 10 % 10)];
    assert ToBase(b, 10) == ToBase(c, 10) + [DigitChar(m / 100)];
  }

  /** The last three decimal digits of `n` are those of `n % 1000`. */
  lemma ThreeDigits(n: nat)
    requires n >= 1000
    ensures n / 10 >= 10 && n / 100 >= 10
    ensures n / 10 / 10 == n / 100 && n / 100 / 10 == n / 1000
    ensures n % 10 == n % 1000 % 10
    ensures n / 10 % 10 == n % 1000 / 10 % 10
    ensures n / 100 % 10 == n % 1000 / 100
  {
    var c, m := n / 1000, n % 1000;
    var d0, d1, d2 := m % 10, m / 10 % 10, m / 100;
    assert m == 100 * d2 + 10 * d1 + d0 by {
      DivTen(m, m / 10, d0);
      DivTen(m / 10, d2, d1);
    }
    assert n == 1000 * c + m;
    DivTen(n, 100 * c + 10 * d2 + d1, d0);
    DivTen(n / 10, 10 * c + d2, d1);
    DivTen(n / 100, c, d2);
  }

  /** Quotient and remainder by ten are the only pair that rebuilds `n`. */
  lemma DivTen(n: nat, q: nat, r: nat)
    requires r < 10 && n == 10 * q + r
    ensures n / 10 == q && n % 10 == r
  {
  }

  /** Grouping only inserts commas: with them removed, the plain decimal
      digits remain. */
  lemma {:induction false} GroupedDigits(n: nat)
    ensures RemoveCommas(Grouped(n)) == ToBase(n, 10)
  {
    if n < 1000 {
      FilterAll(ToBase(n, 10), Comma());
    } else {
      GroupedDigits(n / 1000);
      GroupedDigitsStep(n);
    }
  }

  lemma GroupedDigitsStep(n: nat)
    requires n >= 1000
    requires RemoveCommas(Grouped(n / 1000)) == ToBase(n / 1000, 10)
    ensures RemoveCommas(Grouped(n)) == ToBase(n, 10)
  {
    var g, p := Grouped(n / 1000), Pad3(n % 1000);
    assert Grouped(n) == g + [','] + p;
    RemoveCommasJoin(g, p);
    DecimalSplit(n);
  }

  /** Removing commas around one separating comma and a comma-free piece. */
  lemma RemoveCommasJoin(g: string, p: string)
    requires ',' !in p
    ensures RemoveCommas(g + [','] + p) == RemoveCommas(g) + p
  {
    var keep, a := Comma(), g + [','];
    forall i | 0 <= i < |p| ensures keep(p[i]) {
      assert p[i] in p;
    }
    FilterAll(p, keep);
    FilterAppend(a, p, keep);
    assert Filter(a + p, keep) == Filter(a, keep) + p;
    FilterAppend(g, [','], keep);
    FilterNone([','], keep);
    assert Filter(a, keep) == Filter(g, keep);
  }

  /** Grouped text holds only decimal digits and commas. */
  lemma {:induction false} GroupedChars(n: nat)
    ensures forall k :: 0 <= k < |Grouped(n)| ==> Grouped(n)[k] == ',' || '0' <= Grouped(n)[k] <= '9'
  {
    if n < 1000 {
      var t := ToBase(n, 10);
      assert forall k :: 0 <= k < |t| ==> IsDigitIn(t[k], 10);
    } else {
      GroupedChars(n / 1000);
      var g, p := Grouped(n / 1000), Pad3(n % 1000);
      assert Grouped(n) == g + [','] + p;
    }
  }

  /** The grouped text reads back as the number once its commas are removed. */
  lemma GroupedValue(n: nat)
    ensures ParseBase(RemoveCommas(Grouped(n)), 10) == n
  {
    GroupedDigits(n);
    ToBaseRoundTrip(n, 10);
  }

  /** The groups between commas: the first has one to three digits, every
      later one exactly three, and all of them hold decimal digits only. */
  ghost predicate ThousandsGroups(groups: seq<string>)
  {
    |groups| >= 1 && 1 <= |groups[0]| <= 3 &&
    (forall k :: 1 <= k < |groups| ==> |groups[k]| == 3) &&
    (forall k, i :: 0 <= k < |groups| && 0 <= i < |groups[k]| ==> '0' <= groups[k][i] <= '9')
  }

  lemma {:induction false} GroupedShape(n: nat)
    ensures ThousandsGroups(Split(Grouped(n), ','))
  {
    if n < 1000 {
      SmallGroup(n);
    } else {
      GroupedShape(n / 1000);
      var g := Grouped(n / 1000);
      var p := Pad3(n % 1000);
      assert forall i :: 0 <= i < 3 ==> '0' <= p[i] <= '9';
      assert ',' !in p;
      SplitSnoc(g, ',', p);
      assert Grouped(n) == g + [','] + p;
      GroupsSnoc(Split(g, ','), p);
    }
  }

  /** A full group of three digits may follow any grouping. */
  lemma GroupsSnoc(groups: seq<string>, p: string)
    requires ThousandsGroups(groups)
    requires |p| == 3 && forall i :: 0 <= i < 3 ==> '0' <= p[i] <= '9'
    ensures ThousandsGroups(groups + [p])
  {
    var all := groups + [p];
    assert all[0] == groups[0];
    forall k, i | 0 <= k < |all| && 0 <= i < |all[k]| ensures '0' <= all[k][i] <= '9' {
      if k < |groups| {
        assert all[k] == groups[k];
      }
    }
  }

  /** Below a thousand there is a single group of one to three digits. */
  lemma SmallGroup(n: nat)
    requires n < 1000
    ensures ThousandsGroups(Split(Grouped(n), ','))
  {
    var s := ToBase(n, 10);
    assert ',' !in s;
    SplitNoSeparator(s, ',');
    if n >= 10 {
      assert s == ToBase(n / 10, 10) + [DigitChar(n % 10)];
      if n >= 100 {
        assert ToBase(n / 10, 10) == ToBase(n / 100, 10) + [DigitChar(n / 10 % 10)];
        assert n / 100 < 10;
      }
    }
  }
}
