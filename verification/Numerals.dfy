/** Positional numerals: how a number is written in a base, and how it is read back. */
module Numerals {
  import opened Text

  function Pow(base: nat, n: nat): (p: nat)
    ensures base >= 1 ==> p >= 1
  {
    if n == 0 then 1 else base * Pow(base, n - 1)
  }

  function DigitChar(d: nat, upper: bool): char
    requires d < 16
  {
    if d < 10 then '0' + d as char
    else (if upper then 'A' else 'a') + (d - 10) as char
  }

  predicate IsDigitIn(c: char, base: nat) {
    DigitValue(c) < base
  }

  /** The value of a digit of any base up to 16; 16 for every other character. */
  function DigitValue(c: char): nat {
    if '0' <= c <= '9' then (c - '0') as nat
    else if 'a' <= c <= 'f' then (c - 'a') as nat + 10
    else if 'A' <= c <= 'F' then (c - 'A') as nat + 10
    else 16
  }

  /** `v` written in `base`, most significant digit first, without leading zeros. */
  function Numeral(v: nat, base: nat, upper: bool): string
    requires 2 <= base <= 16
  {
    if v < base then [DigitChar(v, upper)]
    else Numeral(v / base, base, upper) + [DigitChar(v % base, upper)]
  }

  /** The number a string of digits stands for; the empty string stands for zero. */
  function Value(s: string, base: nat): nat {
    if s == "" then 0 else Value(s[..|s| - 1], base) * base + DigitValue(s[|s| - 1])
  }

  ghost predicate AllDigits(s: string, base: nat) {
    forall i :: 0 <= i < |s| ==> IsDigitIn(s[i], base)
  }

  lemma ValueSnoc(s: string, c: char, base: nat)
    ensures Value(s + [c], base) == Value(s, base) * base + DigitValue(c)
  {
    assert (s + [c])[..|s|] == s;
  }

  lemma DivMod(v: nat, b: nat)
    requires b >= 2
    ensures v == (v / b) * b + v % b
    ensures v > 0 ==> v / b < v
  {
    assert (v / b) * b >= (v / b) * 2;
  }

  /** The numeral consists of digits of the base and reads back as the number. */
  lemma {:induction false} NumeralReads(v: nat, base: nat, upper: bool)
    requires 2 <= base <= 16
    ensures Value(Numeral(v, base, upper), base) == v
    ensures AllDigits(Numeral(v, base, upper), base)
    ensures |Numeral(v, base, upper)| > 0
    decreases v
  {
    hide Value, DigitChar, DigitValue;
    if v < base {
      DigitReads(v, upper);
      ValueSnoc("", DigitChar(v, upper), base);
      NothingReads(base);
      assert Numeral(v, base, upper) == "" + [DigitChar(v, upper)];
    } else {
      DivMod(v, base);
      var q, r := v / base, v % base;
      DigitReads(r, upper);
      NumeralReads(q, base, upper);
      ValueSnoc(Numeral(q, base, upper), DigitChar(r, upper), base);
    }
  }

  lemma DigitReads(d: nat, upper: bool)
    requires d < 16
    ensures DigitValue(DigitChar(d, upper)) == d
  {
  }

  lemma NothingReads(base: nat)
    ensures Value("", base) == 0
  {
  }

  /** Upper-case numerals have no lower-case digit, and lower-case numerals no upper-case one. */
  lemma {:induction false} NumeralCase(v: nat, base: nat, c: char)
    requires 2 <= base <= 16
    ensures 'a' <= c <= 'f' ==> c !in Numeral(v, base, true)
    ensures 'A' <= c <= 'F' ==> c !in Numeral(v, base, false)
    decreases v
  {
    if v >= base {
      DivMod(v, base);
      NumeralCase(v / base, base, c);
    }
  }

  /** A numeral has nothing but digits. */
  lemma NumeralAvoids(v: nat, base: nat, upper: bool, c: char)
    requires 2 <= base <= 16 && DigitValue(c) == 16
    ensures c !in Numeral(v, base, upper)
  {
    NumeralReads(v, base, upper);
    hide Numeral;
    forall x | x in Numeral(v, base, upper) ensures x != c {
      var i :| 0 <= i < |Numeral(v, base, upper)| && Numeral(v, base, upper)[i] == x;
      assert IsDigitIn(Numeral(v, base, upper)[i], base);
    }
  }

  /** A numeral has no leading zero, except the numeral of zero itself. */
  lemma {:induction false} NumeralLeads(v: nat, base: nat, upper: bool)
    requires 2 <= base <= 16
    ensures |Numeral(v, base, upper)| > 0
    ensures Numeral(v, base, upper)[0] == '0' <==> v == 0
    decreases v
  {
    if v >= base {
      DivMod(v, base);
      var q := v / base;
      NumeralLeads(q, base, upper);
      assert q > 0;
    }
  }

  /** A numeral has at most `n` digits exactly when the number is below `base` to the `n`. */
  lemma {:induction false} NumeralLength(v: nat, base: nat, upper: bool, n: nat)
    requires 2 <= base <= 16
    ensures |Numeral(v, base, upper)| >= 1
    ensures n >= 1 ==> (|Numeral(v, base, upper)| <= n <==> v < Pow(base, n))
    decreases n, v
  {
    hide DigitChar;
    if n == 0 {
      if v >= base {
        DivMod(v, base);
        NumeralLength(v / base, base, upper, 0);
      }
    } else if v < base {
      PowMonotone(base, 1, n);
      assert Pow(base, 1) == base * Pow(base, 0);
    } else if n == 1 {
      NumeralLength(v / base, base, upper, 0);
      assert Pow(base, 1) == base * Pow(base, 0);
    } else {
      var q := v / base;
      NumeralLength(q, base, upper, n - 1);
      DivBelow(v, base, Pow(base, n - 1));
    }
  }

  lemma DivBelow(v: nat, b: nat, p: nat)
    requires b > 0
    ensures v / b < p <==> v < b * p
  {
    var q := v / b;
    assert v == b * q + v % b;
    if q < p {
      assert b * (q + 1) <= b * p;
    } else {
      assert b * p <= b * q;
    }
  }

  lemma {:induction false} PowMonotone(base: nat, m: nat, n: nat)
    requires base >= 1 && m <= n
    ensures 1 <= Pow(base, m) <= Pow(base, n)
    decreases n
  {
    if n > 0 {
      if m == n {
        PowMonotone(base, n - 1, n - 1);
      } else {
        PowMonotone(base, m, n - 1);
      }
    }
  }

  /** Reading a digit string splits at any point. */
  lemma {:induction false} ValueSplit(s: string, t: string, base: nat)
    ensures Value(s + t, base) == Value(s, base) * Pow(base, |t|) + Value(t, base)
  {
    if t == "" {
      assert s + t == s;
    } else {
      var t' := t[..|t| - 1];
      assert (s + t)[..|s + t| - 1] == s + t';
      ValueSplit(s, t', base);
      var c := t[|t| - 1];
      ValueSnoc(s + t', c, base);
      assert (s + t') + [c] == s + t;
      SplitStep(Value(s, base), Pow(base, |t'|), base, Value(t', base), DigitValue(c));
    }
  }

  lemma SplitStep(a: nat, p: nat, base: nat, b: nat, d: nat)
    ensures (a * p + b) * base + d == a * (base * p) + (b * base + d)
  {
    assert (a * p) * base == a * (base * p);
  }

  lemma {:induction false} ValueBound(s: string, base: nat)
    requires base >= 1 && AllDigits(s, base)
    ensures Value(s, base) < Pow(base, |s|)
  {
    if s != "" {
      var s' := s[..|s| - 1];
      ValueBound(s', base);
      assert IsDigitIn(s[|s| - 1], base);
      BoundStep(Value(s', base), Pow(base, |s'|), base, DigitValue(s[|s| - 1]));
    }
  }

  lemma BoundStep(v: nat, p: nat, base: nat, d: nat)
    requires v < p && d < base
    ensures v * base + d < base * p
  {
    assert (v + 1) * base <= p * base;
  }

  lemma {:induction false} ZerosValue(n: nat, base: nat)
    ensures Value(Repeat('0', n), base) == 0
  {
    if n > 0 {
      assert Repeat('0', n)[..n - 1] == Repeat('0', n - 1);
      ZerosValue(n - 1, base);
    }
  }

  /** Leading zeros do not change what a digit string stands for. */
  lemma LeadingZeros(n: nat, s: string, base: nat)
    ensures Value(Repeat('0', n) + s, base) == Value(s, base)
  {
    ValueSplit(Repeat('0', n), s, base);
    ZerosValue(n, base);
  }

  lemma ModUnique(a: nat, q: nat, p: nat, r: nat)
    requires p > 0 && r < p && a == q * p + r
    ensures a % p == r
  {
    var q', r' := a / p, a % p;
    assert a == q' * p + r';
    assert (q - q') * p == r' - r;
    assert q - q' >= 1 ==> (q - q') * p >= p;
    assert q - q' <= -1 ==> (q - q') * p + p <= 0;
  }

  /** The last `n` digits of a numeral stand for the number modulo `base` to the `n`. */
  lemma LastDigits(v: nat, base: nat, upper: bool, n: nat)
    requires 2 <= base <= 16 && n >= 1
    ensures Value(LastN(Numeral(v, base, upper), n), base) == v % Pow(base, n)
    ensures AllDigits(LastN(Numeral(v, base, upper), n), base)
  {
    var s := Numeral(v, base, upper);
    NumeralReads(v, base, upper);
    NumeralLength(v, base, upper, n);
    PowMonotone(base, 0, n);
    if |s| <= n {
      ModUnique(v, 0, Pow(base, n), v);
    } else {
      var hi, lo := s[..|s| - n], s[|s| - n..];
      assert s == hi + lo;
      ValueSplit(hi, lo, base);
      assert forall i :: 0 <= i < |lo| ==> lo[i] == s[i + (|s| - n)];
      ValueBound(lo, base);
      ModUnique(v, Value(hi, base), Pow(base, n), Value(lo, base));
    }
  }
}
