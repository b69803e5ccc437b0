/** String facts shared by the model: JavaScript's `String(n)` for integers,
    its inverse, and the UTF-16 length JavaScript reports for a string. */
module Text {
  import opened Wrappers

  predicate IsDigit(c: char) {
    '0' <= c <= '9'
  }

  predicate AllDigits(s: string) {
    forall i :: 0 <= i < |s| ==> IsDigit(s[i])
  }

  function DigitChar(d: nat): (c: char)
    requires d < 10
    ensures IsDigit(c)
  {
    ('0' as int + d) as char
  }

  function DigitValue(c: char): (d: nat)
    requires IsDigit(c)
    ensures d < 10
  {
    c as int - '0' as int
  }

  function Pow10(k: nat): (p: nat)
    ensures p >= 1
  {
    if k == 0 then 1 else 10 * Pow10(k - 1)
  }

  /** Decimal digits of a natural number, most significant first, without
      leading zeros; this is `String(n)` for a non-negative integer. */
  function NatToString(n: nat): (r: string)
    ensures |r| >= 1
    ensures AllDigits(r)
    ensures |r| > 1 ==> r[0] != '0'
    decreases n
  {
    if n < 10 then [DigitChar(n)] else NatToString(n / 10) + [DigitChar(n % 10)]
  }

  /** `String(n)` for an integer: a minus sign before the digits of `-n`
      when `n` is negative. */
  function IntToString(n: int): string {
    if n < 0 then "-" + NatToString(-n) else NatToString(n)
  }

  /** The number a string of decimal digits denotes (the empty string denotes 0). */
  function DigitsValue(s: string): nat
    requires AllDigits(s)
  {
    if |s| == 0 then 0 else 10 * DigitsValue(s[..|s| - 1]) + DigitValue(s[|s| - 1])
  }

  /** Reads back what `IntToString` writes: an optional minus sign and at
      least one digit; anything else is rejected. */
  function ParseInt(s: string): Option<int> {
    if |s| > 0 && s[0] == '-' then
      if |s| > 1 && AllDigits(s[1..]) then Some(-(DigitsValue(s[1..]) as int)) else None
    else if |s| > 0 && AllDigits(s) then Some(DigitsValue(s) as int)
    else None
  }

  lemma {:induction false} DigitsValueOfNatToString(n: nat)
    ensures DigitsValue(NatToString(n)) == n
    decreases n
  {
    var r := NatToString(n);
    if n >= 10 {
      DigitsValueOfNatToString(n / 10);
      assert r[..|r| - 1] == NatToString(n / 10);
    }
  }

  /** `ParseInt` inverts `String(n)` on every integer. */
  lemma ParseIntOfIntToString(n: int)
    ensures ParseInt(IntToString(n)) == Some(n)
  {
    if n < 0 {
      DigitsValueOfNatToString(-n);
      ParseNegative(NatToString(-n));
    } else {
      var t := NatToString(n);
      DigitsValueOfNatToString(n);
      assert IsDigit(t[0]);
    }
  }

  /** A minus sign before digits reads as the negated value of the digits. */
  lemma ParseNegative(t: string)
    requires |t| >= 1 && AllDigits(t)
    ensures ParseInt("-" + t) == Some(-(DigitsValue(t) as int))
  {
    var s := "-" + t;
    assert s[0] == '-' && s[1..] == t;
  }

  /** A natural number has at most `k` digits exactly when it is below `10^k`. */
  lemma {:induction false} NatToStringLength(n: nat, k: nat)
    requires k >= 1
    ensures |NatToString(n)| <= k <==> n < Pow10(k)
    decreases n
  {
    if n >= 10 {
      if k == 1 {
        assert Pow10(1) == 10;
      } else {
        NatToStringLength(n / 10, k - 1);
      }
    } else {
      assert Pow10(k) >= 10 by { Pow10AtLeastTen(k); }
    }
  }

  lemma {:induction false} Pow10AtLeastTen(k: nat)
    requires k >= 1
    ensures Pow10(k) >= 10
  {
    if k > 1 {
      Pow10AtLeastTen(k - 1);
    }
  }

  lemma MulAtLeast(d: int, k: int)
    requires d > 0 && k >= 1
    ensures d * k >= d
  {
  }

  /** Euclidean division is unique: any decomposition `n == d * q + r` with
      `0 <= r < d` has `r` as its remainder. */
  lemma ModOfDecomposition(n: int, d: int, q: int, r: int)
    requires d > 0 && n == d * q + r && 0 <= r < d
    ensures n % d == r
  {
    var q', r' := n / d, n % d;
    assert d * q + r == d * q' + r';
    if q > q' {
      MulAtLeast(d, q - q');
      assert false;
    } else if q < q' {
      MulAtLeast(d, q' - q);
      assert false;
    }
  }

  lemma SplitLastDigit(n: nat, m: nat)
    requires m > 0
    ensures n % (10 * m) == 10 * ((n / 10) % m) + n % 10
  {
    var q := (n / 10) / m;
    var b := (n / 10) % m;
    assert n / 10 == m * q + b;
    assert n == 10 * (n / 10) + n % 10;
    assert n == (10 * m) * q + (10 * b + n % 10);
    ModOfDecomposition(n, 10 * m, q, 10 * b + n % 10);
  }

  /** The last `k` digits of `String(n)` denote `n mod 10^k`. */
  lemma {:induction false} SuffixDigitsValue(n: nat, k: nat)
    requires k <= |NatToString(n)|
    ensures AllDigits(NatToString(n)[|NatToString(n)| - k..])
    ensures DigitsValue(NatToString(n)[|NatToString(n)| - k..]) == n % Pow10(k)
    decreases n
  {
    var r := NatToString(n);
    if k == 0 {
      assert r[|r| - k..] == [];
    } else if n < 10 {
      assert r[|r| - k..] == r;
      assert Pow10(k) >= 10 by { Pow10AtLeastTen(k); }
    } else {
      SuffixDigitsValue(n / 10, k - 1);
      SuffixStep(n, k);
    }
  }

  lemma SuffixStep(n: nat, k: nat)
    requires n >= 10 && 1 <= k <= |NatToString(n)|
    requires DigitsValue(NatToString(n / 10)[|NatToString(n / 10)| - (k - 1)..]) == (n / 10) % Pow10(k - 1)
    ensures DigitsValue(NatToString(n)[|NatToString(n)| - k..]) == n % Pow10(k)
  {
    var r := NatToString(n);
    var front := NatToString(n / 10);
    var c := DigitChar(n % 10);
    var suffix := r[|r| - k..];
    var frontSuffix := front[|front| - (k - 1)..];
    assert suffix[..|suffix| - 1] == frontSuffix && suffix[|suffix| - 1] == c by {
      assert r == front + [c];
    }
    assert DigitsValue(suffix) == 10 * ((n / 10) % Pow10(k - 1)) + n % 10;
    SplitLastDigit(n, Pow10(k - 1));
  }

  /** The number of UTF-16 code units JavaScript's `length` reports: code
      points above U+FFFF take a surrogate pair. */
  function Utf16Length(s: string): (n: nat)
    ensures |s| <= n <= 2 * |s|
  {
    if |s| == 0 then 0 else Utf16Length(s[..|s| - 1]) + (if s[|s| - 1] as int >= 0x10000 then 2 else 1)
  }

  /** The position of the first `c` in `s`, if any. */
  function IndexOf(s: string, c: char): (r: Option<nat>)
    ensures r.Some? ==> r.value < |s| && s[r.value] == c
    ensures r.Some? ==> forall i :: 0 <= i < r.value ==> s[i] != c
    ensures r.None? ==> forall i :: 0 <= i < |s| ==> s[i] != c
  {
    if |s| == 0 then None
    else if s[0] == c then Some(0)
    else match IndexOf(s[1..], c)
      case None => None
      case Some(i) => Some(i + 1)
  }
}
