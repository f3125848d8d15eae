/** Decimal numerals in ASCII, as Python's `bytes.isdigit`, `int(bytes)` and f-string
    integer formatting read and write them. */
module Text {
  import opened Bytes

  /** Python's `bytes.isdigit()`: non-empty and every byte is one of `0`..`9`. */
  predicate IsDigits(v: seq<byte>)
  {
    |v| > 0 && forall i :: 0 <= i < |v| ==> '0' as int <= v[i] <= '9' as int
  }

  /** Python's `int(v)` for a byte string of decimal digits (leading zeros allowed). */
  function DigitsValue(v: seq<byte>): nat
    requires forall i :: 0 <= i < |v| ==> '0' as int <= v[i] <= '9' as int
  {
    if v == [] then 0 else DigitsValue(v[..|v| - 1]) * 10 + (v[|v| - 1] - '0' as int)
  }

  /** The shortest decimal numeral of n, as `str(n)` writes it. */
  function Digits(n: nat): (r: seq<byte>)
  {
    if n < 10 then ['0' as int + n] else Digits(n / 10) + ['0' as int + n % 10]
  }

  /** `str(n).encode()` for any Python int: a minus sign before negative numbers. */
  function Decimal(n: int): (r: seq<byte>)
  {
    if n < 0 then ['-' as int] + Digits(-n) else Digits(n)
  }

  /** 10 to the power n. */
  function Pow10(n: nat): (r: nat)
    ensures r >= 1
  {
    if n == 0 then 1 else 10 * Pow10(n - 1)
  }

  /** An n-digit numeral is below 10^n. */
  lemma {:induction false} DigitsValueBound(v: seq<byte>)
    requires forall i :: 0 <= i < |v| ==> '0' as int <= v[i] <= '9' as int
    ensures DigitsValue(v) < Pow10(|v|)
  {
    if v != [] {
      DigitsValueBound(v[..|v| - 1]);
    }
  }

  /** The digits of a + b: those of a, shifted left by the length of b, plus those of b. */
  lemma {:induction false} DigitsValueAppend(a: seq<byte>, b: seq<byte>)
    requires forall i :: 0 <= i < |a| ==> '0' as int <= a[i] <= '9' as int
    requires forall i :: 0 <= i < |b| ==> '0' as int <= b[i] <= '9' as int
    ensures DigitsValue(a + b) == DigitsValue(a) * Pow10(|b|) + DigitsValue(b)
  {
    if b == [] {
      assert a + b == a;
    } else {
      var init := b[..|b| - 1];
      var d := b[|b| - 1] - '0' as int;
      DigitsValueAppend(a, init);
      DigitsValueInit(a, b);
      ShiftDigit(DigitsValue(a), Pow10(|init|), DigitsValue(init), d);
    }
  }

  /** The value of a + b with its last digit split off, when b is not empty. */
  lemma DigitsValueInit(a: seq<byte>, b: seq<byte>)
    requires b != []
    requires forall i :: 0 <= i < |a| ==> '0' as int <= a[i] <= '9' as int
    requires forall i :: 0 <= i < |b| ==> '0' as int <= b[i] <= '9' as int
    ensures DigitsValue(a + b) == DigitsValue(a + b[..|b| - 1]) * 10 + (b[|b| - 1] - '0' as int)
  {
    var ab := a + b;
    forall i | 0 <= i < |ab|
      ensures '0' as int <= ab[i] <= '9' as int
    {
      if i < |a| {
        assert ab[i] == a[i];
      } else {
        assert ab[i] == b[i - |a|];
      }
    }
    assert ab[..|ab| - 1] == a + b[..|b| - 1];
  }

  /** One more digit on the right: ((x * p) + y) * 10 + d == x * (10 * p) + (y * 10 + d). */
  lemma ShiftDigit(x: int, p: int, y: int, d: int)
    ensures (x * p + y) * 10 + d == x * (10 * p) + (y * 10 + d)
  {
  }

  /** A numeral is worth 0 exactly when all its digits are `0`. */
  lemma {:induction false} DigitsValueZero(v: seq<byte>)
    requires forall i :: 0 <= i < |v| ==> '0' as int <= v[i] <= '9' as int
    ensures DigitsValue(v) == 0 <==> forall i :: 0 <= i < |v| ==> v[i] == '0' as int
  {
    if v != [] {
      var init := v[..|v| - 1];
      DigitsValueZero(init);
      assert forall i :: 0 <= i < |init| ==> init[i] == v[i];
    }
  }

  /** A three-digit numeral, place by place. */
  lemma ThreeDigits(t: seq<byte>)
    requires |t| == 3 && forall i :: 0 <= i < 3 ==> '0' as int <= t[i] <= '9' as int
    ensures DigitsValue(t) == (t[0] - '0' as int) * 100 + (t[1] - '0' as int) * 10 + (t[2] - '0' as int)
  {
    var t1, t2 := t[..1], t[..2];
    assert t1[..0] == [] && t2[..1] == t1 && t[..2] == t2;
    assert DigitsValue(t1) == t[0] - '0' as int;
    assert DigitsValue(t2) == DigitsValue(t1) * 10 + (t[1] - '0' as int);
  }

  /** A numeral of at least three digits splits into its leading digits and its last
      three: it lies in 200..299 when the leading digits are worth 0 and the last three
      start with `2`. */
  lemma Split2xx(v: seq<byte>) returns (a: seq<byte>, t: seq<byte>)
    requires IsDigits(v) && |v| >= 3
    ensures v == a + t && |t| == 3 && t[0] == v[|v| - 3]
    ensures forall i :: 0 <= i < |a| ==> '0' as int <= a[i] <= '9' as int
    ensures forall i :: 0 <= i < |a| ==> a[i] == v[i]
    ensures 200 <= DigitsValue(v) < 300 <==> DigitsValue(a) == 0 && t[0] == '2' as int
  {
    a, t := v[..|v| - 3], v[|v| - 3..];
    assert v == a + t;
    DigitsValueAppend(a, t);
    assert Pow10(|t|) == 1000;
    ThreeDigits(t);
  }

  /** The numerals `int()` reads as 200..299: any number of leading zeros, then `2`, then
      two more digits. */
  lemma Digits2xx(v: seq<byte>)
    requires IsDigits(v)
    ensures 200 <= DigitsValue(v) < 300 <==>
      |v| >= 3 && v[|v| - 3] == '2' as int && forall i :: 0 <= i < |v| - 3 ==> v[i] == '0' as int
  {
    if |v| < 3 {
      DigitsValueBound(v);
      assert Pow10(|v|) <= 100;
    } else {
      var a, t := Split2xx(v);
      DigitsValueZero(a);
    }
  }

  /** Reading back a numeral written by Digits gives the number it was written from. */
  lemma {:induction false} DigitsRoundTrip(n: nat)
    ensures IsDigits(Digits(n)) && DigitsValue(Digits(n)) == n
  {
    if n >= 10 {
      DigitsRoundTrip(n / 10);
      var r := Digits(n);
      assert r[..|r| - 1] == Digits(n / 10);
    }
  }
}
