/**
 * Typed attribute values of a trace, with the parts of Python's value
 * semantics the plotter relies on: numeric equality across int, float and
 * bool, ordering, and a decimal reading of text for `int()`, `float()` and
 * `is_float`.
 */
module Values {
  import opened Common

  datatype Value = IntV(i: int) | FloatV(f: real) | BoolV(b: bool) | StrV(s: string)

  /** The number a value stands for in arithmetic and comparisons (`bool` is an `int`). */
  function NumVal(v: Value): Option<real>
  {
    match v
    case IntV(i) => Some(i as real)
    case FloatV(f) => Some(f)
    case BoolV(b) => Some(if b then 1.0 else 0.0)
    case StrV(_) => None
  }

  predicate IsNumeric(v: Value) { !v.StrV? }

  /** The equality class of a value under Python's `==` (so `1 == 1.0 == True`). */
  datatype Key = NumKey(r: real) | TextKey(s: string)

  function Canon(v: Value): (k: Key)
    ensures k.NumKey? <==> IsNumeric(v)
    ensures IsNumeric(v) ==> NumVal(v) == Some(k.r)
  {
    match v
    case StrV(s) => TextKey(s)
    case _ => NumKey(NumVal(v).value)
  }

  // ---------------------------------------------------------------- decimal text

  predicate IsDigit(c: char) { '0' <= c <= '9' }

  predicate AllDigits(s: string) { forall i :: 0 <= i < |s| ==> IsDigit(s[i]) }

  function DigitValue(c: char): nat
    requires IsDigit(c)
  {
    c as int - '0' as int
  }

  /** The number a string of decimal digits denotes. */
  function Digits(s: string): nat
    requires AllDigits(s)
  {
    if s == [] then 0 else Digits(s[..|s| - 1]) * 10 + DigitValue(s[|s| - 1])
  }

  function Pow10(n: nat): (p: nat)
    ensures p >= 1
  {
    if n == 0 then 1 else 10 * Pow10(n - 1)
  }

  /** The position of the first '.' in `s`, if any. */
  function DotIndex(s: string): (r: Option<nat>)
    ensures r.None? <==> '.' !in s
    ensures r.Some? ==> r.value < |s| && s[r.value] == '.' && '.' !in s[..r.value]
  {
    if s == [] then None
    else if s[0] == '.' then Some(0)
    else
      var r := DotIndex(s[1..]);
      assert s == [s[0]] + s[1..];
      if r.None? then None
      else
        assert s[..r.value + 1] == [s[0]] + s[1..][..r.value];
        Some(r.value + 1)
  }

  /** An optional leading sign: whether it is '-', and the text after it. */
  function Sign(s: string): (bool, string)
  {
    if |s| > 0 && (s[0] == '-' || s[0] == '+') then (s[0] == '-', s[1..]) else (false, s)
  }

  /**
   * `int(text)` on the simplified grammar `[+-]digits`: `None` where
   * Python raises `ValueError`.
   */
  function ParseInt(s: string): Option<int>
  {
    var (neg, body) := Sign(s);
    if |body| > 0 && AllDigits(body) then
      var n: int := Digits(body);
      Some(if neg then -n else n)
    else None
  }

  /** The unsigned part of a float literal: `digits`, `digits.digits`, `digits.` or `.digits`. */
  function UnsignedDecimal(body: string): Option<real>
  {
    match DotIndex(body)
    case None =>
      if |body| > 0 && AllDigits(body) then Some(Digits(body) as real) else None
    case Some(k) =>
      var whole, frac := body[..k], body[k + 1..];
      if |whole| + |frac| > 0 && AllDigits(whole) && AllDigits(frac)
      then Some(Digits(whole) as real + Digits(frac) as real / Pow10(|frac|) as real)
      else None
  }

  /**
   * `float(text)` on the simplified grammar `[+-](digits | digits.digits | digits. | .digits)`:
   * `None` where Python raises `ValueError`.
   */
  function ParseFloat(s: string): Option<real>
  {
    var (neg, body) := Sign(s);
    match UnsignedDecimal(body)
    case None => None
    case Some(r) => Some(if neg then -r else r)
  }

  /** `is_float(val)`: whether `float(val)` succeeds; numbers and booleans always convert. */
  predicate IsFloat(v: Value)
  {
    match v
    case StrV(s) => ParseFloat(s).Some?
    case _ => true
  }

  function DigitChar(n: nat): (c: char)
    requires n < 10
    ensures IsDigit(c) && DigitValue(c) == n
  {
    ('0' as int + n) as char
  }

  /** The decimal numeral of `n`, as `str()` writes it. */
  function ShowNat(n: nat): (s: string)
    ensures |s| > 0 && AllDigits(s)
  {
    if n < 10 then [DigitChar(n)] else ShowNat(n / 10) + [DigitChar(n % 10)]
  }

  function ShowInt(i: int): (s: string)
  {
    if i < 0 then "-" + ShowNat(-i) else ShowNat(i)
  }

  lemma {:induction false} DigitsOfShowNat(n: nat)
    ensures Digits(ShowNat(n)) == n
  {
    if n >= 10 {
      var s := ShowNat(n);
      assert s[..|s| - 1] == ShowNat(n / 10);
      DigitsOfShowNat(n / 10);
    }
  }

  /** `int(str(i)) == i`. */
  lemma ParseShowInt(i: int)
    ensures ParseInt(ShowInt(i)) == Some(i)
  {
    var m: nat := if i < 0 then -i else i;
    DigitsOfShowNat(m);
    if i < 0 {
      assert Sign(ShowInt(i)) == (true, ShowNat(m));
    } else {
      var s := ShowNat(m);
      assert IsDigit(s[0]);
      assert Sign(ShowInt(i)) == (false, s);
    }
  }

  /** Every integer literal is a float literal of the same value (`float("12") == 12.0`). */
  lemma IntTextIsFloatText(s: string)
    requires ParseInt(s).Some?
    ensures ParseFloat(s) == Some(ParseInt(s).value as real)
  {
    var (neg, body) := Sign(s);
    assert DotIndex(body).None?;
  }

  /** `float(str(i)) == i`: every numeral reads back as the number it shows. */
  lemma ParseFloatShowInt(i: int)
    ensures ParseFloat(ShowInt(i)) == Some(i as real)
  {
    ParseShowInt(i);
    IntTextIsFloatText(ShowInt(i));
  }

  /**
   * `is_float` on state labels: every stored number qualifies, so does the
   * text of any integer, and a label that is not a numeral does not.
   */
  lemma IsFloatCases(v: Value)
    ensures IsNumeric(v) ==> IsFloat(v)
    ensures v.StrV? && ParseInt(v.s).Some? ==> IsFloat(v)
    ensures v.StrV? && (v.s == "" || v.s[0] !in "+-.0123456789") ==> !IsFloat(v)
  {
    if v.StrV? && ParseInt(v.s).Some? {
      IntTextIsFloatText(v.s);
    }
    if v.StrV? && |v.s| > 0 && v.s[0] !in "+-.0123456789" {
      var (neg, body) := Sign(v.s);
      assert body == v.s;
      assert !IsDigit(body[0]);
      match DotIndex(body)
      case None =>
        assert !AllDigits(body);
      case Some(k) =>
        assert k > 0;
        assert !AllDigits(body[..k]) by { assert body[..k][0] == body[0]; }
    }
  }

  // ---------------------------------------------------------------- ordering

  /** Python's `<` on strings: lexicographic by code point. */
  predicate StrLess(a: string, b: string)
  {
    if a == [] then b != []
    else if b == [] then false
    else if a[0] == b[0] then StrLess(a[1..], b[1..])
    else a[0] < b[0]
  }

  lemma {:induction false} StrLessIrreflexive(a: string)
    ensures !StrLess(a, a)
  {
    if a != [] { StrLessIrreflexive(a[1..]); }
  }

  lemma {:induction false} StrLessTotal(a: string, b: string)
    ensures a == b || StrLess(a, b) || StrLess(b, a)
  {
    if a != [] && b != [] && a[0] == b[0] {
      StrLessTotal(a[1..], b[1..]);
      assert a == [a[0]] + a[1..] && b == [b[0]] + b[1..];
    }
  }

  lemma {:induction false} StrLessTransitive(a: string, b: string, c: string)
    requires StrLess(a, b) && StrLess(b, c)
    ensures StrLess(a, c)
  {
    if a != [] && b != [] && c != [] && a[0] == b[0] && b[0] == c[0] {
      StrLessTransitive(a[1..], b[1..], c[1..]);
    }
  }

  lemma StrLessAsymmetric(a: string, b: string)
    requires StrLess(a, b)
    ensures !StrLess(b, a)
  {
    if StrLess(b, a) {
      StrLessTransitive(a, b, a);
      StrLessIrreflexive(a);
    }
  }

  /**
   * Values that Python can order among themselves: all numbers (and
   * booleans), or all strings. Mixing the two raises `TypeError`.
   */
  predicate Comparable(vs: seq<Value>)
  {
    (forall i :: 0 <= i < |vs| ==> IsNumeric(vs[i])) || (forall i :: 0 <= i < |vs| ==> vs[i].StrV?)
  }

  /** Python's `<` between two comparable values. */
  predicate Less(a: Value, b: Value)
  {
    if a.StrV? && b.StrV? then StrLess(a.s, b.s)
    else if IsNumeric(a) && IsNumeric(b) then NumVal(a).value < NumVal(b).value
    else false
  }

  /** Between values of the same kind, `<` is a strict total order up to `==`. */
  lemma LessTotal(a: Value, b: Value)
    requires a.StrV? == b.StrV?
    ensures Canon(a) == Canon(b) || Less(a, b) || Less(b, a)
  {
    if a.StrV? { StrLessTotal(a.s, b.s); }
  }

  lemma LessIrreflexive(a: Value, b: Value)
    requires Canon(a) == Canon(b)
    ensures !Less(a, b)
  {
    if a.StrV? { StrLessIrreflexive(a.s); }
  }

  lemma LessTransitive(a: Value, b: Value, c: Value)
    requires Less(a, b) && Less(b, c)
    ensures Less(a, c)
  {
    if a.StrV? { StrLessTransitive(a.s, b.s, c.s); }
  }

  lemma LessAsymmetric(a: Value, b: Value)
    requires Less(a, b)
    ensures !Less(b, a)
  {
    if a.StrV? { StrLessAsymmetric(a.s, b.s); }
  }
}
