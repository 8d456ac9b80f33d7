/**
 * Unsigned decimal numerals: Rust's `str::parse::<u32>` and the `Display`
 * form of an integer (as `format!("{}", id)` writes it).
 */
module Decimal {
  import opened Wrappers

  const U32_MAX: nat := 0xFFFF_FFFF

  predicate IsDigit(c: char) { '0' <= c <= '9' }

  predicate AllDigits(s: string) { forall k :: 0 <= k < |s| ==> IsDigit(s[k]) }

  function DigitValue(c: char): nat
    requires IsDigit(c)
  {
    (c as int - '0' as int) as nat
  }

  function DigitChar(d: nat): (c: char)
    requires d < 10
    ensures IsDigit(c) && DigitValue(c) == d
  {
    ('0' as int + d) as char
  }

  /** The value of a string of decimal digits, most significant first. */
  function ValueOf(s: string): nat
    requires AllDigits(s)
  {
    if s == [] then 0 else 10 * ValueOf(s[..|s| - 1]) + DigitValue(s[|s| - 1])
  }

  /** The text after an optional leading `+`. */
  function Unsigned(s: string): string {
    if |s| > 0 && s[0] == '+' then s[1..] else s
  }

  /**
   * `s.parse::<u32>()`: an optional `+`, then at least one ASCII digit, and a
   * value that fits in 32 bits. Leading zeros are accepted; `-` is not.
   */
  function ParseU32(s: string): (r: Option<nat>)
    ensures r.Some? <==> Unsigned(s) != [] && AllDigits(Unsigned(s)) && ValueOf(Unsigned(s)) <= U32_MAX
    ensures r.Some? ==> r.value == ValueOf(Unsigned(s)) && r.value <= U32_MAX
    ensures r.Some? ==> s != [] && (s[0] == '+' || IsDigit(s[0]))
  {
    var digits := Unsigned(s);
    if digits != [] && AllDigits(digits) && ValueOf(digits) <= U32_MAX then Some(ValueOf(digits))
    else None
  }

  /** `k` zero digits. */
  function Zeros(k: nat): (z: string)
    ensures |z| == k && forall i :: 0 <= i < k ==> z[i] == '0'
  {
    seq(k, _ => '0')
  }

  lemma {:induction false} ValueOfZeros(k: nat)
    ensures AllDigits(Zeros(k)) && ValueOf(Zeros(k)) == 0
  {
    if k > 0 {
      ValueOfZeros(k - 1);
      assert Zeros(k)[..k - 1] == Zeros(k - 1);
    }
  }

  /** Leading zeros do not change the value of a numeral. */
  lemma {:induction false} ValueOfLeadingZeros(k: nat, u: string)
    requires AllDigits(u)
    ensures AllDigits(Zeros(k) + u) && ValueOf(Zeros(k) + u) == ValueOf(u)
    decreases |u|
  {
    var t := Zeros(k) + u;
    if u == [] {
      ValueOfZeros(k);
      assert t == Zeros(k);
    } else {
      var init := u[..|u| - 1];
      ValueOfLeadingZeros(k, init);
      assert t[..|t| - 1] == Zeros(k) + init;
      assert t[|t| - 1] == u[|u| - 1];
    }
  }

  /**
   * The numerals `parse::<u32>` accepts for a value: an optional `+` and any
   * number of leading zeros before its decimal form.
   */
  lemma ParseU32Of(plus: bool, zeros: nat, n: nat)
    requires n <= U32_MAX
    ensures ParseU32((if plus then "+" else "") + Zeros(zeros) + ToDecimal(n)) == Some(n)
  {
    var t := Zeros(zeros) + ToDecimal(n);
    var s := (if plus then "+" else "") + Zeros(zeros) + ToDecimal(n);
    ValueOfLeadingZeros(zeros, ToDecimal(n));
    UnsignedOf(plus, t);
    assert s == (if plus then "+" else "") + t;
  }

  lemma UnsignedOf(plus: bool, t: string)
    requires t != [] && AllDigits(t)
    ensures Unsigned((if plus then "+" else "") + t) == t
  {
    if plus {
      assert ("+" + t)[1..] == t;
    } else {
      assert IsDigit(t[0]);
    }
  }

  /** The canonical numeral: no sign, no leading zero except for `0` itself. */
  function ToDecimal(n: nat): (s: string)
    ensures s != [] && AllDigits(s) && ValueOf(s) == n
    ensures |s| > 1 ==> s[0] != '0'
  {
    if n < 10 then [DigitChar(n)]
    else
      var s := ToDecimal(n / 10) + [DigitChar(n % 10)];
      assert s[..|s| - 1] == ToDecimal(n / 10);
      s
  }

  /** Printing an id and parsing it back gives the id. */
  lemma ParseToDecimal(n: nat)
    requires n <= U32_MAX
    ensures ParseU32(ToDecimal(n)) == Some(n)
  {
    var s := ToDecimal(n);
    assert s[0] != '+' by { assert IsDigit(s[0]); }
  }

  /** Distinct ids print differently, so an id string names one id. */
  lemma ToDecimalInjective(a: nat, b: nat)
    ensures ToDecimal(a) == ToDecimal(b) <==> a == b
  {
  }

  /** A leading zero is accepted by the parser but never printed: `01` parses to 1, yet 1 prints as `1`. */
  lemma LeadingZeroNotCanonical()
    ensures ParseU32("01") == Some(1)
    ensures ToDecimal(1) == "1" && ToDecimal(1) != "01"
  {
    assert ValueOf("0") == 0;
  }
}
