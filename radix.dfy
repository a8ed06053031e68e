/** Positional rendering of non-negative integers as JavaScript's
    `Number.prototype.toString(radix)` writes them (digits 0-9 then lower-case a-z,
    no leading zero), `String.prototype.toUpperCase` on such text, and the reading
    back of a digit string, which makes the rendering provably injective. */
module Radix {
  import opened Seqs

  /** The digit `toString(radix)` writes for the value `d`. */
  function DigitChar(d: nat): (c: char)
    requires d < 36
    ensures DigitValue(c) == Some(d)
    ensures IsLowerDigit(c)
  {
    if d < 10 then (48 + d) as char else (87 + d) as char
  }

  /** The value of a digit character in either case; None for any other character. */
  function DigitValue(c: char): Option<nat>
  {
    if '0' <= c <= '9' then Some(c as int - 48)
    else if 'a' <= c <= 'z' then Some(c as int - 87)
    else if 'A' <= c <= 'Z' then Some(c as int - 55)
    else None
  }

  predicate IsDigit(c: char, base: nat)
  {
    DigitValue(c).Some? && DigitValue(c).value < base
  }

  predicate IsLowerDigit(c: char)
  {
    '0' <= c <= '9' || 'a' <= c <= 'z'
  }

  predicate IsUpperDigit(c: char)
  {
    '0' <= c <= '9' || 'A' <= c <= 'Z'
  }

  /** `n.toString(base)` for a non-negative integer `n`. */
  function ToRadix(n: nat, base: nat): (s: string)
    requires 2 <= base <= 36
    ensures s != [] && (s[0] == '0' <==> n == 0)
    ensures forall i :: 0 <= i < |s| ==> IsLowerDigit(s[i]) && IsDigit(s[i], base)
    decreases n
  {
    if n < base then [DigitChar(n)]
    else
      DivMod(n, base);
      ToRadix(n / base, base) + [DigitChar(n % base)]
  }

  /** `toUpperCase` restricted to what it does on ASCII letters. */
  function UpperChar(c: char): char
  {
    if 'a' <= c <= 'z' then (c as int - 32) as char else c
  }

  function Upper(s: string): string
  {
    seq(|s|, i requires 0 <= i < |s| => UpperChar(s[i]))
  }

  /** One step of reading digits, most significant first: the value so far shifted
      one place, plus the next digit. */
  function Shift(v: nat, base: nat, d: nat): nat
  {
    v * base + d
  }

  /** The number a digit string denotes in `base`, most significant digit first. */
  function Value(s: string, base: nat): nat
    requires forall i :: 0 <= i < |s| ==> IsDigit(s[i], base)
  {
    if s == [] then 0
    else
      var init, last := s[..|s| - 1], s[|s| - 1];
      assert forall i :: 0 <= i < |init| ==> init[i] == s[i];
      assert IsDigit(last, base);
      Shift(Value(init, base), base, DigitValue(last).value)
  }

  /** Multiplying by a base of at least two at least doubles. */
  lemma {:induction false} AtLeastDouble(q: nat, base: nat)
    requires 2 <= base
    ensures q * base >= 2 * q
  {
    if q > 0 {
      AtLeastDouble(q - 1, base);
      assert q * base == (q - 1) * base + base;
    }
  }

  /** Euclidean division by the base, for a number of at least two digits. */
  lemma DivMod(n: nat, base: nat)
    requires 2 <= base <= n
    ensures n == Shift(n / base, base, n % base)
    ensures n / base < n && n % base < base
  {
    var q, d := n / base, n % base;
    assert n == q * base + d;
    AtLeastDouble(q, base);
  }

  /** Reading the rendering back yields the number rendered. */
  lemma {:induction false} ValueOfToRadix(n: nat, base: nat)
    requires 2 <= base <= 36
    ensures Value(ToRadix(n, base), base) == n
    decreases n
  {
    if n >= base {
      var q, d := n / base, n % base;
      DivMod(n, base);
      var s := ToRadix(n, base);
      assert s == ToRadix(q, base) + [DigitChar(d)];
      assert s[..|s| - 1] == ToRadix(q, base);
      ValueOfToRadix(q, base);
      assert DigitValue(s[|s| - 1]).value == d;
    }
  }

  /** Upper-casing a lower-case digit string turns every digit into an upper-case
      digit of the same value. */
  lemma {:induction false} UpperKeepsDigits(s: string, base: nat)
    requires forall i :: 0 <= i < |s| ==> IsLowerDigit(s[i]) && IsDigit(s[i], base)
    ensures forall i :: 0 <= i < |s| ==> IsUpperDigit(Upper(s)[i]) && IsDigit(Upper(s)[i], base)
    ensures Value(Upper(s), base) == Value(s, base)
  {
    if s != [] {
      var init := s[..|s| - 1];
      UpperKeepsDigits(init, base);
      assert Upper(s)[..|s| - 1] == Upper(init);
    }
  }

  /** Upper-cased base-`base` rendering read back yields the number rendered. */
  lemma UpperRadixRoundTrip(n: nat, base: nat)
    requires 2 <= base <= 36
    ensures forall i :: 0 <= i < |Upper(ToRadix(n, base))| ==> IsUpperDigit(Upper(ToRadix(n, base))[i])
    ensures Value(Upper(ToRadix(n, base)), base) == n
  {
    UpperKeepsDigits(ToRadix(n, base), base);
    ValueOfToRadix(n, base);
  }

  /** Different numbers have different renderings. */
  lemma ToRadixInjective(m: nat, n: nat, base: nat)
    requires 2 <= base <= 36
    requires ToRadix(m, base) == ToRadix(n, base)
    ensures m == n
  {
    ValueOfToRadix(m, base);
    ValueOfToRadix(n, base);
  }
}
