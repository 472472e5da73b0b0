/** Numbers as text: the octal modes that travel from the controller to the agent, and the
    decimal ids and counts the agent reads. */
module Numerals {
  import opened Wrappers

  const UINT32_LIMIT := 0x1_0000_0000
  const INT64_LIMIT := 0x8000_0000_0000_0000

  predicate IsDigit(c: char, base: nat) {
    '0' <= c && c as int - '0' as int < base
  }

  predicate AllDigits(s: string, base: nat) {
    forall k :: 0 <= k < |s| ==> IsDigit(s[k], base)
  }

  /** The value of a digit string, most significant digit first; the empty string is 0. */
  function Value(s: string, base: nat): nat
    requires AllDigits(s, base)
  {
    if |s| == 0 then 0
    else Value(s[..|s| - 1], base) * base + (s[|s| - 1] as int - '0' as int)
  }

  function DigitChar(d: nat): (c: char)
    requires d < 10
    ensures forall base :: d < base ==> IsDigit(c, base)
    ensures c as int - '0' as int == d
  {
    ('0' as int + d) as char
  }

  /** How Python's ':o' and Go's '%o' (base 8) and '%d' (base 10) print a number. */
  function Render(n: nat, base: nat): (s: string)
    requires base == 8 || base == 10
    ensures |s| > 0 && AllDigits(s, base)
  {
    if n < base then [DigitChar(n)] else Render(n / base, base) + [DigitChar(n % base)]
  }

  lemma DivMod(n: nat, base: nat)
    requires base == 8 || base == 10
    ensures (n / base) * base + n % base == n
  {
    if base == 8 { assert (n / 8) * 8 + n % 8 == n; } else { assert (n / 10) * 10 + n % 10 == n; }
  }

  lemma ValueSnoc(high: string, c: char, base: nat)
    requires AllDigits(high, base) && IsDigit(c, base)
    ensures AllDigits(high + [c], base)
    ensures Value(high + [c], base) == Value(high, base) * base + (c as int - '0' as int)
  {
    assert (high + [c])[..|high|] == high;
  }

  /** Printing a number and reading the digits back. */
  lemma {:induction false} RenderValue(n: nat, base: nat)
    requires base == 8 || base == 10
    ensures Value(Render(n, base), base) == n
  {
    if n < base {
      RenderOneDigit(n, base);
    } else {
      DivSmaller(n, base);
      RenderValue(n / base, base);
      RenderStep(n, base);
    }
  }

  lemma DivSmaller(n: nat, base: nat)
    requires (base == 8 || base == 10) && base <= n
    ensures n / base < n
  {
    if base == 8 { assert n / 8 < n; } else { assert n / 10 < n; }
  }

  lemma RenderOneDigit(n: nat, base: nat)
    requires (base == 8 || base == 10) && n < base
    ensures Value(Render(n, base), base) == n
  {
    var s := Render(n, base);
    assert s == [DigitChar(n)] && s[..|s| - 1] == "";
    assert Value("", base) == 0;
  }

  lemma RenderStep(n: nat, base: nat)
    requires (base == 8 || base == 10) && base <= n && Value(Render(n / base, base), base) == n / base
    ensures Value(Render(n, base), base) == n
  {
    var high, c := Render(n / base, base), DigitChar(n % base);
    ValueSnoc(high, c, base);
    DivMod(n, base);
    assert Render(n, base) == high + [c];
  }

  lemma {:induction false} LeadingZero(s: string, base: nat)
    requires AllDigits(s, base) && base > 0
    ensures AllDigits("0" + s, base) && Value("0" + s, base) == Value(s, base)
  {
    var z := "0" + s;
    if |s| == 0 {
      assert z[..|z| - 1] == "";
    } else {
      LeadingZero(s[..|s| - 1], base);
      assert z[..|z| - 1] == "0" + s[..|s| - 1];
    }
  }

  lemma RenderLastDigit(n: nat, base: nat)
    requires base == 8 || base == 10
    ensures var s := Render(n, base); s[|s| - 1] as int - '0' as int == n % base
  {}

  /** strconv.ParseUint(s, 8, 32). */
  function ParseOctal32(s: string): Option<nat> {
    if s != "" && AllDigits(s, 8) && Value(s, 8) < UINT32_LIMIT then Some(Value(s, 8)) else None
  }

  /** strconv.Atoi on a 64-bit platform. */
  function Atoi(s: string): Option<int> {
    var negative := s != "" && s[0] == '-';
    var digits := if s != "" && (s[0] == '-' || s[0] == '+') then s[1..] else s;
    if digits == "" || !AllDigits(digits, 10) then None
    else
      var v: int := Value(digits, 10);
      if negative then (if v <= INT64_LIMIT then Some(-v) else None)
      else if v < INT64_LIMIT then Some(v) else None
  }

  lemma AtoiSigned(s: string)
    requires s != "" && AllDigits(s, 10)
    ensures Atoi(s) == if Value(s, 10) < INT64_LIMIT then Some(Value(s, 10) as int) else None
    ensures Atoi("+" + s) == Atoi(s)
    ensures Atoi("-" + s) == if Value(s, 10) <= INT64_LIMIT then Some(-(Value(s, 10) as int)) else None
  {
    assert IsDigit(s[0], 10);
    assert ("+" + s)[1..] == s && ("-" + s)[1..] == s;
  }

  /** What Atoi reads: a printed number, with either sign, within 64 bits. */
  lemma AtoiReads(n: nat)
    ensures Atoi(Render(n, 10)) == Atoi("+" + Render(n, 10))
    ensures Atoi(Render(n, 10)) == if n < 0x8000_0000_0000_0000 then Some(n as int) else None
    ensures Atoi("-" + Render(n, 10)) == if n <= 0x8000_0000_0000_0000 then Some(-(n as int)) else None
  {
    RenderValue(n, 10);
    AtoiSigned(Render(n, 10));
  }

  /** A character that has no place in a decimal number. */
  predicate Stray(s: string, k: nat)
    requires k < |s|
  {
    !('0' <= s[k] <= '9') && !(k == 0 && (s[0] == '+' || s[0] == '-'))
  }

  /** A text that nobody could take for a number. */
  predicate IsName(s: string) { exists k :: 0 <= k < |s| && Stray(s, k) }

  lemma NamesAreNoNumbers(s: string)
    requires IsName(s)
    ensures Atoi(s) == None && s != ""
  {
    var k :| 0 <= k < |s| && Stray(s, k);
    var signed := s[0] == '-' || s[0] == '+';
    var digits := if signed then s[1..] else s;
    if digits != "" {
      assert digits[if signed then k - 1 else k] == s[k];
      assert !IsDigit(s[k], 10);
    }
  }
}
