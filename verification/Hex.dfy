/** Hexadecimal text of numbers, as the services exchange field elements. */
module Hex {
  import opened Options

  /** Value of a hexadecimal digit. */
  function DigitOf(c: char): (d: Option<nat>)
    ensures d.Some? ==> d.value < 16
  {
    if '0' <= c <= '9' then Some(c as nat - '0' as nat)
    else if 'a' <= c <= 'f' then Some(10 + c as nat - 'a' as nat)
    else if 'A' <= c <= 'F' then Some(10 + c as nat - 'A' as nat)
    else None
  }

  /** Digits are read in either case. */
  lemma DigitsSpelt(c: char, d: nat)
    requires d < 16
    ensures DigitOf(c) == Some(d) <==> c == "0123456789abcdef"[d] || c == "0123456789ABCDEF"[d]
  {
  }

  predicate IsHex(s: string) {
    forall i | 0 <= i < |s| :: DigitOf(s[i]).Some?
  }

  function Value(s: string): nat
    requires IsHex(s)
  {
    if s == [] then 0 else 16 * Value(s[..|s| - 1]) + DigitOf(s[|s| - 1]).value
  }

  function DigitChar(d: nat): (c: char)
    requires d < 16
    ensures DigitOf(c) == Some(d) && ('0' <= c <= '9' || 'a' <= c <= 'f')
  {
    if d < 10 then ('0' as nat + d) as char else ('a' as nat + d - 10) as char
  }

  /** Lower-case digits without leading zeros. */
  function Digits(n: nat): (s: string)
    ensures |s| >= 1 && IsHex(s) && Value(s) == n
  {
    if n < 16 then [DigitChar(n)]
    else
      var s := Digits(n / 16) + [DigitChar(n % 16)];
      assert s[..|s| - 1] == Digits(n / 16);
      s
  }

  function PadStart(s: string, width: nat): (p: string)
    ensures |p| == if |s| < width then width else |s|
  {
    if |s| < width then seq(width - |s|, _ => '0') + s else s
  }

  lemma {:induction false} LeadingZeros(k: nat, s: string)
    requires IsHex(s)
    ensures IsHex(seq(k, _ => '0') + s) && Value(seq(k, _ => '0') + s) == Value(s)
  {
    var z := seq(k, _ => '0');
    if s == [] {
      assert z + s == z;
      Zeros(k);
    } else {
      var rest := s[..|s| - 1];
      LeadingZeros(k, rest);
      assert (z + s)[..|z + s| - 1] == z + rest;
    }
  }

  lemma {:induction false} Zeros(k: nat)
    ensures IsHex(seq(k, _ => '0')) && Value(seq(k, _ => '0')) == 0
  {
    if k > 0 {
      Zeros(k - 1);
      assert seq(k, _ => '0')[..k - 1] == seq(k - 1, _ => '0');
    }
  }

  lemma PadStartValue(s: string, width: nat)
    requires IsHex(s)
    ensures IsHex(PadStart(s, width)) && Value(PadStart(s, width)) == Value(s)
  {
    if |s| < width {
      LeadingZeros(width - |s|, s);
    }
  }

  function ToHex(n: nat): (s: string) { "0x" + PadStart(Digits(n), 64) }

  /** The number a text stands for; an empty or malformed text is an error. */
  function FromHex(s: string): Option<nat> {
    var digits := if "0x" <= s then s[2..] else s;
    if digits != [] && IsHex(digits) then Some(Value(digits)) else None
  }

  /** Reading back a written number gives the number. */
  lemma FromToHex(n: nat)
    ensures FromHex(ToHex(n)) == Some(n)
  {
    PadStartValue(Digits(n), 64);
    assert ToHex(n)[2..] == PadStart(Digits(n), 64);
  }

  /** The prefix may be missing. */
  lemma PrefixOptional(s: string)
    requires !("0x" <= s)
    ensures FromHex("0x" + s) == FromHex(s)
  {
    assert ("0x" + s)[2..] == s;
  }

  // ----- Lengths

  function Pow16(k: nat): (p: nat)
    ensures p >= 1
  {
    if k == 0 then 1 else 16 * Pow16(k - 1)
  }

  lemma {:induction false} Pow16Sum(a: nat, b: nat)
    ensures Pow16(a + b) == Pow16(a) * Pow16(b)
  {
    if b > 0 {
      Pow16Sum(a, b - 1);
      assert Pow16(a) * (16 * Pow16(b - 1)) == 16 * (Pow16(a) * Pow16(b - 1));
    }
  }

  lemma {:induction false} ValueBound(s: string)
    requires IsHex(s)
    ensures Value(s) < Pow16(|s|)
  {
    if s != [] {
      ValueBound(s[..|s| - 1]);
    }
  }

  lemma {:induction false} DigitsLength(n: nat, k: nat)
    requires n < Pow16(k) && k >= 1
    ensures |Digits(n)| <= k
  {
    if n >= 16 {
      DigitsLength(n / 16, k - 1);
    }
  }

  /** Numbers of up to 64 digits are written with exactly 64. */
  lemma ToHexLength(n: nat)
    requires n < Pow16(64)
    ensures |ToHex(n)| == 66
  {
    DigitsLength(n, 64);
  }

  lemma {:induction false} ValueConcat(a: string, b: string)
    requires IsHex(a) && IsHex(b)
    ensures IsHex(a + b) && Value(a + b) == Value(a) * Pow16(|b|) + Value(b)
  {
    if b == [] {
      assert a + b == a;
    } else {
      var rest := b[..|b| - 1];
      ValueConcat(a, rest);
      ValueLast(a, b);
      ValueLast([], b);
      assert [] + b == b && [] + rest == rest;
      hide Value;
      Horner(Value(a), Pow16(|rest|), Value(rest), DigitOf(b[|b| - 1]).value);
    }
  }

  lemma ValueLast(a: string, b: string)
    requires IsHex(a) && IsHex(b) && b != []
    ensures IsHex(a + b) && IsHex(b[..|b| - 1]) && IsHex(a + b[..|b| - 1])
    ensures Value(a + b) == 16 * Value(a + b[..|b| - 1]) + DigitOf(b[|b| - 1]).value
  {
    assert (a + b)[..|a + b| - 1] == a + b[..|b| - 1];
  }

  lemma Horner(a: nat, p: nat, r: nat, d: nat)
    ensures 16 * (a * p + r) + d == a * (16 * p) + (16 * r + d)
  {
    assert a * (16 * p) == 16 * (a * p);
  }
}
