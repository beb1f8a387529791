/**
Credit ids, period ids and company names as field elements: the backend's encoding, the
frontend's, and which labels they tell apart.
 */
module Labels {
  import opened Hex
  import opened PrimeField

  /** Characters kept of a label. */
  const KEPT: nat := 31

  predicate Alphanumeric(c: char) { 'a' <= c <= 'z' || 'A' <= c <= 'Z' || '0' <= c <= '9' }

  function Stripped(text: string): (s: string)
    ensures forall i | 0 <= i < |s| :: Alphanumeric(s[i])
  {
    if text == "" then ""
    else if Alphanumeric(text[0]) then [text[0]] + Stripped(text[1..])
    else Stripped(text[1..])
  }

  /** What of a label is encoded. */
  function Significant(text: string): (s: string)
    ensures s <= Stripped(text) && |s| == if |Stripped(text)| < KEPT then |Stripped(text)| else KEPT
    ensures forall i | 0 <= i < |s| :: Alphanumeric(s[i])
  {
    var s := Stripped(text);
    if |s| <= KEPT then s else s[..KEPT]
  }

  /** Stripping keeps every alphanumeric character, in place, and no other. */
  lemma {:induction false} StrippedPieces(a: string, c: char, b: string)
    ensures Stripped(a + [c] + b) == Stripped(a) + (if Alphanumeric(c) then [c] else []) + Stripped(b)
  {
    var whole := a + [c] + b;
    if a == "" {
      assert whole[1..] == b;
    } else {
      assert whole[1..] == a[1..] + [c] + b;
      StrippedPieces(a[1..], c, b);
    }
  }

  /** Two hexadecimal digits of a byte. */
  function HexByte(b: nat): (s: string)
    requires b < 256
    ensures |s| == 2 && IsHex(s)
  {
    [DigitChar(b / 16), DigitChar(b % 16)]
  }

  /** The bytes of a text, written in hexadecimal. */
  function HexText(s: string): (t: string)
    requires forall i | 0 <= i < |s| :: Alphanumeric(s[i])
    ensures |t| == 2 * |s| && IsHex(t)
  {
    if s == "" then ""
    else
      var last := s[|s| - 1];
      assert Alphanumeric(last);
      HexText(s[..|s| - 1]) + HexByte(last as nat)
  }

  function CreditIdToField(creditId: string): nat {
    PadStartValue(HexText(Significant(creditId)), 2 * KEPT);
    Value(PadStart(HexText(Significant(creditId)), 2 * KEPT))
  }

  /** The frontend's loop: each code written by itself and padded to two digits. */
  method FrontendCreditIdToField(creditId: string) returns (element: nat)
    ensures element == CreditIdToField(creditId)
  {
    var clean := Significant(creditId);
    var hex := "";
    for i := 0 to |clean|
      invariant hex == HexText(clean[..i])
    {
      assert clean[..i + 1][..i] == clean[..i];
      TwoDigits(clean[i] as nat);
      hex := hex + PadStart(Digits(clean[i] as nat), 2);
    }
    assert clean[..|clean|] == clean;
    PadStartValue(hex, 2 * KEPT);
    element := Value(PadStart(hex, 2 * KEPT));
  }

  lemma TwoDigits(b: nat)
    requires 16 <= b < 256
    ensures Digits(b) == HexByte(b) == PadStart(Digits(b), 2)
  {
    assert Digits(b / 16) == [DigitChar(b / 16)];
  }

  // ----- What the encoding tells apart

  /** Big-endian base 256. */
  function Base256(s: string): nat {
    if s == "" then 0 else 256 * Base256(s[..|s| - 1]) + s[|s| - 1] as nat
  }

  lemma {:induction false} HexTextIsBase256(s: string)
    requires forall i | 0 <= i < |s| :: Alphanumeric(s[i])
    ensures Value(HexText(s)) == Base256(s)
  {
    if s != "" {
      var t, b := HexText(s[..|s| - 1]), s[|s| - 1] as nat;
      HexTextIsBase256(s[..|s| - 1]);
      var whole := t + HexByte(b);
      assert whole[..|whole| - 1] == t + [DigitChar(b / 16)];
      assert whole[..|whole| - 1][..|t|] == t;
      assert Value(whole) == 16 * (16 * Value(t) + b / 16) + b % 16;
    }
  }

  lemma {:induction false} Base256Injective(a: string, b: string)
    requires forall i | 0 <= i < |a| :: 0 < a[i] as nat < 256
    requires forall i | 0 <= i < |b| :: 0 < b[i] as nat < 256
    requires Base256(a) == Base256(b)
    ensures a == b
  {
    if a != "" && b != "" {
      Base256Injective(a[..|a| - 1], b[..|b| - 1]);
      assert a == a[..|a| - 1] + [a[|a| - 1]];
      assert b == b[..|b| - 1] + [b[|b| - 1]];
    }
  }

  lemma EncodedIsBase256(text: string)
    ensures CreditIdToField(text) == Base256(Significant(text))
  {
    var s := Significant(text);
    PadStartValue(HexText(s), 2 * KEPT);
    HexTextIsBase256(s);
  }

  /**
  Two labels encode to one field element exactly when their alphanumeric characters, cut at
  31, agree.
   */
  lemma LabelsDistinguished(a: string, b: string)
    ensures CreditIdToField(a) == CreditIdToField(b) <==> Significant(a) == Significant(b)
  {
    EncodedIsBase256(a);
    EncodedIsBase256(b);
    if CreditIdToField(a) == CreditIdToField(b) {
      Base256Injective(Significant(a), Significant(b));
    }
  }

  /** An encoding is a 31-byte number, so already a reduced field element. */
  lemma LabelBelowOrder(text: string)
    ensures CreditIdToField(text) < Pow16(2 * KEPT) <= ORDER
  {
    hide Pow16, HexText, Significant, IsHex, Value, PadStart;
    var s := HexText(Significant(text));
    PadStartValue(s, 2 * KEPT);
    ValueBound(PadStart(s, 2 * KEPT));
    ThirtyOneBytes();
  }

  lemma Pow16Two()
    ensures Pow16(2) == 0x100
  {
    assert Pow16(1) == 16;
  }

  lemma ThirtyOneBytes()
    ensures Pow16(62) == 0x100000000000000000000000000000000000000000000000000000000000000
  {
    Pow16Two();
    hide Pow16;
    Pow16Sum(2, 2);
    Pow16Sum(4, 4);
    Pow16Sum(8, 8);
    Pow16Sum(16, 16);
    Pow16Sum(32, 16);
    Pow16Sum(48, 8);
    Pow16Sum(56, 4);
    Pow16Sum(60, 2);
  }
}
