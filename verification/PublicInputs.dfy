/**
The public inputs of a retirement proof as 136 bytes: the relay's encoding into a buffer and
the contract's decoding.
 */
module PublicInputs {
  import opened Arithmetic
  import opened Options
  import opened Hex

  type Byte = b: nat | b < 256

  type Bytes = seq<Byte>

  const LENGTH: nat := 136

  datatype Inputs = Inputs(fields: seq<string>, minVintageYear: int, minPermanence: int)
  {
    /** nullifier, registry root, volume commitment, corridor id */
    predicate Valid() { |fields| == 4 }

    predicate InRange() { 0 <= minVintageYear < U32 && 0 <= minPermanence < U32 }
  }

  // ----- Encoding

  /** Drops the first "0x", wherever it stands. */
  function WithoutPrefix(s: string): string {
    if |s| < 2 then s
    else if s[..2] == "0x" then s[2..]
    else [s[0]] + WithoutPrefix(s[1..])
  }

  /** Bytes of pairs of digits, up to the first pair that is not one. */
  function Parse(s: string): Bytes {
    if |s| < 2 || DigitOf(s[0]).None? || DigitOf(s[1]).None? then []
    else [16 * DigitOf(s[0]).value + DigitOf(s[1]).value] + Parse(s[2..])
  }

  function ToBytes32(hex: string): Bytes { Parse(PadStart(WithoutPrefix(hex), 64)) }

  /** A buffer with src copied in at a position, as far as it fits. */
  function Copied(buf: Bytes, src: Bytes, at: nat): (r: Bytes)
    requires at <= |buf|
    ensures |r| == |buf|
  {
    var n := if |src| <= |buf| - at then |src| else |buf| - at;
    buf[..at] + src[..n] + buf[at + n..]
  }

  function U32Bytes(n: nat): (b: Bytes)
    requires n < U32
    ensures |b| == 4
  {
    [n / 0x100_0000, n / 0x1_0000 % 256, n / 0x100 % 256, n % 256]
  }

  function Encoded(i: Inputs): (r: Bytes)
    requires i.Valid() && i.InRange()
    ensures |r| == LENGTH
  {
    var b0 := Copied(seq(LENGTH, _ => 0), ToBytes32(i.fields[0]), 0);
    var b1 := Copied(b0, ToBytes32(i.fields[1]), 32);
    var b2 := Copied(b1, ToBytes32(i.fields[2]), 64);
    var b3 := Copied(b2, ToBytes32(i.fields[3]), 96);
    Copied(Copied(b3, U32Bytes(i.minVintageYear), 128), U32Bytes(i.minPermanence), 132)
  }

  method CopyInto(buf: array<Byte>, src: Bytes, at: nat)
    requires at <= buf.Length
    modifies buf
    ensures buf[..] == Copied(old(buf[..]), src, at)
  {
    ghost var was := buf[..];
    var n := 0;
    while n < |src| && at + n < buf.Length
      invariant n <= |src| && at + n <= buf.Length
      invariant buf[..] == was[..at] + src[..n] + was[at + n..]
    {
      buf[at + n] := src[n];
      n := n + 1;
    }
  }

  method WriteU32(buf: array<Byte>, n: nat, at: nat)
    requires n < U32 && at + 4 <= buf.Length
    modifies buf
    ensures buf[..] == Copied(old(buf[..]), U32Bytes(n), at)
  {
    ghost var was := buf[..];
    buf[at] := n / 0x100_0000;
    buf[at + 1] := n / 0x1_0000 % 256;
    buf[at + 2] := n / 0x100 % 256;
    buf[at + 3] := n % 256;
    assert buf[..] == was[..at] + U32Bytes(n)[..4] + was[at + 4..];
  }

  /** The relay's buffer; a number outside 32 bits is an error. */
  method EncodePublicInputs(i: Inputs) returns (buf: Option<array<Byte>>)
    requires i.Valid()
    ensures buf.Some? <==> i.InRange()
    ensures buf.Some? ==> fresh(buf.value) && buf.value[..] == Encoded(i)
  {
    hide Copied, ToBytes32, U32Bytes;
    var b := new Byte[LENGTH](_ => 0);
    assert b[..] == seq(LENGTH, _ => 0);
    CopyInto(b, ToBytes32(i.fields[0]), 0);
    CopyInto(b, ToBytes32(i.fields[1]), 32);
    CopyInto(b, ToBytes32(i.fields[2]), 64);
    CopyInto(b, ToBytes32(i.fields[3]), 96);
    if !(0 <= i.minVintageYear < U32) {
      return None;
    }
    WriteU32(b, i.minVintageYear, 128);
    if !(0 <= i.minPermanence < U32) {
      return None;
    }
    WriteU32(b, i.minPermanence, 132);
    buf := Some(b);
  }

  // ----- Decoding

  /** Bitwise or. */
  function BitOr(a: nat, b: nat): nat
    decreases a + b
  {
    if a == 0 then b
    else if b == 0 then a
    else 2 * BitOr(a / 2, b / 2) + if a % 2 == 1 || b % 2 == 1 then 1 else 0
  }

  function ShiftLeft(a: nat, k: nat): nat { a * Exp2(k) }

  /** A byte of the inputs, zero past their end. */
  function ByteAt(bytes: Bytes, at: nat): Byte { if at < |bytes| then bytes[at] else 0 }

  function ReadU32(bytes: Bytes, at: nat): nat {
    BitOr(BitOr(BitOr(ShiftLeft(ByteAt(bytes, at), 24), ShiftLeft(ByteAt(bytes, at + 1), 16)),
                ShiftLeft(ByteAt(bytes, at + 2), 8)),
          ByteAt(bytes, at + 3))
  }

  /** Field k of the inputs. */
  function Field(bytes: Bytes, k: nat): (field: Bytes)
    requires 32 * k + 32 <= |bytes|
    ensures |field| == 32
  {
    bytes[32 * k..32 * k + 32]
  }

  /** Big-endian value. */
  function BytesValue(b: Bytes): nat {
    if b == [] then 0 else 256 * BytesValue(b[..|b| - 1]) + b[|b| - 1]
  }

  // ----- Shift and or is big-endian arithmetic

  lemma {:induction false} OrDisjoint(a: nat, k: nat, b: nat)
    requires b < Exp2(k)
    ensures BitOr(ShiftLeft(a, k), b) == ShiftLeft(a, k) + b
  {
    if k == 0 {
      assert ShiftLeft(a, 0) == a;
    } else {
      OrDisjoint(a, k - 1, b / 2);
      hide BitOr, Exp2;
      ShiftStep(a, k);
      OrOfEven(ShiftLeft(a, k - 1), b);
    }
  }

  lemma ShiftStep(a: nat, k: nat)
    requires k > 0
    ensures ShiftLeft(a, k) == 2 * ShiftLeft(a, k - 1)
  {
    assert a * (2 * Exp2(k - 1)) == 2 * (a * Exp2(k - 1));
  }

  lemma OrOfEven(a: nat, b: nat)
    ensures BitOr(2 * a, b) == 2 * BitOr(a, b / 2) + b % 2
  {
  }

  lemma ShiftOut(a: nat, b: nat, j: nat, k: nat)
    ensures ShiftLeft(a, j + k) + ShiftLeft(b, k) == ShiftLeft(ShiftLeft(a, j) + b, k)
  {
    Exp2Sum(j, k);
    hide Exp2;
    Distribute(a, Exp2(j), b, Exp2(k));
  }

  lemma Distribute(a: nat, p: nat, b: nat, q: nat)
    ensures (a * p + b) * q == a * (p * q) + b * q
  {
    MulSplit(a * p, b, q);
    assert a * p * q == a * (p * q);
  }

  lemma ByteShifts()
    ensures Exp2(8) == 0x100 && Exp2(16) == 0x1_0000 && Exp2(24) == 0x100_0000
  {
    Exp2Sum(8, 8);
    Exp2Sum(16, 8);
  }

  lemma ReadU32Value(bytes: Bytes, at: nat)
    ensures ReadU32(bytes, at) == 0x100_0000 * ByteAt(bytes, at) + 0x1_0000 * ByteAt(bytes, at + 1)
                                  + 0x100 * ByteAt(bytes, at + 2) + ByteAt(bytes, at + 3)
  {
    var b0, b1, b2, b3 := ByteAt(bytes, at), ByteAt(bytes, at + 1), ByteAt(bytes, at + 2), ByteAt(bytes, at + 3);
    ByteShifts();
    ReadU32Steps(b0, b1, b2, b3);
    hide BitOr, Exp2;
  }

  lemma ReadU32Steps(b0: Byte, b1: Byte, b2: Byte, b3: Byte)
    ensures BitOr(BitOr(BitOr(ShiftLeft(b0, 24), ShiftLeft(b1, 16)), ShiftLeft(b2, 8)), b3)
         == ShiftLeft(b0, 24) + ShiftLeft(b1, 16) + ShiftLeft(b2, 8) + b3
  {
    ByteShifts();
    hide Exp2, BitOr;
    ShiftOut(b0, 0, 8, 16);
    OrDisjoint(b0, 24, ShiftLeft(b1, 16));
    ShiftOut(b0, b1, 8, 16);
    var high := ShiftLeft(b0, 8) + b1;
    OrDisjoint(high, 16, ShiftLeft(b2, 8));
    ShiftOut(high, b2, 8, 8);
    OrDisjoint(ShiftLeft(high, 8) + b2, 8, b3);
  }

  // ----- Round trip

  lemma {:induction false} ParseAt(s: string, i: nat)
    requires IsHex(s) && i < |s| / 2
    ensures |Parse(s)| == |s| / 2
    ensures Parse(s)[i] == 16 * DigitOf(s[2 * i]).value + DigitOf(s[2 * i + 1]).value
  {
    if i > 0 {
      ParseAt(s[2..], i - 1);
    } else if |s| >= 4 {
      ParseAt(s[2..], 0);
    }
  }

  /** A malformed text is read up to its first pair that is not two digits. */
  lemma {:induction false} ParsePrefix(a: string, b: string)
    requires IsHex(a) && |a| % 2 == 0
    ensures Parse(a + b) == Parse(a) + Parse(b)
    ensures |b| < 2 || DigitOf(b[0]).None? || DigitOf(b[1]).None? ==> Parse(b) == []
  {
    if a == [] {
      assert a + b == b;
    } else {
      ParsePrefix(a[2..], b);
      assert (a + b)[2..] == a[2..] + b;
    }
  }

  /** The first "0x" is dropped wherever it stands, and nothing else. */
  lemma {:induction false} PrefixDropped(a: string, b: string)
    requires forall i | 0 <= i < |a| - 1 :: a[i] == '0' ==> a[i + 1] != 'x'
    ensures WithoutPrefix(a) == a
    ensures WithoutPrefix(a + "0x" + b) == a + b
  {
    var s := a + "0x" + b;
    if a == [] {
      assert s[..2] == "0x" && s[2..] == b;
    } else {
      assert s[0] == a[0] && s[1] == if |a| == 1 then '0' else a[1];
      assert s[..2] == [s[0], s[1]];
      assert |a| > 1 ==> a[..2] == [a[0], a[1]];
      assert s[1..] == a[1..] + "0x" + b;
      PrefixDropped(a[1..], b);
      assert a + b == [a[0]] + (a[1..] + b);
    }
  }

  /** Bytes made of the pairs of some digits have the value of the digits. */
  lemma {:induction false} PairsValue(s: string, b: Bytes)
    requires IsHex(s) && |s| == 2 * |b|
    requires forall i {:trigger b[i]} | 0 <= i < |b| :: b[i] == 16 * DigitOf(s[2 * i]).value + DigitOf(s[2 * i + 1]).value
    ensures BytesValue(b) == Value(s)
  {
    if b != [] {
      var t := s[..|s| - 1];
      assert t[..|t| - 1] == s[..|s| - 2];
      PairsValue(s[..|s| - 2], b[..|b| - 1]);
    }
  }

  /** The first 32 bytes of a padded hex text have the value of its first 64 digits. */
  lemma ToBytes32Value(hex: string)
    requires IsHex(WithoutPrefix(hex))
    ensures var p := PadStart(WithoutPrefix(hex), 64);
            && IsHex(p) && |ToBytes32(hex)| >= 32
            && BytesValue(ToBytes32(hex)[..32]) == Value(p[..64])
  {
    var p := PadStart(WithoutPrefix(hex), 64);
    PadStartValue(WithoutPrefix(hex), 64);
    ParseAt(p, 0);
    var b := Parse(p)[..32];
    forall i {:trigger b[i]} | 0 <= i < 32 ensures b[i] == 16 * DigitOf(p[..64][2 * i]).value + DigitOf(p[..64][2 * i + 1]).value {
      ParseAt(p, i);
    }
    PairsValue(p[..64], b);
  }

  lemma CopiedWithin(buf: Bytes, src: Bytes, at: nat)
    requires at + 32 <= |buf| && |src| >= 32
    ensures Copied(buf, src, at)[at..at + 32] == src[..32]
  {
  }

  lemma CopiedAfter(buf: Bytes, src: Bytes, at: nat, low: nat)
    requires low + 32 <= at <= |buf|
    ensures Copied(buf, src, at)[low..low + 32] == buf[low..low + 32]
  {
  }

  /** Each field is decoded to the first 32 bytes that its text was parsed to. */
  lemma FieldsApart(i: Inputs, k: nat)
    requires i.Valid() && i.InRange() && k < 4 && |ToBytes32(i.fields[k])| >= 32
    ensures Field(Encoded(i), k) == ToBytes32(i.fields[k])[..32]
  {
    hide ToBytes32, U32Bytes, Copied;
    var b0 := Copied(seq(LENGTH, _ => 0), ToBytes32(i.fields[0]), 0);
    var b1 := Copied(b0, ToBytes32(i.fields[1]), 32);
    var b2 := Copied(b1, ToBytes32(i.fields[2]), 64);
    var b3 := Copied(b2, ToBytes32(i.fields[3]), 96);
    var b4 := Copied(b3, U32Bytes(i.minVintageYear), 128);
    CopiedAfter(b4, U32Bytes(i.minPermanence), 132, 32 * k);
    CopiedAfter(b3, U32Bytes(i.minVintageYear), 128, 32 * k);
    if k < 3 { CopiedAfter(b2, ToBytes32(i.fields[3]), 96, 32 * k); } else { CopiedWithin(b2, ToBytes32(i.fields[3]), 96); }
    if k < 2 { CopiedAfter(b1, ToBytes32(i.fields[2]), 64, 32 * k); } else if k == 2 { CopiedWithin(b1, ToBytes32(i.fields[2]), 64); }
    if k == 0 { CopiedAfter(b0, ToBytes32(i.fields[1]), 32, 0); } else if k == 1 { CopiedWithin(b0, ToBytes32(i.fields[1]), 32); }
    if k == 0 { CopiedWithin(seq(LENGTH, _ => 0), ToBytes32(i.fields[0]), 0); }
  }

  /** The leading 64 of more than 64 digits have the value of them all only if that is zero. */
  lemma LeadingValue(s: string)
    requires IsHex(s) && |s| > 64
    ensures Value(s[..64]) == Value(s) <==> Value(s) == 0
  {
    var a, b := s[..64], s[64..];
    assert a + b == s;
    ValueConcat(a, b);
    assert Pow16(|b|) >= 16 by { assert Pow16(|b|) == 16 * Pow16(|b| - 1); }
    hide Value, Pow16;
    NotScaled(Value(a), Pow16(|b|), Value(b));
  }

  lemma NotScaled(a: nat, p: nat, r: nat)
    requires p >= 2
    ensures a == a * p + r <==> a * p + r == 0
  {
    if a > 0 {
      assert a * p >= a * 2;
    }
  }

  /**
  The round trip of a hexadecimal field, whatever the other fields are: the contract decodes
  its value exactly when it has at most 64 digits or is zero.
   */
  lemma FieldRoundTrip(i: Inputs, k: nat)
    requires i.Valid() && i.InRange() && k < 4 && IsHex(WithoutPrefix(i.fields[k]))
    ensures var digits := WithoutPrefix(i.fields[k]);
            BytesValue(Field(Encoded(i), k)) == Value(digits) <==> |digits| <= 64 || Value(digits) == 0
  {
    hide Encoded, Parse;
    var digits := WithoutPrefix(i.fields[k]);
    ToBytes32Value(i.fields[k]);
    FieldsApart(i, k);
    PadStartValue(digits, 64);
    if |digits| <= 64 {
      assert PadStart(digits, 64)[..64] == PadStart(digits, 64);
    } else {
      LeadingValue(digits);
    }
  }

  /** The two numbers always come back. */
  lemma NumbersRoundTrip(i: Inputs)
    requires i.Valid() && i.InRange()
    ensures ReadU32(Encoded(i), 128) == i.minVintageYear
    ensures ReadU32(Encoded(i), 132) == i.minPermanence
  {
    hide ToBytes32, ReadU32;
    ReadU32Value(Encoded(i), 128);
    ReadU32Value(Encoded(i), 132);
    U32BytesValue(i.minVintageYear);
    U32BytesValue(i.minPermanence);
    var e := Encoded(i);
    assert e[128..132] == U32Bytes(i.minVintageYear) && e[132..136] == U32Bytes(i.minPermanence);
    assert forall j | 0 <= j < 4 :: e[128 + j] == e[128..132][j] && e[132 + j] == e[132..136][j];
  }

  lemma U32BytesValue(n: nat)
    requires n < U32
    ensures var b := U32Bytes(n);
            0x100_0000 * b[0] as int + 0x1_0000 * b[1] as int + 0x100 * b[2] as int + b[3] as int == n
  {
    var q := n / 0x100;
    assert n / 0x1_0000 == q / 0x100 && n / 0x100_0000 == q / 0x1_0000 == q / 0x100 / 0x100;
  }

  /** A text as the services write it, of a reduced number, always comes back. */
  lemma WrittenRoundTrip(i: Inputs, k: nat, n: nat)
    requires i.Valid() && i.InRange() && k < 4 && i.fields[k] == ToHex(n) && n < Pow16(64)
    ensures BytesValue(Field(Encoded(i), k)) == n
  {
    hide Encoded;
    ToHexLength(n);
    PadStartValue(Digits(n), 64);
    assert ToHex(n)[..2] == "0x" && WithoutPrefix(ToHex(n)) == PadStart(Digits(n), 64);
    FieldRoundTrip(i, k);
  }
}
