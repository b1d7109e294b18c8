/** Host-side encoding of the evaluator's integers: `getBin`, which writes a
    host int as a 16-entry MSB-first two's-complement bit array, and
    `getCtxt`, which lays such an array (or a mask, or an empty vector)
    into the slots of a ciphertext. */
module Encoder {
  import opened Bits
  import opened Slots

  /** Range of the host's 32-bit `int`. */
  const IntMin: int := -0x8000_0000
  const IntMax: int := 0x7FFF_FFFF

  function Abs(x: int): nat {
    if x < 0 then -x else x
  }

  /** The 16-bit two's-complement pattern of x, MSB first (reference for getBin). */
  function EncodeInt(x: int): (r: seq<int>)
    ensures |r| == Width && IsBits(r)
    ensures ValueMsb(r) == x % Modulus
  {
    ToBitsMsbIsBits(x, Width);
    ToBitsMsbValue(x, Width);
    Pow2Width();
    ToBitsMsb(x, Width)
  }

  /** Signed reading of a 16-entry MSB-first array: entry 0 is the sign bit. */
  function SignedValue(bin: seq<int>): int
    requires |bin| == Width
  {
    var u := ValueMsb(bin);
    if u >= HalfModulus then u - Modulus else u
  }

  /** Non-negative inputs below 2^16 are written as their binary digits,
      negative ones from -2^15 as x + 2^16. */
  lemma EncodeUnsigned(x: int)
    ensures 0 <= x < Modulus ==> ValueMsb(EncodeInt(x)) == x
    ensures -HalfModulus <= x < 0 ==> ValueMsb(EncodeInt(x)) == x + Modulus
  {
    if 0 <= x < Modulus {
      DivModUnique(x, Modulus, 0, x);
    } else if -HalfModulus <= x < 0 {
      DivModUnique(x, Modulus, -1, x + Modulus);
    }
  }

  /** decode(encode(x)) == x on the signed 16-bit range. */
  lemma EncodeRoundTrip(x: int)
    requires -HalfModulus <= x < HalfModulus
    ensures SignedValue(EncodeInt(x)) == x
  {
    EncodeUnsigned(x);
  }

  /** encode(decode(b)) == b for every 16-entry bit array. */
  lemma DecodeRoundTrip(bin: seq<int>)
    requires |bin| == Width && IsBits(bin)
    ensures -HalfModulus <= SignedValue(bin) < HalfModulus
    ensures EncodeInt(SignedValue(bin)) == bin
  {
    ValueMsbBounds(bin);
    Pow2Width();
    EncodeUnsigned(SignedValue(bin));
    BitsDeterminedByValue(EncodeInt(SignedValue(bin)), bin);
  }

  /** getBin: for negative x the digits of |x| are written and then negated
      in two's complement; the result is the 16-bit pattern of x. */
  method GetBin(x: int) returns (bin: seq<int>)
    requires IntMin < x <= IntMax
    ensures bin == EncodeInt(x)
    ensures bin[Width - 1] == Abs(x) % 2
    ensures -HalfModulus <= x < HalfModulus ==> SignedValue(bin) == x
  {
    var flag := 0;
    var v := x;
    if v < 0 {
      flag := 1;
      v := v * -1;
    }
    bin := BinaryDigits(v);
    assert bin[Width - 1] == Abs(x) % 2;
    if flag == 1 {
      assert ValueMsb(bin) == (-x) % Modulus;
      bin := NegateDigits(bin);
      NegatedDigitsEncode(x, bin);
    } else {
      assert v == x;
    }
    assert bin == EncodeInt(x);
    if -HalfModulus <= x < HalfModulus {
      EncodeRoundTrip(x);
    }
  }

  /** The digits of -x, negated modulo 2^16, are the encoding of x. */
  lemma NegatedDigitsEncode(x: int, bin: seq<int>)
    requires |bin| == Width && IsBits(bin)
    requires ValueMsb(bin) == (-((-x) % Modulus)) % Modulus
    ensures bin == EncodeInt(x)
  {
    ModNegate(-x, Modulus);
    assert -(-x) == x;
    BitsDeterminedByValue(bin, EncodeInt(x));
  }

  /** The first loop of getBin: bin[i] = v % 2, v /= 2 for i from 15 down to
      0, so bin ends up holding the 16 low binary digits of v. */
  method BinaryDigits(v: int) returns (bin: seq<int>)
    requires v >= 0
    ensures bin == EncodeInt(v)
    ensures bin[Width - 1] == v % 2
  {
    var x := v;
    bin := seq(Width, _ => 0);
    var i := 15;
    ghost var p := 1;
    while i >= 0
      invariant -1 <= i <= 15
      invariant |bin| == Width && x >= 0
      invariant IsBits(bin[i + 1..])
      invariant p == Pow2(15 - i)
      invariant v == x * p + ValueMsb(bin[i + 1..])
      invariant i < 15 ==> bin[15] == v % 2
    {
      var oldSuffix := bin[i + 1..];
      var b := x % 2;
      bin := bin[i := b];
      assert bin[i..] == [b] + oldSuffix;
      ValueMsbCons(b, oldSuffix);
      DigitStep(x, 15 - i);
      x := x / 2;
      p := 2 * p;
      i := i - 1;
    }
    assert bin[i + 1..] == bin;
    DigitsAreResidue(v, x, p, bin);
    BitsDeterminedByValue(bin, EncodeInt(v));
  }

  /** The negative branch of getBin: bin[15] stays, the carry starts at 1
      exactly when bin[15] is 0, and bin[14..0] are complemented with that
      carry added, a 2 folding to 0 with a carry into the next position up.
      The result is the two's-complement negation of the input digits. */
  method NegateDigits(digits: seq<int>) returns (bin: seq<int>)
    requires |digits| == Width && IsBits(digits)
    ensures |bin| == Width && IsBits(bin)
    ensures bin[Width - 1] == digits[Width - 1]
    ensures ValueMsb(bin) == (-ValueMsb(digits)) % Modulus
  {
    bin := digits;
    var carry := 0;
    if bin[15] == 0 {
      carry := 1;
    }
    var i := 14;
    assert bin[15..] == [bin[15]];
    assert NegationInvariant(digits, bin, i, carry);
    while i >= 0
      invariant -1 <= i <= 14
      invariant NegationInvariant(digits, bin, i, carry)
    {
      var o, c := bin[i], carry;
      bin := bin[i := (1 - bin[i]) + carry];
      carry := 0;
      if bin[i] > 1 {
        bin := bin[i := 0];
        carry := 1;
      }
      NegationStep(digits, bin, i, o, c, carry);
      i := i - 1;
    }
    NegationIsResidue(digits, bin, carry);
  }

  /** The state of the negation loop before position i: positions 0..i
      still hold the input digits, bin[15] is kept, and the rewritten
      suffix together with the pending carry equals the suffix's weight
      minus the input suffix. */
  ghost predicate NegationInvariant(digits: seq<int>, bin: seq<int>, i: int, carry: int)
    requires |digits| == Width && -1 <= i <= 14
  {
    && |bin| == Width
    && bin[..i + 1] == digits[..i + 1]
    && bin[15] == digits[15]
    && IsBits(bin[i + 1..]) && IsBit(carry)
    && ValueMsb(bin[i + 1..]) + (if carry == 1 then Pow2(15 - i) else 0) == Pow2(15 - i) - ValueMsb(digits[i + 1..])
  }

  /** One pass of the negation loop at position i keeps its invariant. */
  lemma NegationStep(digits: seq<int>, bin: seq<int>, i: int, o: int, c: int, carry: int)
    requires |digits| == Width && IsBits(digits) && 0 <= i <= 14
    requires |bin| == Width && IsBit(carry) && IsBit(bin[i])
    requires bin[i] + 2 * carry == 1 - o + c
    requires NegationInvariant(digits, bin[i := o], i, c)
    ensures NegationInvariant(digits, bin, i - 1, carry)
  {
    var before := bin[i := o];
    var suffix := before[i + 1..];
    assert o == digits[i] by {
      assert before[..i + 1][i] == digits[..i + 1][i];
    }
    NegatePosition(suffix, digits[i + 1..], o, c, bin[i], carry, Pow2(15 - i));
    assert bin[i..] == [bin[i]] + suffix;
    assert digits[i..] == [o] + digits[i + 1..];
    assert bin[..i] == before[..i];
  }

  /** After the digit loop: the 16 digits written are v modulo 2^16. */
  /** After the digit loop: the 16 digits written are v modulo 2^16. */
  lemma DigitsAreResidue(v: int, x: int, p: int, bin: seq<int>)
    requires |bin| == Width && IsBits(bin)
    requires p == Pow2(Width) && v == x * p + ValueMsb(bin)
    ensures ValueMsb(bin) == v % Modulus
  {
    ValueMsbBounds(bin);
    Pow2Width();
    DivModUnique(v, Modulus, x, ValueMsb(bin));
  }

  /** After the negation loop: the digits plus the carry out make 2^16
      minus the input, so the digits are the negated input modulo 2^16. */
  lemma NegationIsResidue(digits: seq<int>, bin: seq<int>, carry: int)
    requires |digits| == Width && IsBits(digits)
    requires NegationInvariant(digits, bin, -1, carry)
    ensures |bin| == Width && IsBits(bin)
    ensures bin[Width - 1] == digits[Width - 1]
    ensures ValueMsb(bin) == (-ValueMsb(digits)) % Modulus
  {
    assert bin[0..] == bin && digits[0..] == digits;
    ValueMsbBounds(bin);
    Pow2Width();
    DivModUnique(-ValueMsb(digits), Modulus, carry - 1, ValueMsb(bin));
  }

  /** Splitting off the lowest digit of x at weight 2^k. */
  lemma DigitStep(x: int, k: nat)
    ensures x * Pow2(k) == (x / 2) * Pow2(k + 1) + (x % 2) * Pow2(k)
  {
    var h, b, p := x / 2, x % 2, Pow2(k);
    assert x == 2 * h + b;
    assert x * p == (2 * h + b) * p;
    assert (2 * h + b) * p == h * (2 * p) + b * p;
  }

  /** One position of the negation loop: complementing digit o and adding
      carry c gives digit b and carry-out carry, which keeps the suffix plus
      its carry equal to the weight minus the digits' suffix. */
  lemma NegatePosition(suffix: seq<int>, digits: seq<int>, o: int, c: int, b: int, carry: int, p: int)
    requires IsBits(suffix) && |suffix| == |digits| && p == Pow2(|suffix|)
    requires IsBit(o) && IsBit(c) && IsBit(b) && IsBit(carry)
    requires b + 2 * carry == 1 - o + c
    requires ValueMsb(suffix) + (if c == 1 then p else 0) == p - ValueMsb(digits)
    ensures IsBits([b] + suffix)
    ensures 2 * p == Pow2(|suffix| + 1)
    ensures ValueMsb([b] + suffix) + (if carry == 1 then 2 * p else 0) == 2 * p - ValueMsb([o] + digits)
  {
    ValueMsbConsBit(b, suffix);
    ValueMsbConsBit(o, digits);
  }

  /** Negating a residue is negating the number. */
  lemma ModNegate(a: int, m: int)
    requires m > 0
    ensures (-(a % m)) % m == (-a) % m
  {
    var q, r := a / m, a % m;
    var p, t := (-r) / m, (-r) % m;
    assert -a == (p - q) * m + t;
    DivModUnique(-a, m, p - q, t);
  }

  // ---------------------------------------------------------------------
  // getCtxt: encrypted-integer slot layout
  // ---------------------------------------------------------------------

  /** Unsigned value of the 16-slot window, slot 0 most significant. */
  function Window(v: seq<int>): int
    requires |v| >= Width
  {
    ValueMsb(v[..Width])
  }

  /** Signed value of the 16-slot window. */
  function SignedWindow(v: seq<int>): int
    requires |v| >= Width
  {
    SignedValue(v[..Width])
  }

  /** An encrypted integer: its bits in slots 0..15, every other slot 0. */
  predicate IsEncryptedInt(v: SlotVector) {
    |v| >= Width && forall i :: Width <= i < |v| ==> v[i] == 0
  }

  /** getCtxt: kind 0 is the slot-0 mask, kinds 1 and 2 the empty carry and
      sum, any other kind the getBin encoding of val in slots 0..15. */
  function GetCtxt(kind: int, val: int, slots: nat): (r: SlotVector)
    requires slots >= Width
    ensures |r| == slots
    ensures kind == 0 ==> forall i :: 0 <= i < slots ==> r[i] == (if i == 0 then 1 else 0)
    ensures (kind == 1 || kind == 2) ==> forall i :: 0 <= i < slots ==> r[i] == 0
    ensures kind !in {0, 1, 2} ==> IsEncryptedInt(r) && r[..Width] == EncodeInt(val)
  {
    if kind == 0 then
      OneHot(slots, 0)
    else if kind == 1 || kind == 2 then
      Zeros(slots)
    else
      var bin := EncodeInt(val);
      var r: SlotVector := seq(slots, i requires 0 <= i < slots => if i < Width then Reduce(bin[i]) else 0);
      assert r[..Width] == bin;
      r
  }

  /** An encrypted integer built by getCtxt holds val modulo 2^16 in its
      window and, for a 16-bit val, decodes back to val. */
  lemma GetCtxtWindow(val: int, slots: nat)
    requires slots >= Width
    ensures Window(GetCtxt(3, val, slots)) == val % Modulus
    ensures -HalfModulus <= val < HalfModulus ==> SignedWindow(GetCtxt(3, val, slots)) == val
  {
    if -HalfModulus <= val < HalfModulus {
      EncodeRoundTrip(val);
    }
  }

  /** The encrypted integer of 0 is the all-zero vector. */
  lemma EncodedZero(slots: nat)
    requires slots >= Width
    ensures GetCtxt(3, 0, slots) == Zeros(slots)
  {
    ToBitsMsbOfZero(Width);
  }

  /** getCtxtList: the three values as encrypted integers. */
  function GetCtxtList(vals: seq<int>, slots: nat): (r: seq<SlotVector>)
    requires |vals| == 3 && slots >= Width
    ensures |r| == 3
    ensures forall k :: 0 <= k < 3 ==> |r[k]| == slots && IsEncryptedInt(r[k]) && Window(r[k]) == vals[k] % Modulus
  {
    seq(3, k requires 0 <= k < 3 => GetCtxt(3, vals[k], slots))
  }
}
