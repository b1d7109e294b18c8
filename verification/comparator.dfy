/** The secure comparator `compareCtxt`: sixteen rounds of slot-wise
    half-adding, each moving the carry vector one slot towards slot 0,
    followed by masking slot 0 and broadcasting it with `totalSums`.
    Over Z_2 the rounds are a ripple-carry adder on the 16-slot window,
    so the result is the sign bit of (x + y) mod 2^16. The evaluator stores
    its thresholds negated, which turns that sign bit into "x < t". */
module Comparator {
  import opened Bits
  import opened Slots
  import opened Encoder

  /** Slot count from which a carry leaving slot 0 (and so re-entering at
      slot S-1) cannot travel back into the window within 16 rounds. */
  const MinSlots: nat := 32

  /** One iteration of the round loop: sum = x + y, carry = rotate(x * y, -1). */
  function HalfAddRound(x: SlotVector, y: SlotVector): (r: (SlotVector, SlotVector))
    requires |x| == |y| > 0
    ensures |r.0| == |x| && |r.1| == |x|
  {
    (Add(x, y), Rotate(Mul(x, y), -1))
  }

  /** The top bit of n read as a 16-bit two's-complement number. */
  function SignBit(n: int): Zp
  {
    if n % Modulus >= HalfModulus then 1 else 0
  }

  /** a + b == (a xor b) + 2 (a and b), summed over positions. */
  lemma {:induction false} HalfAdderValue(a: SlotVector, b: SlotVector)
    requires |a| == |b|
    ensures ValueMsb(a) + ValueMsb(b) == ValueMsb(Add(a, b)) + 2 * ValueMsb(Mul(a, b))
  {
    var n := |a|;
    if n > 0 {
      var a', b' := a[..n - 1], b[..n - 1];
      var s, c := Add(a, b), Mul(a, b);
      assert s[..n - 1] == Add(a', b');
      assert c[..n - 1] == Mul(a', b');
      HalfAdderValue(a', b');
      assert a[n - 1] as int + b[n - 1] == s[n - 1] as int + 2 * (c[n - 1] as int) by {
        HalfAdderBit(a[n - 1], b[n - 1]);
      }
      assert ValueMsb(s) == 2 * ValueMsb(Add(a', b')) + s[n - 1];
      assert ValueMsb(c) == 2 * ValueMsb(Mul(a', b')) + c[n - 1];
    }
  }

  lemma HalfAdderBit(x: int, y: int)
    requires IsBit(x) && IsBit(y)
    ensures x + y == Reduce(x + y) + 2 * Reduce(x * y)
  {
  }

  lemma ModShift(a: int, k: int)
    ensures (a + k * Modulus) % Modulus == a % Modulus
  {
    DivModUnique(a + k * Modulus, Modulus, a / Modulus + k, a % Modulus);
  }

  /** One round keeps the window sum modulo 2^16, provided nothing is carried
      into the window from slot 16. The carry out of slot 0 is what drops. */
  lemma RoundPreservesWindowSum(x: SlotVector, y: SlotVector)
    requires |x| == |y| > Width
    requires Mul(x, y)[Width] == 0
    ensures (Window(HalfAddRound(x, y).0) + Window(HalfAddRound(x, y).1)) % Modulus
         == (Window(x) + Window(y)) % Modulus
  {
    var m := Mul(x, y);
    var (x', y') := HalfAddRound(x, y);
    RotateLeftOne(m);
    assert x'[..Width] == Add(x[..Width], y[..Width]);
    assert m[..Width] == Mul(x[..Width], y[..Width]);
    HalfAdderValue(x[..Width], y[..Width]);
    // the carry window is the product window shifted one place up
    assert y'[..Width] == m[1..Width] + [m[Width]];
    assert m[1..Width] + [m[Width]] == m[1..Width] + [0];
    assert (m[1..Width] + [0])[..Width - 1] == m[1..Width];
    assert Window(y') == 2 * ValueMsb(m[1..Width]);
    ValueMsbFirst(m[..Width]);
    assert m[..Width][1..] == m[1..Width];
    Pow2Width();
    assert Window(x) + Window(y) == Window(x') + Window(y') + m[0] * Modulus;
    ModShift(Window(x') + Window(y'), m[0]);
  }

  /** compareCtxt: sixteen half-add rounds, then mask slot 0 and broadcast.
      Every slot of the result holds the sign bit of the 16-bit sum of the
      two encrypted integers. */
  method CompareCtxt(xCtxt: SlotVector, yCtxt: SlotVector) returns (r: SlotVector)
    requires |xCtxt| == |yCtxt| >= MinSlots
    requires IsEncryptedInt(xCtxt) && IsEncryptedInt(yCtxt)
    ensures |r| == |xCtxt|
    ensures IsBroadcast(r, SignBit(Window(xCtxt) + Window(yCtxt)))
  {
    var s := |xCtxt|;
    var mask := GetCtxt(0, 0, s);
    var carry := GetCtxt(1, 0, s);
    var sum := GetCtxt(2, 0, s);
    var x, y := xCtxt, yCtxt;
    var i := 0;
    while i < Width
      invariant 0 <= i <= Width
      invariant |x| == s && |y| == s
      invariant (Window(x) + Window(y)) % Modulus == (Window(xCtxt) + Window(yCtxt)) % Modulus
      invariant forall j :: Width <= j < s - i ==> x[j] == 0 && y[j] == 0
      invariant forall j :: Width - i <= j < Width ==> y[j] == 0
      invariant i > 0 ==> sum == x
    {
      RoundPreservesWindowSum(x, y);
      RotateLeftOne(Mul(x, y));
      sum := x;
      sum := Add(sum, y);
      carry := x;
      carry := Mul(carry, y);
      carry := Rotate(carry, -1);
      x := sum;
      y := carry;
      i := i + 1;
    }
    SumIsWindowResidue(x, y, Window(xCtxt) + Window(yCtxt));
    sum := Mul(sum, mask);
    MaskBroadcast(x);
    sum := TotalSums(sum);
    r := sum;
  }

  /** After the last round the carry window is empty, so the sum window is
      the 16-bit sum of the inputs, and its slot 0 is that sum's sign bit. */
  lemma SumIsWindowResidue(x: SlotVector, y: SlotVector, total: int)
    requires |x| >= Width && |y| >= Width
    requires forall j :: 0 <= j < Width ==> y[j] == 0
    requires (Window(x) + Window(y)) % Modulus == total % Modulus
    ensures Window(x) == total % Modulus
    ensures x[0] == SignBit(total)
  {
    ValueMsbZeros(y[..Width]);
    SlotsAreBits(x[..Width]);
    ValueMsbBounds(x[..Width]);
    Pow2Width();
    DivModUnique(Window(x), Modulus, 0, Window(x));
    TopBitIsHalf(x[..Width]);
  }

  /** With no 16-bit overflow the sign bit of a + b says whether a + b < 0. */
  lemma SignBitOfSum(a: int, b: int)
    requires -HalfModulus <= a + b < HalfModulus
    ensures SignBit(a % Modulus + b % Modulus) == (if a + b < 0 then 1 else 0)
  {
    ModAdd(a, b, Modulus);
    if a + b < 0 {
      DivModUnique(a + b, Modulus, -1, a + b + Modulus);
    } else {
      DivModUnique(a + b, Modulus, 0, a + b);
    }
  }

  /** Why the thresholds are stored negated: comparing an encrypted integer
      x against getCtxt(3, -t) yields 1 exactly when x < t, unless x - t
      leaves the signed 16-bit range. Equal values give 0. */
  lemma ThresholdDecision(input: SlotVector, t: int)
    requires |input| >= Width && IsEncryptedInt(input)
    requires -HalfModulus <= SignedWindow(input) - t < HalfModulus
    ensures SignBit(Window(input) + Window(GetCtxt(3, -t, |input|)))
         == (if SignedWindow(input) < t then 1 else 0)
  {
    var bin := input[..Width];
    var x := SignedWindow(input);
    assert Window(input) == x % Modulus by {
      SlotsAreBits(bin);
      DecodeRoundTrip(bin);
    }
    assert Window(GetCtxt(3, -t, |input|)) == (-t) % Modulus by {
      GetCtxtWindow(-t, |input|);
    }
    SignBitOfSum(x, -t);
  }
}
