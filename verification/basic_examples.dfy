/** The slot-vector builders of the packed-arithmetic demos: writing the
    bits of a number LSB first, packing three numbers into three adjacent
    16-slot windows, and filling a plaintext with 0, 1, 2, ... */
module BasicExamples {
  import opened Bits
  import opened Encoder

  /** Slots after the three packed windows. */
  const PackedSlots: nat := 3 * Width

  /** fill_plaintext_with_bits: slot i := (data >> i) & 1 for i in 0..15.
      The low 16 bits land LSB first, the reverse of getBin's order, and the
      other slots are not touched. */
  method FillPlaintextWithBits(plaintext: seq<int>, data: int) returns (r: seq<int>)
    requires |plaintext| >= Width
    ensures |r| == |plaintext|
    ensures forall i :: 0 <= i < Width ==> r[i] == BitOf(data, i)
    ensures r[Width..] == plaintext[Width..]
    ensures r[..Width] == Reverse(EncodeInt(data))
    ensures IsBits(r[..Width]) && ValueLsb(r[..Width]) == data % Modulus
    ensures 0 <= data < Modulus ==> ValueLsb(r[..Width]) == data
  {
    r := plaintext;
    var i := 0;
    while i < Width
      invariant 0 <= i <= Width && |r| == |plaintext|
      invariant forall j :: 0 <= j < i ==> r[j] == BitOf(data, j)
      invariant forall j :: i <= j < |r| ==> r[j] == plaintext[j]
    {
      r := r[i := BitOf(data, i)];
      i := i + 1;
    }
    assert r[Width..] == plaintext[Width..];
    WrittenBitsAreLsbEncoding(r, data);
    if 0 <= data < Modulus {
      DivModUnique(data, Modulus, 0, data);
    }
  }

  /** Sixteen slots holding bits 0..15 of data are its LSB-first encoding,
      that is getBin's pattern reversed, and they sum back to data mod 2^16. */
  lemma WrittenBitsAreLsbEncoding(r: seq<int>, data: int)
    requires |r| >= Width
    requires forall j :: 0 <= j < Width ==> r[j] == BitOf(data, j)
    ensures r[..Width] == ToBitsLsb(data, Width)
    ensures r[..Width] == Reverse(EncodeInt(data))
    ensures IsBits(r[..Width]) && ValueLsb(r[..Width]) == data % Modulus
  {
    WindowIsLsb(r, 0, data);
    assert r[0..Width] == r[..Width];
    LsbIsReversedMsb(data, Width);
    ToBitsLsbValue(data, Width);
    Pow2Width();
  }

  /** The packing loop of the packed binary demo: one pass over the nslots
      zero-initialised slots with a counter i that stops at 48. Slots 0..15
      get the bits of a, 16..31 those of b, 32..47 those of c (LSB first,
      bit index i % 16), and every later slot 0. */
  method PackThreeWindows(a: int, b: int, c: int, nslots: nat) returns (r: seq<int>)
    ensures |r| == nslots
    ensures forall j :: 0 <= j < nslots ==> r[j] == PackedSlot(a, b, c, j)
    ensures forall j :: PackedSlots <= j < nslots ==> r[j] == 0
    ensures nslots >= PackedSlots ==>
      && r[..Width] == ToBitsLsb(a, Width)
      && r[Width..2 * Width] == ToBitsLsb(b, Width)
      && r[2 * Width..PackedSlots] == ToBitsLsb(c, Width)
  {
    r := [];
    var i := 0;
    var j := 0;
    while j < nslots
      invariant 0 <= j <= nslots && |r| == j
      invariant i == if j < PackedSlots then j else PackedSlots
      invariant forall k :: 0 <= k < j ==> r[k] == PackedSlot(a, b, c, k)
    {
      var slot;
      if i < Width {
        slot := BitOf(a, i);
        i := i + 1;
      } else if i >= Width && i < Width * 2 {
        slot := BitOf(b, i % Width);
        i := i + 1;
      } else if i >= Width * 2 && i < Width * 3 {
        slot := BitOf(c, i % Width);
        i := i + 1;
      } else {
        slot := 0;
      }
      assert slot == PackedSlot(a, b, c, j) by {
        if Width <= j < PackedSlots {
          WindowOffset(j);
        }
      }
      r := r + [slot];
      j := j + 1;
    }
    if nslots >= PackedSlots {
      PackedWindows(r, a, b, c);
    }
  }

  /** Slot j of the packed layout. */
  function PackedSlot(a: int, b: int, c: int, j: nat): int
  {
    if j < Width then BitOf(a, j)
    else if j < 2 * Width then BitOf(b, j - Width)
    else if j < PackedSlots then BitOf(c, j - 2 * Width)
    else 0
  }

  lemma WindowOffset(j: int)
    requires Width <= j < PackedSlots
    ensures j < 2 * Width ==> j % Width == j - Width
    ensures 2 * Width <= j ==> j % Width == j - 2 * Width
  {
    if j < 2 * Width {
      DivModUnique(j, Width, 1, j - Width);
    } else {
      DivModUnique(j, Width, 2, j - 2 * Width);
    }
  }

  /** A vector in the packed layout holds each value's LSB-first encoding in
      its own window. */
  lemma PackedWindows(r: seq<int>, a: int, b: int, c: int)
    requires |r| >= PackedSlots
    requires forall j :: 0 <= j < |r| ==> r[j] == PackedSlot(a, b, c, j)
    ensures r[..Width] == ToBitsLsb(a, Width)
    ensures r[Width..2 * Width] == ToBitsLsb(b, Width)
    ensures r[2 * Width..PackedSlots] == ToBitsLsb(c, Width)
  {
    PackedWindow(r, a, b, c, 0, a);
    assert r[0..Width] == r[..Width];
    PackedWindow(r, a, b, c, Width, b);
    PackedWindow(r, a, b, c, 2 * Width, c);
  }

  /** One window of the packed layout, starting at slot start. */
  lemma PackedWindow(r: seq<int>, a: int, b: int, c: int, start: nat, n: int)
    requires |r| >= PackedSlots
    requires forall j :: 0 <= j < |r| ==> r[j] == PackedSlot(a, b, c, j)
    requires (start == 0 && n == a) || (start == Width && n == b) || (start == 2 * Width && n == c)
    ensures r[start..start + Width] == ToBitsLsb(n, Width)
  {
    forall j | 0 <= j < Width
      ensures r[start + j] == BitOf(n, j)
    {
      assert r[start + j] == PackedSlot(a, b, c, start + j);
    }
    WindowIsLsb(r, start, n);
  }

  /** Sixteen slots from start holding bits 0..15 of n are n's LSB-first encoding. */
  lemma WindowIsLsb(r: seq<int>, start: nat, n: int)
    requires start + Width <= |r|
    requires forall j :: 0 <= j < Width ==> r[start + j] == BitOf(n, j)
    ensures r[start..start + Width] == ToBitsLsb(n, Width)
  {
    forall j | 0 <= j < Width
      ensures r[start..start + Width][j] == ToBitsLsb(n, Width)[j]
    {
      ToBitsLsbAt(n, Width, j);
    }
  }

  /** The windows do not interfere: each 16-bit value is read back from its
      own window whatever the other two values are. */
  lemma PackedWindowsIndependent(r: seq<int>, a: int, b: int, c: int)
    requires |r| >= PackedSlots
    requires forall j :: 0 <= j < |r| ==> r[j] == PackedSlot(a, b, c, j)
    requires 0 <= a < Modulus && 0 <= b < Modulus && 0 <= c < Modulus
    ensures ValueLsb(r[..Width]) == a
    ensures ValueLsb(r[Width..2 * Width]) == b
    ensures ValueLsb(r[2 * Width..PackedSlots]) == c
  {
    PackedWindows(r, a, b, c);
    ToBitsLsbValue(a, Width);
    ToBitsLsbValue(b, Width);
    ToBitsLsbValue(c, Width);
    Pow2Width();
    DivModUnique(a, Modulus, 0, a);
    DivModUnique(b, Modulus, 0, b);
    DivModUnique(c, Modulus, 0, c);
  }

  /** plaintext with entries 0..count-1 replaced by their own index. */
  function Numbered(plaintext: seq<int>, count: int): (r: seq<int>)
    ensures |r| == |plaintext|
    ensures forall i :: 0 <= i < |r| ==> r[i] == if i < count then i else plaintext[i]
  {
    seq(|plaintext|, i requires 0 <= i < |plaintext| => if i < count then i else plaintext[i])
  }

  /** Numbering is idempotent, and a longer numbering absorbs a shorter one. */
  lemma NumberedAbsorbs(plaintext: seq<int>, m: int, n: int)
    requires m <= n
    ensures Numbered(Numbered(plaintext, m), n) == Numbered(plaintext, n)
    ensures Numbered(Numbered(plaintext, n), m) == Numbered(plaintext, n)
  {
  }

  /** fill_plaintext_with_numbers as written: the forward loop writes
      plaintext[i] = i for 0 <= i <= maxValue, the reverse loop only for
      0 <= i < maxValue. The caller must supply enough slots for the writes. */
  method FillPlaintextWithNumbers(plaintext: seq<int>, maxValue: int, reverse: bool) returns (r: seq<int>)
    requires if reverse then maxValue <= |plaintext| else maxValue < |plaintext|
    ensures !reverse ==> r == Numbered(plaintext, maxValue + 1)
    ensures reverse ==> r == Numbered(plaintext, maxValue)
  {
    r := plaintext;
    if !reverse {
      var i := 0;
      while i <= maxValue
        invariant 0 <= i <= if maxValue >= 0 then maxValue + 1 else 0
        invariant |r| == |plaintext|
        invariant r == Numbered(plaintext, i)
      {
        r := r[i := i];
        i := i + 1;
      }
      if maxValue < 0 {
        forall k | 0 <= k < |r|
          ensures r[k] == Numbered(plaintext, maxValue + 1)[k]
        {
        }
      }
    } else {
      r := NumberDownFrom(plaintext, maxValue - 1);
    }
  }

  /** Corrected fill_plaintext_with_numbers: the reverse loop starts at
      maxValue, so both directions fill 0..maxValue. */
  method FillPlaintextWithNumbersCorrected(plaintext: seq<int>, maxValue: int, reverse: bool) returns (r: seq<int>)
    requires maxValue < |plaintext|
    ensures r == Numbered(plaintext, maxValue + 1)
  {
    if !reverse {
      r := FillPlaintextWithNumbers(plaintext, maxValue, false);
    } else {
      r := NumberDownFrom(plaintext, maxValue);
    }
  }

  /** The reverse loop: plaintext[i] = i for i from top down to 0. */
  method NumberDownFrom(plaintext: seq<int>, top: int) returns (r: seq<int>)
    requires top < |plaintext|
    ensures r == Numbered(plaintext, top + 1)
  {
    r := plaintext;
    var i := top;
    while i >= 0
      invariant -1 <= i || i == top
      invariant i <= top && |r| == |plaintext|
      invariant forall k :: 0 <= k < |r| ==> r[k] == if i < k <= top then k else plaintext[k]
    {
      r := r[i := i];
      i := i - 1;
    }
  }

  /** The two directions of the source differ exactly at entry maxValue:
      the reverse mode leaves it as it was. */
  lemma ReverseModeSkipsLastEntry(plaintext: seq<int>, maxValue: int)
    requires 0 <= maxValue < |plaintext|
    ensures Numbered(plaintext, maxValue)[maxValue] == plaintext[maxValue]
    ensures Numbered(plaintext, maxValue + 1)[maxValue] == maxValue
    ensures plaintext[maxValue] != maxValue ==> Numbered(plaintext, maxValue) != Numbered(plaintext, maxValue + 1)
  {
  }

  /** The demo's call fill_plaintext_with_numbers(vec, 5) on a zeroed
      vector writes 0..5; in reverse mode slot 5 would stay 0. */
  lemma ReverseModeCounterexample()
    ensures Numbered(seq(8, _ => 0), 6) == [0, 1, 2, 3, 4, 5, 0, 0]
    ensures Numbered(seq(8, _ => 0), 5) == [0, 1, 2, 3, 4, 0, 0, 0]
  {
    var z: seq<int> := seq(8, _ => 0);
    assert Numbered(z, 6) == [0, 1, 2, 3, 4, 5, 0, 0];
    assert Numbered(z, 5) == [0, 1, 2, 3, 4, 0, 0, 0];
  }
}
