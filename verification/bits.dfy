/** Fixed-width bit arrays as the tree evaluator uses them: their unsigned
    values in both bit orders, the encoders those values invert, and the
    small division facts the proofs about them rest on. */
module Bits {

  /** Width of every encrypted integer (BIT_SIZE, bitLength). */
  const Width: nat := 16
  /** 2^Width: the ring the comparator's ripple-carry adder works in. */
  const Modulus: int := 0x1_0000
  /** 2^(Width-1): weight of the sign bit. */
  const HalfModulus: int := 0x8000

  function Pow2(n: nat): (r: int)
    ensures r > 0
  {
    if n == 0 then 1 else 2 * Pow2(n - 1)
  }

  lemma Pow2Width()
    ensures Pow2(Width) == Modulus
    ensures Pow2(Width - 1) == HalfModulus
  {
    assert Pow2(4) == 16 by {
      assert Pow2(1) == 2;
      assert Pow2(2) == 4;
      assert Pow2(3) == 8;
    }
    assert Pow2(8) == 256 by {
      assert Pow2(5) == 32;
      assert Pow2(6) == 64;
      assert Pow2(7) == 128;
    }
    assert Pow2(12) == 4096 by {
      assert Pow2(9) == 512;
      assert Pow2(10) == 1024;
      assert Pow2(11) == 2048;
    }
    assert Pow2(13) == 8192;
    assert Pow2(14) == 16384;
    assert Pow2(15) == 32768;
  }

  predicate IsBit(b: int) {
    b == 0 || b == 1
  }

  predicate IsBits(s: seq<int>) {
    forall i :: 0 <= i < |s| ==> IsBit(s[i])
  }

  /** Unsigned value of an MSB-first array: s[0] weighs 2^(|s|-1), the last entry 1. */
  function ValueMsb(s: seq<int>): int
  {
    if |s| == 0 then 0 else 2 * ValueMsb(s[..|s| - 1]) + s[|s| - 1]
  }

  /** Unsigned value of an LSB-first array: s[0] weighs 1. */
  function ValueLsb(s: seq<int>): int
  {
    if |s| == 0 then 0 else s[0] + 2 * ValueLsb(s[1..])
  }

  /** The w low bits of n, MSB first. Division is Euclidean, so a negative n
      yields its two's-complement pattern. */
  function ToBitsMsb(n: int, w: nat): (r: seq<int>)
    ensures |r| == w
    decreases w
  {
    if w == 0 then [] else ToBitsMsb(n / 2, w - 1) + [n % 2]
  }

  /** The w low bits of n, LSB first. */
  function ToBitsLsb(n: int, w: nat): (r: seq<int>)
    ensures |r| == w
    decreases w
  {
    if w == 0 then [] else [n % 2] + ToBitsLsb(n / 2, w - 1)
  }

  /** (n >> i) & 1 on a two's-complement host integer (arithmetic shift). */
  function BitOf(n: int, i: nat): int
  {
    (n / Pow2(i)) % 2
  }

  function Reverse(s: seq<int>): (r: seq<int>)
    ensures |r| == |s|
    ensures forall i :: 0 <= i < |s| ==> r[i] == s[|s| - 1 - i]
  {
    if |s| == 0 then [] else Reverse(s[1..]) + [s[0]]
  }

  // ---------------------------------------------------------------------
  // Division facts
  // ---------------------------------------------------------------------

  /** Quotient and remainder are determined by a == q * m + r, 0 <= r < m. */
  lemma DivModUnique(a: int, m: int, q: int, r: int)
    requires m > 0 && 0 <= r < m
    requires a == q * m + r
    ensures a / m == q && a % m == r
  {
    var q0, r0 := a / m, a % m;
    var d := q0 - q;
    assert d * m == r - r0 by {
      assert q0 * m - q * m == (q0 - q) * m;
    }
    if d > 0 {
      MulAtLeast(d, m);
    } else if d < 0 {
      MulAtLeast(-d, m);
    }
  }

  lemma MulAtLeast(d: int, m: int)
    requires d >= 1 && m > 0
    ensures d * m >= m
  {
  }

  lemma ModDouble(n: int, m: int)
    requires m > 0
    ensures n % (2 * m) == 2 * ((n / 2) % m) + n % 2
  {
    var h, b := n / 2, n % 2;
    var q, r := h / m, h % m;
    assert n == 2 * h + b;
    assert h == q * m + r;
    assert n == q * (2 * m) + (2 * r + b);
    DivModUnique(n, 2 * m, q, 2 * r + b);
  }

  lemma DivHalf(n: int, i: nat)
    ensures (n / 2) / Pow2(i) == n / Pow2(i + 1)
  {
    var m := Pow2(i);
    var h, b := n / 2, n % 2;
    var q, r := h / m, h % m;
    assert n == 2 * h + b;
    assert h == q * m + r;
    assert n == q * (2 * m) + (2 * r + b);
    DivModUnique(n, 2 * m, q, 2 * r + b);
  }

  lemma ModAdd(a: int, b: int, m: int)
    requires m > 0
    ensures (a % m + b % m) % m == (a + b) % m
  {
    var qa, ra := a / m, a % m;
    var qb, rb := b / m, b % m;
    var s := ra + rb;
    assert a + b == (qa + qb) * m + s;
    if s < m {
      DivModUnique(a + b, m, qa + qb, s);
      DivModUnique(s, m, 0, s);
    } else {
      DivModUnique(a + b, m, qa + qb + 1, s - m);
      DivModUnique(s, m, 1, s - m);
    }
  }

  // ---------------------------------------------------------------------
  // Valuations
  // ---------------------------------------------------------------------

  lemma {:induction false} ValueMsbBounds(s: seq<int>)
    requires IsBits(s)
    ensures 0 <= ValueMsb(s) < Pow2(|s|)
  {
    if |s| > 0 {
      ValueMsbBounds(s[..|s| - 1]);
    }
  }

  /** Prepending a bit b adds b times the weight of the new top position. */
  lemma {:induction false} ValueMsbCons(b: int, s: seq<int>)
    ensures ValueMsb([b] + s) == b * Pow2(|s|) + ValueMsb(s)
  {
    if |s| > 0 {
      var t := [b] + s;
      assert t[..|t| - 1] == [b] + s[..|s| - 1];
      ValueMsbCons(b, s[..|s| - 1]);
      assert Pow2(|s|) == 2 * Pow2(|s| - 1);
      assert b * Pow2(|s|) == 2 * (b * Pow2(|s| - 1));
    } else {
      assert [b] + s == [b];
      assert [b][..0] == [];
    }
  }

  /** ValueMsbCons for a bit, stated without a product. */
  lemma ValueMsbConsBit(b: int, s: seq<int>)
    requires IsBit(b)
    ensures ValueMsb([b] + s) == (if b == 1 then Pow2(|s|) else 0) + ValueMsb(s)
  {
    ValueMsbCons(b, s);
    if b == 1 {
      assert b * Pow2(|s|) == Pow2(|s|);
    } else {
      assert b * Pow2(|s|) == 0;
    }
  }

  /** The value of an MSB-first array split at its first entry. */
  lemma ValueMsbFirst(s: seq<int>)
    requires |s| > 0
    ensures ValueMsb(s) == s[0] * Pow2(|s| - 1) + ValueMsb(s[1..])
  {
    assert s == [s[0]] + s[1..];
    ValueMsbCons(s[0], s[1..]);
  }

  lemma {:induction false} ValueMsbZeros(s: seq<int>)
    requires forall i :: 0 <= i < |s| ==> s[i] == 0
    ensures ValueMsb(s) == 0
  {
    if |s| > 0 {
      ValueMsbZeros(s[..|s| - 1]);
    }
  }

  /** The sign bit of a bit array is set exactly when its value reaches the
      weight of the top position. */
  lemma TopBitIsHalf(s: seq<int>)
    requires |s| > 0 && IsBits(s)
    ensures s[0] == 1 <==> ValueMsb(s) >= Pow2(|s| - 1)
  {
    ValueMsbFirst(s);
    ValueMsbBounds(s[1..]);
  }

  lemma {:induction false} ToBitsMsbIsBits(n: int, w: nat)
    decreases w
    ensures IsBits(ToBitsMsb(n, w))
  {
    if w > 0 {
      ToBitsMsbIsBits(n / 2, w - 1);
    }
  }

  /** ToBitsMsb keeps exactly the value of n modulo 2^w. */
  lemma {:induction false} ToBitsMsbValue(n: int, w: nat)
    decreases w
    ensures ValueMsb(ToBitsMsb(n, w)) == n % Pow2(w)
  {
    if w > 0 {
      var r := ToBitsMsb(n, w);
      assert r[..w - 1] == ToBitsMsb(n / 2, w - 1);
      ToBitsMsbValue(n / 2, w - 1);
      ModDouble(n, Pow2(w - 1));
    }
  }

  lemma {:induction false} ToBitsMsbOfZero(w: nat)
    ensures forall i :: 0 <= i < w ==> ToBitsMsb(0, w)[i] == 0
  {
    if w > 0 {
      ToBitsMsbOfZero(w - 1);
    }
  }

  /** A bit array is the w-bit encoding of its own value. */
  lemma {:induction false} ToBitsMsbOfValue(s: seq<int>)
    requires IsBits(s)
    ensures ToBitsMsb(ValueMsb(s), |s|) == s
  {
    if |s| > 0 {
      var t := s[..|s| - 1];
      var v := ValueMsb(s);
      assert v == 2 * ValueMsb(t) + s[|s| - 1];
      assert v / 2 == ValueMsb(t) && v % 2 == s[|s| - 1];
      ToBitsMsbOfValue(t);
      assert s == t + [s[|s| - 1]];
    }
  }

  /** Two bit arrays of one length with one value are the same array. */
  lemma BitsDeterminedByValue(s: seq<int>, t: seq<int>)
    requires IsBits(s) && IsBits(t) && |s| == |t|
    requires ValueMsb(s) == ValueMsb(t)
    ensures s == t
  {
    ToBitsMsbOfValue(s);
    ToBitsMsbOfValue(t);
  }

  lemma {:induction false} ToBitsLsbValue(n: int, w: nat)
    decreases w
    ensures ValueLsb(ToBitsLsb(n, w)) == n % Pow2(w)
  {
    if w > 0 {
      var r := ToBitsLsb(n, w);
      assert r[1..] == ToBitsLsb(n / 2, w - 1);
      ToBitsLsbValue(n / 2, w - 1);
      ModDouble(n, Pow2(w - 1));
    }
  }

  /** Entry i of the LSB-first encoding is (n >> i) & 1. */
  lemma {:induction false} ToBitsLsbAt(n: int, w: nat, i: nat)
    decreases w
    requires i < w
    ensures ToBitsLsb(n, w)[i] == BitOf(n, i)
  {
    if i > 0 {
      ToBitsLsbAt(n / 2, w - 1, i - 1);
      DivHalf(n, i - 1);
    }
  }

  /** LSB-first and MSB-first encodings are each other's reversal. */
  lemma {:induction false} LsbIsReversedMsb(n: int, w: nat)
    decreases w
    ensures ToBitsLsb(n, w) == Reverse(ToBitsMsb(n, w))
  {
    if w > 0 {
      LsbIsReversedMsb(n / 2, w - 1);
      var l, m := ToBitsLsb(n, w), ToBitsMsb(n, w);
      var rm := Reverse(m);
      forall i | 0 <= i < w
        ensures l[i] == rm[i]
      {
        if i > 0 {
          assert l[i] == ToBitsLsb(n / 2, w - 1)[i - 1];
          assert m[..w - 1] == ToBitsMsb(n / 2, w - 1);
        }
      }
    }
  }
}
