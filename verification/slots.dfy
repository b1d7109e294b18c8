/** The plaintext view of the homomorphic engine's ciphertext algebra.
    A ciphertext is modelled by the slot vector it decrypts to; every
    operation the evaluator applies to ciphertexts (`+=`, `*=`, `addCtxt`
    with subtraction, `rotate`, `totalSums`) acts slot-wise on that vector
    modulo the plaintext prime P. */
module Slots {
  import opened Bits

  /** Plaintext prime modulus p configured by the client driver. */
  const P: int := 2

  /** One slot: a residue modulo P. */
  type Zp = x: int | 0 <= x < P

  /** The plaintext of one ciphertext; its length is the context's slot count. */
  type SlotVector = seq<Zp>

  function Reduce(x: int): Zp {
    x % P
  }

  /** `a += b` */
  function Add(a: SlotVector, b: SlotVector): (r: SlotVector)
    requires |a| == |b|
    ensures |r| == |a|
  {
    seq(|a|, i requires 0 <= i < |a| => Reduce(a[i] as int + b[i]))
  }

  /** `a.addCtxt(b, true)`: subtraction */
  function Sub(a: SlotVector, b: SlotVector): (r: SlotVector)
    requires |a| == |b|
    ensures |r| == |a|
  {
    seq(|a|, i requires 0 <= i < |a| => Reduce(a[i] as int - b[i]))
  }

  /** `a *= b`, `a.multiplyBy(b)` */
  function Mul(a: SlotVector, b: SlotVector): (r: SlotVector)
    requires |a| == |b|
    ensures |r| == |a|
  {
    seq(|a|, i requires 0 <= i < |a| => Reduce(a[i] as int * b[i]))
  }

  /** `ea.rotate(v, k)`: cyclic rotation by k towards higher slot indices,
      so slot j of the input ends up in slot (j + k) mod n. */
  function Rotate(v: SlotVector, k: int): (r: SlotVector)
    requires |v| > 0
    ensures |r| == |v|
  {
    seq(|v|, i requires 0 <= i < |v| => v[(i - k) % |v|])
  }

  /** Sum of all slots, as an integer. */
  function Sum(v: seq<int>): int
  {
    if |v| == 0 then 0 else Sum(v[..|v| - 1]) + v[|v| - 1]
  }

  /** `totalSums(ea, v)`: the slot sum modulo P, replicated into every slot. */
  function TotalSums(v: SlotVector): (r: SlotVector)
    ensures |r| == |v|
  {
    seq(|v|, _ => Reduce(Sum(v)))
  }

  function Zeros(n: nat): (r: SlotVector)
    ensures |r| == n
  {
    seq(n, _ => 0)
  }

  /** A plaintext with a single 1 at slot k. */
  function OneHot(n: nat, k: int): (r: SlotVector)
    ensures |r| == n
  {
    seq(n, i => if i == k then 1 else 0)
  }

  /** The same value in every slot. */
  predicate IsBroadcast(v: SlotVector, b: Zp) {
    forall i :: 0 <= i < |v| ==> v[i] == b
  }

  /** Every slot entry is a bit, since P is 2. */
  lemma SlotsAreBits(v: SlotVector)
    ensures IsBits(v)
  {
  }

  /** Over Z_2, addition is exclusive or and multiplication is and. */
  lemma AddIsXorMulIsAnd(a: SlotVector, b: SlotVector)
    requires |a| == |b|
    ensures forall i :: 0 <= i < |a| ==> Add(a, b)[i] == (if a[i] != b[i] then 1 else 0)
    ensures forall i :: 0 <= i < |a| ==> Sub(a, b)[i] == Add(a, b)[i]
    ensures forall i :: 0 <= i < |a| ==> Mul(a, b)[i] == (if a[i] == 1 && b[i] == 1 then 1 else 0)
  {
  }

  /** `rotate(v, -1)` moves slot i + 1 to slot i, and slot 0 round to the last slot. */
  lemma RotateLeftOne(v: SlotVector)
    requires |v| > 0
    ensures forall i :: 0 <= i < |v| - 1 ==> Rotate(v, -1)[i] == v[i + 1]
    ensures Rotate(v, -1)[|v| - 1] == v[0]
  {
    var n := |v|;
    forall i | 0 <= i < n - 1
      ensures Rotate(v, -1)[i] == v[i + 1]
    {
      DivModUnique(i + 1, n, 0, i + 1);
    }
    DivModUnique(n, n, 1, 0);
  }

  /** Rotating by k and then by -k restores every slot. */
  lemma RotateInverse(v: SlotVector, k: int)
    requires |v| > 0
    ensures Rotate(Rotate(v, k), -k) == v
  {
    var n := |v|;
    var w := Rotate(Rotate(v, k), -k);
    forall i | 0 <= i < n
      ensures w[i] == v[i]
    {
      var t := (i + k) % n;
      var q := (i + k) / n;
      assert i + k == q * n + t;
      DivModUnique(t - k, n, -q, i);
    }
  }

  lemma {:induction false} SumOfZeros(v: seq<int>)
    requires forall i :: 0 <= i < |v| ==> v[i] == 0
    ensures Sum(v) == 0
  {
    if |v| > 0 {
      SumOfZeros(v[..|v| - 1]);
    }
  }

  /** A vector that is zero outside slot 0 sums to its slot 0. */
  lemma {:induction false} SumOfFirstOnly(v: seq<int>)
    requires |v| > 0
    requires forall i :: 1 <= i < |v| ==> v[i] == 0
    ensures Sum(v) == v[0]
  {
    if |v| > 1 {
      SumOfFirstOnly(v[..|v| - 1]);
    }
  }

  /** Masking with the one-hot slot-0 plaintext and then `totalSums`
      copies slot 0 into every slot. */
  lemma MaskBroadcast(v: SlotVector)
    requires |v| > 0
    ensures IsBroadcast(TotalSums(Mul(v, OneHot(|v|, 0))), v[0])
  {
    var m := Mul(v, OneHot(|v|, 0));
    assert m[0] == v[0];
    SumOfFirstOnly(m);
  }
}
