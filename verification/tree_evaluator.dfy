/** The server side of the decision-tree evaluation: the fixed tree of
    three decisions and three leaves, arithmetized as one selection
    polynomial over the comparator's broadcast 0/1 decisions. */
module TreeEvaluator {
  import opened Bits
  import opened Slots
  import opened Encoder
  import opened Comparator

  /** Leaf values, encrypted as 16-bit integers. */
  const Leaves: seq<int> := [10, 20, 30]

  /** Thresholds, stored negated: decision k means input_k < -Thresholds[k]
      (sepal length < 27, < 17, and the always-true dummy < 999). */
  const Thresholds: seq<int> := [-27, -17, -999]

  /** ctxt_1: a 1 in slot 0, spread to every slot by totalSums. */
  function CtxtOne(slots: nat): (r: SlotVector)
    requires slots >= 1
    ensures |r| == slots
    ensures IsBroadcast(r, 1)
  {
    var one := OneHot(slots, 0);
    SumOfFirstOnly(one);
    TotalSums(one)
  }

  /** The selection polynomial of the fixed tree, on one slot:
      d0 (d2 L0) + (1 - d0) ((1 - d1) L1 + d1 L2) modulo p. */
  function SelectionPolynomial(d0: int, d1: int, d2: int, l0: int, l1: int, l2: int): int
  {
    (d0 * d2 * l0 + (1 - d0) * ((1 - d1) * l1 + d1 * l2)) % P
  }

  /** calculate_result: term0 = d0 (d2 L0), term1 = 1 - d0,
      term2 = (1 - d1) L1, term3 = d1 L2, result = (term2 + term3) term1 + term0.
      With an all-ones ctxt_1 every slot is the selection polynomial. */
  function CalculateResult(decisions: seq<SlotVector>, leafNodes: seq<SlotVector>, ctxt1: SlotVector): (r: SlotVector)
    requires |decisions| == 3 && |leafNodes| == 3
    requires forall k :: 0 <= k < 3 ==> |decisions[k]| == |ctxt1| && |leafNodes[k]| == |ctxt1|
    ensures |r| == |ctxt1|
    ensures IsBroadcast(ctxt1, 1) ==>
      forall i :: 0 <= i < |r| ==>
        r[i] == SelectionPolynomial(decisions[0][i], decisions[1][i], decisions[2][i],
                                    leafNodes[0][i], leafNodes[1][i], leafNodes[2][i])
  {
    var temp := Mul(decisions[2], leafNodes[0]);
    var term0 := Mul(decisions[0], temp);
    var term1 := Sub(ctxt1, decisions[0]);
    var term2 := Mul(Sub(ctxt1, decisions[1]), leafNodes[1]);
    var term3 := Mul(decisions[1], leafNodes[2]);
    var term4 := Add(term2, term3);
    var term5 := Mul(term4, term1);
    var r := Add(term5, term0);
    if IsBroadcast(ctxt1, 1) then
      assert forall i :: 0 <= i < |r| ==>
        r[i] == SelectionPolynomial(decisions[0][i], decisions[1][i], decisions[2][i],
                                    leafNodes[0][i], leafNodes[1][i], leafNodes[2][i]) by {
        forall i | 0 <= i < |r|
          ensures r[i] == SelectionPolynomial(decisions[0][i], decisions[1][i], decisions[2][i],
                                              leafNodes[0][i], leafNodes[1][i], leafNodes[2][i])
        {
          SelectionSlot(decisions[0][i], decisions[1][i], decisions[2][i],
                        leafNodes[0][i], leafNodes[1][i], leafNodes[2][i]);
        }
      }
      r
    else
      r
  }

  /** The chain of slot operations in calculate_result, on one slot. */
  lemma SelectionSlot(d0: Zp, d1: Zp, d2: Zp, l0: Zp, l1: Zp, l2: Zp)
    ensures Reduce(Reduce(Reduce(Reduce(Reduce(1 - d1) * l1) + Reduce(d1 * l2)) * Reduce(1 - d0))
                   + Reduce(d0 * Reduce(d2 * l0)))
         == SelectionPolynomial(d0, d1, d2, l0, l1, l2)
  {
    SelectionPicks(d0, d1, d2, l0, l1, l2);
    if d0 == 0 {
      assert Reduce(d0 * Reduce(d2 * l0)) == 0;
      assert Reduce(1 - d0) == 1;
      if d1 == 0 {
        assert Reduce(1 - d1) == 1 && Reduce(d1 * l2) == 0;
      } else {
        assert Reduce(1 - d1) == 0 && Reduce(d1 * l2) == l2;
      }
    } else {
      assert Reduce(1 - d0) == 0;
      if d2 == 0 {
        assert Reduce(d2 * l0) == 0;
      } else {
        assert Reduce(d2 * l0) == l0;
      }
    }
  }

  /** On 0/1 decisions the selection polynomial is the tree walk. */
  lemma SelectionPicks(d0: Zp, d1: Zp, d2: Zp, l0: Zp, l1: Zp, l2: Zp)
    ensures SelectionPolynomial(d0, d1, d2, l0, l1, l2)
         == if d0 == 1 then (if d2 == 1 then l0 else 0) else if d1 == 1 then l2 else l1
  {
    if d0 == 0 {
      if d1 == 0 {
        assert d0 * d2 * l0 + (1 - d0) * ((1 - d1) * l1 + d1 * l2) == l1;
      } else {
        assert d0 * d2 * l0 + (1 - d0) * ((1 - d1) * l1 + d1 * l2) == l2;
      }
    } else {
      if d2 == 0 {
        assert d0 * d2 * l0 + (1 - d0) * ((1 - d1) * l1 + d1 * l2) == 0;
      } else {
        assert d0 * d2 * l0 + (1 - d0) * ((1 - d1) * l1 + d1 * l2) == l0;
      }
    }
  }

  /** With broadcast 0/1 decisions the polynomial picks exactly one leaf:
      L0 when d0 and d2 hold, nothing when d0 holds but d2 does not, and
      otherwise L1 or L2 by d1. */
  lemma SelectsOneLeaf(decisions: seq<SlotVector>, leafNodes: seq<SlotVector>, ctxt1: SlotVector, d0: Zp, d1: Zp, d2: Zp)
    requires |decisions| == 3 && |leafNodes| == 3
    requires forall k :: 0 <= k < 3 ==> |decisions[k]| == |ctxt1| && |leafNodes[k]| == |ctxt1|
    requires IsBroadcast(ctxt1, 1)
    requires IsBroadcast(decisions[0], d0) && IsBroadcast(decisions[1], d1) && IsBroadcast(decisions[2], d2)
    ensures d0 == 1 && d2 == 1 ==> CalculateResult(decisions, leafNodes, ctxt1) == leafNodes[0]
    ensures d0 == 1 && d2 == 0 ==> CalculateResult(decisions, leafNodes, ctxt1) == Zeros(|ctxt1|)
    ensures d0 == 0 && d1 == 0 ==> CalculateResult(decisions, leafNodes, ctxt1) == leafNodes[1]
    ensures d0 == 0 && d1 == 1 ==> CalculateResult(decisions, leafNodes, ctxt1) == leafNodes[2]
  {
    var r := CalculateResult(decisions, leafNodes, ctxt1);
    var chosen := if d0 == 1 then (if d2 == 1 then leafNodes[0] else Zeros(|ctxt1|))
                  else if d1 == 1 then leafNodes[2] else leafNodes[1];
    forall i | 0 <= i < |r|
      ensures r[i] == chosen[i]
    {
      SelectionPicks(decisions[0][i], decisions[1][i], decisions[2][i],
                     leafNodes[0][i], leafNodes[1][i], leafNodes[2][i]);
    }
  }

  /** The plaintext tree that the polynomial encodes: the leaf the
      evaluator selects for inputs x0, x1, x2 (0 when the dummy decision
      fails, which cannot happen below 999). */
  function PlainDecisionTree(x0: int, x1: int, x2: int): int
  {
    if x0 < -Thresholds[0] then
      (if x2 < -Thresholds[2] then Leaves[0] else 0)
    else if x1 < -Thresholds[1] then Leaves[2]
    else Leaves[1]
  }

  /** The leaf selected by decision bits d0, d1, d2. */
  function SelectedLeaf(d0: Zp, d1: Zp, d2: Zp): int
  {
    if d0 == 1 then (if d2 == 1 then Leaves[0] else 0)
    else if d1 == 1 then Leaves[2]
    else Leaves[1]
  }

  /** The comparator's decision for one input against one stored threshold. */
  function Decision(input: SlotVector, threshold: int): Zp
    requires |input| >= Width
  {
    SignBit(Window(input) + threshold % Modulus)
  }

  /** No decision leaves the signed 16-bit range. */
  predicate NoOverflow(x0: int, x1: int, x2: int)
  {
    && -HalfModulus <= x0 + Thresholds[0] < HalfModulus
    && -HalfModulus <= x1 + Thresholds[1] < HalfModulus
    && -HalfModulus <= x2 + Thresholds[2] < HalfModulus
  }

  /** evaluate_decision_tree: encrypt leaves and thresholds, build ctxt_1,
      compare each input with its threshold and combine with
      calculate_result. The result is the encrypted integer of the selected
      leaf; without overflow it is the leaf the plaintext tree picks. */
  method EvaluateDecisionTree(inputVector: seq<SlotVector>) returns (r: SlotVector)
    requires |inputVector| == 3 && |inputVector[0]| >= MinSlots
    requires forall k :: 0 <= k < 3 ==> |inputVector[k]| == |inputVector[0]| && IsEncryptedInt(inputVector[k])
    ensures r == GetCtxt(3, SelectedLeaf(Decision(inputVector[0], Thresholds[0]),
                                         Decision(inputVector[1], Thresholds[1]),
                                         Decision(inputVector[2], Thresholds[2])), |inputVector[0]|)
    ensures NoOverflow(SignedWindow(inputVector[0]), SignedWindow(inputVector[1]), SignedWindow(inputVector[2])) ==>
      r == GetCtxt(3, PlainDecisionTree(SignedWindow(inputVector[0]), SignedWindow(inputVector[1]),
                                        SignedWindow(inputVector[2])), |inputVector[0]|)
  {
    var slots := |inputVector[0]|;
    var leafNodes := GetCtxtList(Leaves, slots);
    var thresholds := GetCtxtList(Thresholds, slots);
    var ctxt1 := CtxtOne(slots);
    var decisions := CompareAll(inputVector, thresholds);
    StoredThresholdDecisions(inputVector, thresholds, decisions);
    r := CalculateResult(decisions, leafNodes, ctxt1);
    ResultIsSelectedLeaf(decisions, ctxt1, slots, Decision(inputVector[0], Thresholds[0]),
                         Decision(inputVector[1], Thresholds[1]), Decision(inputVector[2], Thresholds[2]));
    DecisionsMatchPlainTree(inputVector, slots);
  }

  /** The comparison loop of evaluate_decision_tree:
      decisions[i] = compareCtxt(input_vector[i], thresholds[i]). */
  method CompareAll(inputVector: seq<SlotVector>, thresholds: seq<SlotVector>) returns (decisions: seq<SlotVector>)
    requires |inputVector| == 3 && |thresholds| == 3 && |inputVector[0]| >= MinSlots
    requires forall k :: 0 <= k < 3 ==> |inputVector[k]| == |inputVector[0]| && IsEncryptedInt(inputVector[k])
    requires forall k :: 0 <= k < 3 ==> |thresholds[k]| == |inputVector[0]| && IsEncryptedInt(thresholds[k])
    ensures |decisions| == 3
    ensures forall k :: 0 <= k < 3 ==> |decisions[k]| == |inputVector[0]|
    ensures forall k :: 0 <= k < 3 ==>
      IsBroadcast(decisions[k], SignBit(Window(inputVector[k]) + Window(thresholds[k])))
  {
    var slots := |inputVector[0]|;
    decisions := [];
    var i := 0;
    while i < 3
      invariant 0 <= i <= 3 && |decisions| == i
      invariant forall k :: 0 <= k < i ==> |decisions[k]| == slots
      invariant forall k :: 0 <= k < i ==>
        IsBroadcast(decisions[k], SignBit(Window(inputVector[k]) + Window(thresholds[k])))
    {
      var d := CompareCtxt(inputVector[i], thresholds[i]);
      decisions := decisions + [d];
      i := i + 1;
    }
  }

  /** Against thresholds that hold Thresholds modulo 2^16, the comparator's
      outputs are the decisions of the tree. */
  lemma StoredThresholdDecisions(inputVector: seq<SlotVector>, thresholds: seq<SlotVector>, decisions: seq<SlotVector>)
    requires |inputVector| == 3 && |thresholds| == 3 && |decisions| == 3
    requires forall k :: 0 <= k < 3 ==> |inputVector[k]| >= Width && |thresholds[k]| >= Width
    requires forall k :: 0 <= k < 3 ==> Window(thresholds[k]) == Thresholds[k] % Modulus
    requires forall k :: 0 <= k < 3 ==>
      IsBroadcast(decisions[k], SignBit(Window(inputVector[k]) + Window(thresholds[k])))
    ensures forall k :: 0 <= k < 3 ==> IsBroadcast(decisions[k], Decision(inputVector[k], Thresholds[k]))
  {
  }

  /** With the encrypted leaves and broadcast decisions d0, d1, d2,
      calculate_result is the encrypted integer of the selected leaf. */
  lemma ResultIsSelectedLeaf(decisions: seq<SlotVector>, ctxt1: SlotVector, slots: nat, d0: Zp, d1: Zp, d2: Zp)
    requires slots >= Width && |ctxt1| == slots && IsBroadcast(ctxt1, 1)
    requires |decisions| == 3 && forall k :: 0 <= k < 3 ==> |decisions[k]| == slots
    requires IsBroadcast(decisions[0], d0) && IsBroadcast(decisions[1], d1) && IsBroadcast(decisions[2], d2)
    ensures CalculateResult(decisions, GetCtxtList(Leaves, slots), ctxt1) == GetCtxt(3, SelectedLeaf(d0, d1, d2), slots)
  {
    var leafNodes := GetCtxtList(Leaves, slots);
    assert leafNodes[0] == GetCtxt(3, Leaves[0], slots);
    assert leafNodes[1] == GetCtxt(3, Leaves[1], slots);
    assert leafNodes[2] == GetCtxt(3, Leaves[2], slots);
    SelectsOneLeaf(decisions, leafNodes, ctxt1, d0, d1, d2);
    EncodedZero(slots);
  }

  /** Without overflow the three decisions are the plaintext comparisons. */
  lemma DecisionsMatchPlainTree(inputVector: seq<SlotVector>, slots: nat)
    requires |inputVector| == 3 && slots >= Width
    requires forall k :: 0 <= k < 3 ==> |inputVector[k]| == slots && IsEncryptedInt(inputVector[k])
    ensures NoOverflow(SignedWindow(inputVector[0]), SignedWindow(inputVector[1]), SignedWindow(inputVector[2])) ==>
      SelectedLeaf(Decision(inputVector[0], Thresholds[0]), Decision(inputVector[1], Thresholds[1]),
                   Decision(inputVector[2], Thresholds[2]))
      == PlainDecisionTree(SignedWindow(inputVector[0]), SignedWindow(inputVector[1]), SignedWindow(inputVector[2]))
  {
    if NoOverflow(SignedWindow(inputVector[0]), SignedWindow(inputVector[1]), SignedWindow(inputVector[2])) {
      DecisionIsComparison(inputVector[0], Thresholds[0]);
      DecisionIsComparison(inputVector[1], Thresholds[1]);
      DecisionIsComparison(inputVector[2], Thresholds[2]);
    }
  }

  /** One decision against a negated threshold is the plaintext comparison. */
  lemma DecisionIsComparison(input: SlotVector, threshold: int)
    requires IsEncryptedInt(input)
    requires -HalfModulus <= SignedWindow(input) + threshold < HalfModulus
    ensures Decision(input, threshold) == if SignedWindow(input) < -threshold then 1 else 0
  {
    var stored := GetCtxt(3, threshold, |input|);
    assert Window(stored) == threshold % Modulus by {
      GetCtxtWindow(threshold, |input|);
    }
    assert -(-threshold) == threshold;
    ThresholdDecision(input, -threshold);
  }

  /** The client's scenario: inputs 10, 23, 18. The first decision
      (10 < 27) and the dummy (18 < 999) hold, so the result is the
      encrypted integer of leaf 10. */
  method ClientScenario(slots: nat) returns (r: SlotVector)
    requires slots >= MinSlots
    ensures r == GetCtxt(3, 10, slots)
    ensures SignedWindow(r) == 10
  {
    var inputs := GetCtxtList([10, 23, 18], slots);
    GetCtxtWindow(10, slots);
    GetCtxtWindow(23, slots);
    GetCtxtWindow(18, slots);
    r := EvaluateDecisionTree(inputs);
  }
}
