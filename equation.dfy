// LUT equation equivalence: two `CONFIG.EQN` strings match when they
// have the same shape once every pin name is blanked out, and the pins
// can be paired one to one so that paired pins occur at the same
// offsets. Pin-swapped equations therefore match.

module Equation {

  import opened Text

  /** The six LUT input pins, in the order the comparison visits them. */
  const Pins: seq<string> := ["A6", "A5", "A4", "A3", "A2", "A1"]

  /** The prefix a LUT written as a 5-input function of A1..A5 carries. */
  const Frame: string := "(A6+~A6)*("

  /** Removes the "O6=" and "O5=" output labels. */
  function StripOutputs(eq: string): string
  {
    Replace(Replace(eq, "O6=", ""), "O5=", "")
  }

  /** Removes the framing prefix and, with it, the last character. */
  function StripFrame(eq: string): (r: string)
    ensures !Contains(eq, Frame) ==> r == eq
  {
    if Contains(eq, Frame) then DropLast(Replace(eq, Frame, "")) else eq
  }

  /** The equation text both later steps work on. */
  function Canonical(eq: string): string
  {
    StripFrame(StripOutputs(eq))
  }

  /** Replaces, in order, every pin name of `pins` by "PIN". */
  function BlankPins(eq: string, pins: seq<string>): string
    requires forall k :: 0 <= k < |pins| ==> |pins[k]| > 0
    decreases |pins|
  {
    if |pins| == 0 then eq else BlankPins(Replace(eq, pins[0], "PIN"), pins[1..])
  }

  /** The equation's shape: the canonical text with every pin blanked. */
  function Shape(eq: string): string
  {
    BlankPins(eq, Pins)
  }

  /** For each pin in `Pins` order, the offsets where it occurs. */
  function PinOffsets(eq: string): (r: seq<seq<int>>)
    ensures |r| == |Pins|
    ensures forall k :: 0 <= k < |Pins| ==> r[k] == FindAll(eq, Pins[k])
  {
    OffsetsOf(eq, Pins)
  }

  /** No pin name can overlap itself: its one proper suffix differs from its first letter. */
  lemma PinsNoSelfOverlap()
    ensures forall k :: 0 <= k < |Pins| ==> NoSelfOverlap(Pins[k])
  {
    forall k | 0 <= k < |Pins|
      ensures NoSelfOverlap(Pins[k])
    {
      assert |Pins[k]| == 2 && Pins[k][0] == 'A' && Pins[k][1] != 'A';
    }
  }

  /**
   * Pin `k`'s offset list is exactly the set of places where that pin
   * occurs: every listed offset is an occurrence and none is missed.
   */
  lemma PinOffsetsExact(eq: string, k: int, j: int)
    requires 0 <= k < |Pins|
    ensures j in PinOffsets(eq)[k] <==> OccursAt(eq, Pins[k], j)
  {
    PinsNoSelfOverlap();
    if OccursAt(eq, Pins[k], j) {
      FindAllComplete(eq, Pins[k], j);
    }
  }

  /** For each pin of `pins`, in order, the offsets where it occurs. */
  function OffsetsOf(eq: string, pins: seq<string>): (r: seq<seq<int>>)
    requires forall k :: 0 <= k < |pins| ==> |pins[k]| > 0
    ensures |r| == |pins|
    ensures forall k :: 0 <= k < |pins| ==> r[k] == FindAll(eq, pins[k])
  {
    if |pins| == 0 then [] else [FindAll(eq, pins[0])] + OffsetsOf(eq, pins[1..])
  }

  /** Index of the first element of `l` equal to `x`, or -1. */
  function FirstIndex<T(==)>(l: seq<T>, x: T): (r: int)
    ensures -1 <= r < |l|
    ensures r >= 0 ==> l[r] == x && forall j :: 0 <= j < r ==> l[j] != x
    ensures r < 0 <==> x !in l
  {
    if |l| == 0 then -1
    else if l[0] == x then 0
    else var k := FirstIndex(l[1..], x); if k < 0 then -1 else k + 1
  }

  function RemoveAt<T>(l: seq<T>, k: nat): (r: seq<T>)
    requires k < |l|
    ensures multiset(r) == multiset(l) - multiset{l[k]}
    ensures |r| == |l| - 1
  {
    assert l == l[..k] + [l[k]] + l[k + 1..];
    l[..k] + l[k + 1..]
  }

  /**
   * The pairing loop: each list of `l1`, in order, takes the first
   * still-unused equal list of `l2`; false when some list finds none.
   */
  function Pair(l1: seq<seq<int>>, l2: seq<seq<int>>): bool
  {
    if |l1| == 0 then true
    else
      var k := FirstIndex(l2, l1[0]);
      if k < 0 then false else Pair(l1[1..], RemoveAt(l2, k))
  }

  /** The pairing succeeds exactly when `l1`'s lists all occur in `l2`. */
  lemma {:induction false} PairIsSubMultiset(l1: seq<seq<int>>, l2: seq<seq<int>>)
    ensures Pair(l1, l2) <==> multiset(l1) <= multiset(l2)
    decreases |l1|
  {
    if |l1| > 0 {
      var x := l1[0];
      assert l1 == [x] + l1[1..];
      var k := FirstIndex(l2, x);
      if k >= 0 {
        var rest := RemoveAt(l2, k);
        PairIsSubMultiset(l1[1..], rest);
        assert multiset(l2) == multiset(rest) + multiset{x};
      } else {
        assert multiset(l1)[x] > 0 && multiset(l2)[x] == 0;
      }
    }
  }

  /** `compare_eqn(eq1, eq2)`. */
  function CompareEqn(eq1: string, eq2: string): bool
  {
    var c1 := Canonical(eq1);
    var c2 := Canonical(eq2);
    Shape(c1) == Shape(c2) && Pair(PinOffsets(c1), PinOffsets(c2))
  }

  /**
   * The characterisation: equal shapes, and the pins' offset lists of one
   * equation are a rearrangement of the other's.
   */
  lemma CompareEqnMeaning(eq1: string, eq2: string)
    ensures CompareEqn(eq1, eq2) <==>
      Shape(Canonical(eq1)) == Shape(Canonical(eq2)) &&
      multiset(PinOffsets(Canonical(eq1))) == multiset(PinOffsets(Canonical(eq2)))
  {
    var o1 := PinOffsets(Canonical(eq1));
    var o2 := PinOffsets(Canonical(eq2));
    PairIsSubMultiset(o1, o2);
    if multiset(o1) <= multiset(o2) {
      assert |multiset(o1)| == |multiset(o2)|;
      SubMultisetOfSameSize(multiset(o1), multiset(o2));
    }
  }

  lemma SubMultisetOfSameSize<T>(a: multiset<T>, b: multiset<T>)
    requires a <= b && |a| == |b|
    ensures a == b
  {
    assert |b - a| == |b| - |a|;
  }

  lemma CompareEqnReflexive(eq: string)
    ensures CompareEqn(eq, eq)
  {
    CompareEqnMeaning(eq, eq);
  }

  lemma CompareEqnSymmetric(eq1: string, eq2: string)
    ensures CompareEqn(eq1, eq2) <==> CompareEqn(eq2, eq1)
  {
    CompareEqnMeaning(eq1, eq2);
    CompareEqnMeaning(eq2, eq1);
  }

  /** Equations whose shapes differ never match. */
  lemma CompareEqnNeedsShape(eq1: string, eq2: string)
    requires Shape(Canonical(eq1)) != Shape(Canonical(eq2))
    ensures !CompareEqn(eq1, eq2)
  {
  }

  /**
   * The legacy form of the pairing loop, written with a `found` flag
   * over a working copy of the second equation's offset lists.
   */
  method PairWithFlag(l1: seq<seq<int>>, l2: seq<seq<int>>) returns (ok: bool)
    ensures ok == Pair(l1, l2)
  {
    var rest := l2;
    var i := 0;
    while i < |l1|
      invariant 0 <= i <= |l1|
      invariant Pair(l1, l2) == Pair(l1[i..], rest)
    {
      var found := false;
      var j := 0;
      while j < |rest|
        invariant 0 <= j <= |rest|
        invariant forall m :: 0 <= m < j ==> rest[m] != l1[i]
      {
        if rest[j] == l1[i] {
          found := true;
          break;
        }
        j := j + 1;
      }
      if !found {
        assert FirstIndex(rest, l1[i]) < 0;
        return false;
      }
      assert FirstIndex(rest, l1[i]) == j;
      assert l1[i..][1..] == l1[i + 1..];
      rest := RemoveAt(rest, j);
      i := i + 1;
    }
    return true;
  }

  /** The legacy `compare_eqn`, returning 1 or 0. */
  method CompareEqnLegacy(eq1: string, eq2: string) returns (r: int)
    ensures r == 1 || r == 0
    ensures r == 1 <==> CompareEqn(eq1, eq2)
  {
    var c1 := Canonical(eq1);
    var c2 := Canonical(eq2);
    if Shape(c1) == Shape(c2) {
      var ok := PairWithFlag(PinOffsets(c1), PinOffsets(c2));
      r := if ok then 1 else 0;
    } else {
      r := 0;
    }
  }
}
