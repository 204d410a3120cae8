// The mixed-radix odometer of `create_data.py`: `current_list` holds one
// digit per enumerable IP property, digit k counting through the
// `len_list[k]` values of that property; `incr_current` advances it,
// `random_current` draws an unused combination and `run_all_skip` sweeps
// the combinations, skipping ahead when a design brings nothing new.

module CreateData {
  import opened Wrappers

  /** Every radix is at least one: each property has a value to choose. */
  predicate Positive(radix: seq<nat>)
  {
    forall k :: 0 <= k < |radix| ==> radix[k] > 0
  }

  /** Every digit names one of its property's values. */
  predicate InRange(d: seq<int>, radix: seq<nat>)
  {
    |d| <= |radix| && forall k :: 0 <= k < |d| ==> 0 <= d[k] < radix[k]
  }

  /** The place value of digit `k`: the product of the radixes below it. */
  function Place(radix: seq<nat>, k: nat): nat
    requires k <= |radix|
  {
    if k == 0 then 1 else Place(radix, k - 1) * radix[k - 1]
  }

  /** The number the digits stand for, digit 0 the least significant. */
  function Value(d: seq<int>, radix: seq<nat>): int
    requires |d| <= |radix|
  {
    if |d| == 0 then 0 else Value(d[..|d| - 1], radix) + d[|d| - 1] * Place(radix, |d| - 1)
  }

  /**
   * The carry loop of `incr_current` from digit `j` on, `msb` the index
   * returned so far: a digit equal to its radix is reset to 0 and 1 is
   * carried into the next digit, or, for the last digit, -1 is returned.
   */
  function Carry(d: seq<int>, radix: seq<nat>, j: nat, msb: int): (seq<int>, int)
    requires |d| == |radix| && j <= |d|
    decreases |d| - j
  {
    if j == |d| then (d, msb)
    else if d[j] == radix[j] then
      if j + 1 < |d| then Carry(d[j := 0][j + 1 := d[j + 1] + 1], radix, j + 1, j)
      else (d[j := 0], -1)
    else Carry(d, radix, j + 1, msb)
  }

  /** `incr_current(i)`: the new digits and the value returned. */
  function Incr(d: seq<int>, radix: seq<nat>, i: nat): (seq<int>, int)
    requires |d| == |radix|
  {
    if i < |d| then Carry(d[i := d[i] + 1], radix, i, i) else (d, i)
  }

  /** The digits below `m` set to 0. */
  function Zeroed(d: seq<int>, m: nat): (r: seq<int>)
    ensures |r| == |d|
    ensures forall k :: 0 <= k < |d| ==> r[k] == if k < m then 0 else d[k]
  {
    seq(|d|, k requires 0 <= k < |d| => if k < m then 0 else d[k])
  }

  /**
   * One round of `run_all_skip` after a design: with new data the
   * odometer advances from digit 0; without, the digits below `msb` are
   * zeroed and it advances from digit `msb + 1`. Zeroing past the last
   * digit is the `IndexError` of `current_list[i] = 0`.
   */
  function SkipStep(d: seq<int>, radix: seq<nat>, msb: nat, hasNew: bool): Option<(seq<int>, int)>
    requires |d| == |radix|
  {
    if hasNew then Some(Incr(d, radix, 0))
    else if msb > |d| then None
    else Some(Incr(Zeroed(d, msb), radix, msb + 1))
  }

  /** `current_list` as first built: one 0 per property. */
  function Zeros(n: nat): (r: seq<int>)
    ensures |r| == n && forall k :: 0 <= k < n ==> r[k] == 0
  {
    seq(n, _ => 0)
  }

  /** The stopping test of `run_all_skip` as written: -1 or exactly `len(key_list)`. */
  predicate StopsAsWritten(msb: int, n: nat)
  {
    msb == -1 || msb == n
  }

  /** The stopping test the sweep needs: -1 or any index past the digits. */
  predicate Stops(msb: int, n: nat)
  {
    msb == -1 || msb >= n
  }

  /** Writing `v` into digit `k` changes the value by the difference at that place. */
  lemma {:induction false} ValueUpdate(d: seq<int>, radix: seq<nat>, k: nat, v: int)
    requires |d| <= |radix| && k < |d|
    ensures Value(d[k := v], radix) == Value(d, radix) + (v - d[k]) * Place(radix, k)
    decreases |d|
  {
    var n := |d| - 1;
    var e := d[k := v];
    if k < n {
      assert e[..n] == d[..n][k := v];
      ValueUpdate(d[..n], radix, k, v);
    } else {
      assert e[..n] == d[..n];
      assert v * Place(radix, n) - d[n] * Place(radix, n) == (v - d[n]) * Place(radix, n);
    }
  }

  /** Place values are positive while the radixes are. */
  lemma {:induction false} PlacePositive(radix: seq<nat>, k: nat)
    requires k <= |radix| && forall j :: 0 <= j < k ==> radix[j] > 0
    ensures Place(radix, k) >= 1
  {
    if k > 0 {
      PlacePositive(radix, k - 1);
      assert Place(radix, k) == Place(radix, k - 1) * radix[k - 1];
    }
  }

  /** Digits in range stand for a number in `[0, Place(|d|))`. */
  lemma {:induction false} ValueBelow(d: seq<int>, radix: seq<nat>)
    requires InRange(d, radix)
    ensures 0 <= Value(d, radix) < Place(radix, |d|)
  {
    if |d| > 0 {
      var n := |d| - 1;
      var p := Place(radix, n);
      ValueBelow(d[..n], radix);
      PlacePositive(radix, n);
      assert 0 <= d[n] * p <= (radix[n] - 1) * p;
      assert Place(radix, |d|) == p * radix[n];
    }
  }

  /** Zeroing the digits below `m` removes exactly what they stood for. */
  lemma {:induction false} ZeroedValue(d: seq<int>, radix: seq<nat>, m: nat)
    requires |d| <= |radix| && m <= |d|
    ensures Value(Zeroed(d, m), radix) == Value(d, radix) - Value(d[..m], radix)
  {
    if |d| > 0 {
      var n := |d| - 1;
      var z := Zeroed(d, m);
      if m <= n {
        assert z[..n] == Zeroed(d[..n], m);
        assert d[..n][..m] == d[..m];
        ZeroedValue(d[..n], radix, m);
      } else {
        assert z[..n] == Zeroed(d[..n], n);
        assert d[..n][..n] == d[..n];
        assert d[..m] == d;
        ZeroedValue(d[..n], radix, n);
      }
    }
  }

  /** The state the carry loop reaches digit `j` in: only digit `j` may equal its radix. */
  predicate CarryReady(d: seq<int>, radix: seq<nat>, j: nat)
  {
    |d| == |radix| && j <= |d| &&
    (forall k :: 0 <= k < |d| && k != j ==> 0 <= d[k] < radix[k]) &&
    (j < |d| ==> 0 <= d[j] <= radix[j])
  }

  /** Resetting digit `j` and carrying 1 into digit `j + 1` keeps the carry loop's state. */
  lemma CarryOneReady(d: seq<int>, radix: seq<nat>, j: nat)
    requires CarryReady(d, radix, j) && Positive(radix) && j + 1 < |d| && d[j] == radix[j]
    ensures CarryReady(d[j := 0][j + 1 := d[j + 1] + 1], radix, j + 1)
  {
  }

  /** Resetting digit `j` and carrying 1 into digit `j + 1` keeps the number. */
  lemma CarryOneValue(d: seq<int>, radix: seq<nat>, j: nat)
    requires |d| <= |radix| && j + 1 < |d| && d[j] == radix[j]
    ensures Value(d[j := 0][j + 1 := d[j + 1] + 1], radix) == Value(d, radix)
  {
    var p := Place(radix, j);
    var e := d[j := 0];
    ValueUpdate(d, radix, j, 0);
    assert Value(e, radix) == Value(d, radix) - radix[j] * p;
    ValueUpdate(e, radix, j + 1, d[j + 1] + 1);
    assert Value(e[j + 1 := d[j + 1] + 1], radix) == Value(e, radix) + Place(radix, j + 1);
    assert Place(radix, j + 1) == p * radix[j];
  }

  /** Resetting the last digit takes the full product off the number. */
  lemma CarryLastValue(d: seq<int>, radix: seq<nat>, j: nat)
    requires CarryReady(d, radix, j) && Positive(radix) && j + 1 == |d| && d[j] == radix[j]
    ensures InRange(d[j := 0], radix)
    ensures Value(d[j := 0], radix) == Value(d, radix) - Place(radix, |d|)
  {
    var p := Place(radix, j);
    ValueUpdate(d, radix, j, 0);
    assert (0 - d[j]) * p == 0 - d[j] * p;
    assert Place(radix, j + 1) == p * radix[j];
  }

  /**
   * The carry loop keeps the number and leaves every digit in range,
   * except that a carry out of the last digit loses `Place(|d|)`.
   */
  lemma {:induction false} CarryValue(d: seq<int>, radix: seq<nat>, j: nat, msb: int)
    requires CarryReady(d, radix, j) && Positive(radix) && msb >= 0
    ensures InRange(Carry(d, radix, j, msb).0, radix)
    ensures Value(Carry(d, radix, j, msb).0, radix) ==
      Value(d, radix) - (if Carry(d, radix, j, msb).1 == -1 then Place(radix, |d|) else 0)
    decreases |d| - j
  {
    if j < |d| {
      if d[j] == radix[j] {
        if j + 1 < |d| {
          CarryOneReady(d, radix, j);
          CarryOneValue(d, radix, j);
          CarryValue(d[j := 0][j + 1 := d[j + 1] + 1], radix, j + 1, j);
          assert Carry(d, radix, j, msb) == Carry(d[j := 0][j + 1 := d[j + 1] + 1], radix, j + 1, j);
        } else {
          CarryLastValue(d, radix, j);
          assert Carry(d, radix, j, msb) == (d[j := 0], -1);
        }
      } else {
        assert CarryReady(d, radix, j + 1);
        CarryValue(d, radix, j + 1, msb);
        assert Carry(d, radix, j, msb) == Carry(d, radix, j + 1, msb);
      }
    }
  }

  /** The carry loop returns -1 or an index in `[msb, |d|)`, and touches no digit below `j`. */
  lemma {:induction false} CarryBounds(d: seq<int>, radix: seq<nat>, j: nat, msb: int)
    requires |d| == |radix| && j <= |d| && 0 <= msb <= j && msb < |d|
    ensures Carry(d, radix, j, msb).1 == -1 || msb <= Carry(d, radix, j, msb).1 < |d|
    ensures |Carry(d, radix, j, msb).0| == |d|
    ensures forall k :: 0 <= k < j ==> Carry(d, radix, j, msb).0[k] == d[k]
    ensures Carry(d, radix, j, msb).1 >= 0 ==>
      forall k :: Carry(d, radix, j, msb).1 + 1 < k < |d| && j <= k ==> Carry(d, radix, j, msb).0[k] == d[k]
    decreases |d| - j
  {
    if j < |d| {
      if d[j] == radix[j] {
        if j + 1 < |d| {
          CarryBounds(d[j := 0][j + 1 := d[j + 1] + 1], radix, j + 1, j);
        }
      } else {
        CarryBounds(d, radix, j + 1, msb);
      }
    }
  }

  /**
   * The carry loop returns -1, the `msb` it was given when no digit from
   * `j` on wrapped, or the highest digit it wrapped, which it left at 0.
   */
  lemma {:induction false} CarryWrapped(d: seq<int>, radix: seq<nat>, j: nat, msb: int)
    requires |d| == |radix| && j <= |d|
    ensures Carry(d, radix, j, msb).1 == -1 || Carry(d, radix, j, msb).1 == msb ||
      (j <= Carry(d, radix, j, msb).1 < |Carry(d, radix, j, msb).0| && Carry(d, radix, j, msb).0[Carry(d, radix, j, msb).1] == 0)
    decreases |d| - j
  {
    if j < |d| {
      if d[j] == radix[j] {
        if j + 1 < |d| {
          var e := d[j := 0][j + 1 := d[j + 1] + 1];
          CarryWrapped(e, radix, j + 1, j);
          CarryBounds(e, radix, j + 1, j);
        }
      } else {
        CarryWrapped(d, radix, j + 1, msb);
      }
    }
  }

  /**
   * `incr_current(i)` returns -1, `i` when no digit above `i` wrapped,
   * or the highest digit that wrapped, now 0.
   */
  lemma IncrWrapped(d: seq<int>, radix: seq<nat>, i: nat)
    requires |d| == |radix|
    ensures Incr(d, radix, i).1 == -1 || Incr(d, radix, i).1 == i ||
      (i < Incr(d, radix, i).1 < |Incr(d, radix, i).0| && Incr(d, radix, i).0[Incr(d, radix, i).1] == 0)
  {
    if i < |d| {
      CarryWrapped(d[i := d[i] + 1], radix, i, i);
    }
  }

  /**
   * `incr_current(i)` past the last digit changes nothing and returns
   * `i`; otherwise it keeps the digits below `i`, returns -1 or the
   * highest digit carried out of (at least `i`), and leaves the digits
   * above the one carried into as they were.
   */
  lemma IncrBounds(d: seq<int>, radix: seq<nat>, i: nat)
    requires |d| == |radix|
    ensures i >= |d| ==> Incr(d, radix, i) == (d, i)
    ensures i < |d| ==> Incr(d, radix, i).1 == -1 || i <= Incr(d, radix, i).1 < |d|
    ensures |Incr(d, radix, i).0| == |d|
    ensures forall k :: 0 <= k < i && k < |d| ==> Incr(d, radix, i).0[k] == d[k]
    ensures i < |d| && Incr(d, radix, i).1 >= 0 ==>
      forall k :: Incr(d, radix, i).1 + 1 < k < |d| ==> Incr(d, radix, i).0[k] == d[k]
  {
    if i < |d| {
      CarryBounds(d[i := d[i] + 1], radix, i, i);
    }
  }

  /**
   * With every digit in range, `incr_current(i)` adds the place value of
   * digit `i` and keeps every digit in range; wrapping the whole odometer
   * (result -1) takes the total `Place(|d|)` off again.
   */
  lemma IncrValue(d: seq<int>, radix: seq<nat>, i: nat)
    requires |d| == |radix| && InRange(d, radix) && Positive(radix) && i < |d|
    ensures InRange(Incr(d, radix, i).0, radix)
    ensures Value(Incr(d, radix, i).0, radix) ==
      Value(d, radix) + Place(radix, i) - (if Incr(d, radix, i).1 == -1 then Place(radix, |d|) else 0)
  {
    ValueUpdate(d, radix, i, d[i] + 1);
    CarryValue(d[i := d[i] + 1], radix, i, i);
  }

  /** A round after a design with new data: the odometer advances by one. */
  lemma SkipNewAdvances(d: seq<int>, radix: seq<nat>)
    requires |d| == |radix| && InRange(d, radix) && Positive(radix)
    ensures InRange(Incr(d, radix, 0).0, radix)
    ensures !Stops(Incr(d, radix, 0).1, |d|) ==> Value(d, radix) < Value(Incr(d, radix, 0).0, radix)
  {
    IncrBounds(d, radix, 0);
    if |d| > 0 {
      IncrValue(d, radix, 0);
    }
  }

  /** A round after a design without new data: the digits below `msb` go, digit `msb + 1` goes up. */
  lemma SkipOldAdvances(d: seq<int>, radix: seq<nat>, msb: nat)
    requires |d| == |radix| && InRange(d, radix) && Positive(radix) && msb <= |d|
    ensures InRange(Incr(Zeroed(d, msb), radix, msb + 1).0, radix)
    ensures !Stops(Incr(Zeroed(d, msb), radix, msb + 1).1, |d|) ==>
      Value(d, radix) < Value(Incr(Zeroed(d, msb), radix, msb + 1).0, radix)
  {
    var z := Zeroed(d, msb);
    assert InRange(z, radix);
    IncrBounds(z, radix, msb + 1);
    if msb + 1 < |d| {
      ZeroedValue(d, radix, msb);
      LowBelowPlace(d, radix, msb);
      IncrValue(z, radix, msb + 1);
    }
  }

  /** The digits below `msb` are worth less than one unit of digit `msb + 1`. */
  lemma LowBelowPlace(d: seq<int>, radix: seq<nat>, msb: nat)
    requires |d| == |radix| && InRange(d, radix) && Positive(radix) && msb < |d|
    ensures Value(d[..msb], radix) < Place(radix, msb + 1)
  {
    assert InRange(d[..msb], radix);
    ValueBelow(d[..msb], radix);
    PlacePositive(radix, msb);
    var p := Place(radix, msb);
    assert radix[msb] >= 1;
    assert p * radix[msb] >= p;
  }

  /**
   * A round of `run_all_skip` from digits in range, with `msb` at most
   * the number of digits, never zeroes past the end, keeps the digits in
   * range and, unless it stops the sweep, moves to a strictly larger
   * number with its new index below the number of digits.
   */
  lemma SkipAdvances(d: seq<int>, radix: seq<nat>, msb: nat, hasNew: bool)
    requires |d| == |radix| && InRange(d, radix) && Positive(radix) && msb <= |d|
    ensures SkipStep(d, radix, msb, hasNew).Some?
    ensures InRange(SkipStep(d, radix, msb, hasNew).value.0, radix)
    ensures |SkipStep(d, radix, msb, hasNew).value.0| == |d|
    ensures !Stops(SkipStep(d, radix, msb, hasNew).value.1, |d|) ==>
      0 <= SkipStep(d, radix, msb, hasNew).value.1 < |d| &&
      Value(d, radix) < Value(SkipStep(d, radix, msb, hasNew).value.0, radix)
  {
    if hasNew {
      IncrBounds(d, radix, 0);
      SkipNewAdvances(d, radix);
    } else {
      IncrBounds(Zeroed(d, msb), radix, msb + 1);
      SkipOldAdvances(d, radix, msb);
    }
  }

  /**
   * With no enumerable property, the test `msb_incr == len(key_list)`
   * misses the index 1 a skipped design returns, and the next skipped
   * design zeroes `current_list[0]` of an empty list; the `>=` test
   * stops there.
   */
  lemma EmptySweepRaises()
    ensures SkipStep([], [], 0, false) == Some(([], 1))
    ensures !StopsAsWritten(1, 0) && Stops(1, 0)
    ensures SkipStep([], [], 1, false).None?
  {
  }

  /** The designs of a sweep, each the round after the one before, no round but the last stopping. */
  ghost predicate Chained(designs: seq<seq<int>>, msbs: seq<nat>, newData: nat -> bool, radix: seq<nat>)
  {
    |msbs| == |designs| &&
    (forall k :: 0 <= k < |designs| ==> |designs[k]| == |radix|) &&
    (forall k :: 0 <= k < |designs| - 1 ==>
      SkipStep(designs[k], radix, msbs[k], newData(k)) == Some((designs[k + 1], msbs[k + 1] as int))) &&
    (forall k :: 1 <= k < |msbs| ==> !Stops(msbs[k], |radix|))
  }

  /**
   * The sweep so far: the designs generated, chained round by round from
   * `first`, each in range and numbered strictly increasingly; `cur` and
   * `msb` the odometer after the last round, `stop` its verdict.
   */
  ghost predicate Swept(designs: seq<seq<int>>, msbs: seq<nat>, newData: nat -> bool, radix: seq<nat>,
                        first: seq<int>, cur: seq<int>, msb: int, stop: bool)
  {
    Chained(designs, msbs, newData, radix) &&
    SweepHead(designs, msbs, newData, radix, first, cur, msb, stop) &&
    SweepOrder(designs, radix, cur, stop)
  }

  /** The odometer after the last round: in range, reached from the last design, and its verdict. */
  ghost predicate SweepHead(designs: seq<seq<int>>, msbs: seq<nat>, newData: nat -> bool, radix: seq<nat>,
                            first: seq<int>, cur: seq<int>, msb: int, stop: bool)
  {
    |msbs| == |designs| && (forall k :: 0 <= k < |designs| ==> |designs[k]| == |radix|) &&
    InRange(cur, radix) && |cur| == |radix| && 0 <= Value(cur, radix) < Place(radix, |radix|) &&
    (!stop ==> 0 <= msb <= |radix|) &&
    (|designs| == 0 ==> !stop && cur == first && msb == 0) &&
    (|designs| > 0 ==>
      designs[0] == first && msbs[0] == 0 &&
      SkipStep(designs[|designs| - 1], radix, msbs[|designs| - 1], newData(|designs| - 1)) == Some((cur, msb)) &&
      (stop <==> Stops(msb, |radix|)))
  }

  /** The designs are in range and numbered strictly increasingly, below `cur` while the sweep goes on. */
  ghost predicate SweepOrder(designs: seq<seq<int>>, radix: seq<nat>, cur: seq<int>, stop: bool)
  {
    |cur| == |radix| && (forall k :: 0 <= k < |designs| ==> |designs[k]| == |radix| && InRange(designs[k], radix)) &&
    (forall k, l :: 0 <= k < l < |designs| ==> Value(designs[k], radix) < Value(designs[l], radix)) &&
    (!stop ==> forall k :: 0 <= k < |designs| ==> Value(designs[k], radix) < Value(cur, radix)) &&
    (!stop ==> |designs| <= Value(cur, radix)) &&
    |designs| <= Place(radix, |radix|)
  }

  /** The sweep starts with no design and the odometer one step past all zeros. */
  lemma SweepStarts(newData: nat -> bool, radix: seq<nat>)
    requires Positive(radix)
    ensures Swept([], [], newData, radix, Incr(Zeros(|radix|), radix, 0).0, Incr(Zeros(|radix|), radix, 0).0, 0, false)
  {
    var z := Zeros(|radix|);
    assert InRange(z, radix);
    IncrBounds(z, radix, 0);
    if |radix| > 0 {
      IncrValue(z, radix, 0);
    }
    ValueBelow(Incr(z, radix, 0).0, radix);
  }

  /** What a finished sweep promises. */
  lemma SweepEnds(designs: seq<seq<int>>, msbs: seq<nat>, newData: nat -> bool, radix: seq<nat>,
                  first: seq<int>, cur: seq<int>, msb: int)
    requires Swept(designs, msbs, newData, radix, first, cur, msb, true)
    ensures |designs| >= 1 && |msbs| == |designs|
    ensures designs[0] == first && msbs[0] == 0
    ensures LastStops(designs, msbs, newData, radix)
    ensures Chained(designs, msbs, newData, radix)
    ensures forall k :: 0 <= k < |designs| ==> InRange(designs[k], radix)
    ensures forall k, l :: 0 <= k < l < |designs| ==> Value(designs[k], radix) < Value(designs[l], radix)
    ensures |designs| <= Place(radix, |radix|)
  {
  }

  /** The last round of a sweep succeeds and stops it. */
  ghost predicate LastStops(designs: seq<seq<int>>, msbs: seq<nat>, newData: nat -> bool, radix: seq<nat>)
  {
    |designs| >= 1 && |msbs| == |designs| && |designs[|designs| - 1]| == |radix| &&
    var s := SkipStep(designs[|designs| - 1], radix, msbs[|designs| - 1], newData(|designs| - 1));
    s.Some? && Stops(s.value.1, |radix|)
  }

  /** A round's result appended to a chain keeps it chained. */
  lemma ChainedSnoc(designs: seq<seq<int>>, msbs: seq<nat>, newData: nat -> bool, radix: seq<nat>,
                    cur: seq<int>, msb: nat)
    requires Chained(designs, msbs, newData, radix) && |cur| == |radix|
    requires |designs| > 0 ==>
      SkipStep(designs[|designs| - 1], radix, msbs[|designs| - 1], newData(|designs| - 1)) == Some((cur, msb as int))
    requires |designs| > 0 ==> !Stops(msb, |radix|)
    ensures Chained(designs + [cur], msbs + [msb], newData, radix)
  {
    var ds := designs + [cur];
    var ms := msbs + [msb];
    assert forall k :: 0 <= k < |designs| ==> ds[k] == designs[k] && ms[k] == msbs[k];
  }

  /** The head of the sweep moves to the round's result. */
  lemma SweepHeadStep(designs: seq<seq<int>>, msbs: seq<nat>, newData: nat -> bool, radix: seq<nat>,
                      first: seq<int>, cur: seq<int>, msb: nat, next: seq<int>, nmsb: int)
    requires SweepHead(designs, msbs, newData, radix, first, cur, msb, false)
    requires SkipStep(cur, radix, msb, newData(|designs|)) == Some((next, nmsb))
    requires InRange(next, radix) && |next| == |radix| && 0 <= Value(next, radix) < Place(radix, |radix|)
    requires !Stops(nmsb, |radix|) ==> 0 <= nmsb < |radix|
    ensures SweepHead(designs + [cur], msbs + [msb], newData, radix, first, next, nmsb, Stops(nmsb, |radix|))
  {
    var ds := designs + [cur];
    assert forall k :: 0 <= k < |designs| ==> ds[k] == designs[k];
  }

  /** The order of the sweep extends to the design just made. */
  lemma SweepOrderStep(designs: seq<seq<int>>, radix: seq<nat>, cur: seq<int>, next: seq<int>, stop: bool)
    requires SweepOrder(designs, radix, cur, false)
    requires InRange(cur, radix) && Value(cur, radix) < Place(radix, |radix|) && |next| == |radix|
    requires !stop ==> Value(cur, radix) < Value(next, radix)
    ensures SweepOrder(designs + [cur], radix, next, stop)
  {
    var ds := designs + [cur];
    forall k | 0 <= k < |ds| ensures |ds[k]| == |radix| && InRange(ds[k], radix) {
      if k < |designs| {
        assert ds[k] == designs[k];
      }
    }
    forall k, l | 0 <= k < l < |ds| ensures Value(ds[k], radix) < Value(ds[l], radix) {
      assert ds[k] == designs[k];
      if l < |designs| {
        assert ds[l] == designs[l];
      }
    }
    if !stop {
      forall k | 0 <= k < |ds| ensures Value(ds[k], radix) < Value(next, radix) {
        if k < |designs| {
          assert ds[k] == designs[k];
        }
      }
    }
  }

  /** One more round of the sweep, to `next` and `nmsb`, keeps it `Swept`, and a round that does not stop moves the number up. */
  lemma SweepStep(designs: seq<seq<int>>, msbs: seq<nat>, newData: nat -> bool, radix: seq<nat>,
                  first: seq<int>, cur: seq<int>, msb: nat, next: seq<int>, nmsb: int)
    requires Positive(radix) && Swept(designs, msbs, newData, radix, first, cur, msb, false)
    requires SkipStep(cur, radix, msb, newData(|designs|)) == Some((next, nmsb))
    ensures Swept(designs + [cur], msbs + [msb], newData, radix, first, next, nmsb, Stops(nmsb, |radix|))
    ensures !Stops(nmsb, |radix|) ==> Value(cur, radix) < Value(next, radix)
  {
    SkipAdvances(cur, radix, msb, newData(|designs|));
    ValueBelow(next, radix);
    ChainedSnoc(designs, msbs, newData, radix, cur, msb);
    SweepHeadStep(designs, msbs, newData, radix, first, cur, msb, next, nmsb);
    SweepOrderStep(designs, radix, cur, next, Stops(nmsb, |radix|));
  }

  /** The odometer state of `create_data.py`: `len_list`, `current_list` and `used_list`. */
  class Odometer {
    const radix: seq<nat>
    const digits: array<int>
    var used: seq<seq<int>>

    /** One digit per property; `used_list` holds no combination twice. */
    ghost predicate Valid()
      reads this
    {
      digits.Length == |radix| &&
      forall k, l :: 0 <= k < l < |used| ==> used[k] != used[l]
    }

    /** `current_list` starts as one 0 per property, `used_list` empty. */
    constructor (radix: seq<nat>)
      ensures Valid()
      ensures this.radix == radix && used == []
      ensures digits[..] == Zeros(|radix|)
      ensures fresh(digits)
    {
      this.radix := radix;
      digits := new int[|radix|](_ => 0);
      used := [];
    }

    /** `incr_current(i)`, carrying through `current_list` in place. */
    method IncrCurrent(i: nat) returns (msb: int)
      requires Valid()
      modifies digits
      ensures (digits[..], msb) == Incr(old(digits[..]), radix, i)
    {
      msb := i;
      if i < digits.Length {
        digits[i] := digits[i] + 1;
        var j := i;
        while j < digits.Length
          invariant i <= j <= digits.Length
          invariant Carry(digits[..], radix, j, msb) == Incr(old(digits[..]), radix, i)
        {
          if digits[j] == radix[j] {
            digits[j] := 0;
            if j + 1 < digits.Length {
              digits[j + 1] := digits[j + 1] + 1;
              msb := j;
            } else {
              msb := -1;
              return;
            }
          }
          j := j + 1;
        }
      }
    }

    /**
     * `random_current`, with the random draws supplied in order: the
     * first draw not yet in `used_list` becomes the current combination
     * and is appended; `false` when every draw given was already used
     * (where the source keeps drawing).
     */
    method RandomCurrent(draws: seq<seq<int>>) returns (found: bool)
      requires Valid()
      requires forall t :: 0 <= t < |draws| ==> |draws[t]| == |radix| && InRange(draws[t], radix)
      modifies this, digits
      ensures Valid()
      ensures found ==> used == old(used) + [digits[..]] && digits[..] !in old(used)
      ensures found ==> exists t :: (0 <= t < |draws| && digits[..] == draws[t] &&
        forall s :: 0 <= s < t ==> draws[s] in old(used))
      ensures !found ==> used == old(used) && forall t :: 0 <= t < |draws| ==> draws[t] in old(used)
    {
      var t := 0;
      while t < |draws|
        invariant 0 <= t <= |draws|
        invariant used == old(used) && Valid()
        invariant forall s :: 0 <= s < t ==> draws[s] in used
      {
        for i := 0 to digits.Length
          modifies digits
          invariant digits[..i] == draws[t][..i]
        {
          digits[i] := draws[t][i];
        }
        assert digits[..] == draws[t];
        if digits[..] !in used {
          used := used + [digits[..]];
          return true;
        }
        t := t + 1;
      }
      return false;
    }

    /** One round of `run_all_skip` after a design, in place. */
    method Advance(msb: nat, hasNew: bool) returns (next: int)
      requires Valid() && msb <= digits.Length
      modifies digits
      ensures SkipStep(old(digits[..]), radix, msb, hasNew) == Some((digits[..], next))
    {
      if hasNew {
        next := IncrCurrent(0);
      } else {
        for i := 0 to msb
          invariant digits[..] == Zeroed(old(digits[..]), i)
        {
          digits[i] := 0;
        }
        next := IncrCurrent(msb + 1);
      }
    }

    /**
     * The sweep of `run_all_skip` from all-zero digits, with `newData(k)`
     * the answer of `add_to_library` for the k-th design, stopping with
     * the `>=` test. Every design is a combination in range, each the
     * round after the one before, numbered strictly increasingly, hence
     * no combination is generated twice and there are at most as many
     * designs as combinations.
     */
    method RunAllSkip(newData: nat -> bool) returns (designs: seq<seq<int>>, ghost msbs: seq<nat>)
      requires Valid() && Positive(radix)
      requires digits[..] == Zeros(|radix|)
      modifies digits
      ensures |designs| >= 1
      ensures Chained(designs, msbs, newData, radix)
      ensures designs[0] == Incr(old(digits[..]), radix, 0).0 && msbs[0] == 0
      ensures LastStops(designs, msbs, newData, radix)
      ensures forall k :: 0 <= k < |designs| ==> InRange(designs[k], radix)
      ensures forall k, l :: 0 <= k < l < |designs| ==> Value(designs[k], radix) < Value(designs[l], radix)
      ensures |designs| <= Place(radix, |radix|)
    {
      var n := digits.Length;
      assert digits[..] == Zeros(n);
      ghost var first := Incr(digits[..], radix, 0).0;
      var msb := IncrCurrent(0);
      msb := 0;
      designs := [];
      msbs := [];
      var stop := false;
      SweepStarts(newData, radix);
      while !stop
        invariant |digits[..]| == n
        invariant Swept(designs, msbs, newData, radix, first, digits[..], msb, stop)
        decreases if stop then 0 else 1, Place(radix, n) - Value(digits[..], radix)
      {
        var d := digits[..];
        var next := Advance(msb, newData(|designs|));
        SweepStep(designs, msbs, newData, radix, first, d, msb, digits[..], next);
        designs := designs + [d];
        msbs := msbs + [msb as nat];
        msb := next;
        stop := Stops(msb, n);
      }
      SweepEnds(designs, msbs, newData, radix, first, digits[..], msb);
    }
  }
}
