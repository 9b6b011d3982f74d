/**
 * The juggling-tools `State` (engine/crates/juggling-tools/src/state_notation/state.rs).
 *
 * A state is a bitmask of the `Bits` integer type: bit 0 is the current beat
 * and a set bit `p` is a prop landing `p` beats from now. The width of `Bits`
 * is chosen by a cargo feature; here it is the parameter `w`, one of the
 * widths the features offer.
 */
module StateNotation {
  import opened Bitmask
  import opened Results
  import Combinatorics

  /** The possible widths of `Bits`, i.e. the possible values of `MAX_MAX_HEIGHT`. */
  type BitsWidth = w: nat | w == 8 || w == 16 || w == 32 || w == 64 || w == 128 witness 32

  /** The width used when no `state-u*` feature is enabled. */
  const DEFAULT_WIDTH: BitsWidth := 32

  datatype State = State(bits: nat)

  datatype StateError =
    | HeightExceedsLimit(maxHeight: nat, limit: nat)
    | BitsAboveHeight(bits: nat, maxHeight: nat)

  /** No prop is scheduled at or beyond `maxHeight` beats from now. */
  predicate ValidFor(s: State, maxHeight: nat)
  {
    s.bits < Pow2(maxHeight)
  }

  /** Some bit at a position `j` with `from <= j < to` is set. */
  predicate SomeBitIn(bits: nat, from: nat, to: nat)
  {
    exists j :: from <= j < to && IsSet(bits, j)
  }

  /**
   * `State::new`: reject a `max_height` above the width of `Bits`, then reject
   * bits at or above `max_height` (checked only when `max_height` is below the
   * width, since a full-width shift would overflow).
   */
  function New(bits: nat, maxHeight: nat, w: BitsWidth): (r: Result<State, StateError>)
    requires bits < Pow2(w)
    ensures maxHeight > w ==> r == Err(HeightExceedsLimit(maxHeight, w))
    ensures maxHeight <= w ==>
      (r.Err? <==> SomeBitIn(bits, maxHeight, w))
    ensures r.Err? && maxHeight <= w ==> r == Err(BitsAboveHeight(bits, maxHeight))
    ensures r.Ok? ==> r.value.bits == bits && ValidFor(r.value, maxHeight)
    ensures maxHeight == w ==> r == Ok(State(bits))
  {
    if maxHeight > w then Err(HeightExceedsLimit(maxHeight, w))
    else
      NewCheck(bits, maxHeight, w);
      if maxHeight < w && Shr(bits, maxHeight) != 0 then Err(BitsAboveHeight(bits, maxHeight))
      else Ok(State(bits))
  }

  /** The shift test of `State::new` is the same as looking for a set bit in `maxHeight .. w-1`. */
  lemma NewCheck(bits: nat, maxHeight: nat, w: nat)
    requires bits < Pow2(w) && maxHeight <= w
    ensures (maxHeight < w && Shr(bits, maxHeight) != 0) <==> SomeBitIn(bits, maxHeight, w)
    ensures Shr(bits, maxHeight) == 0 <==> bits < Pow2(maxHeight)
  {
    ShrZeroIff(bits, maxHeight);
    if SomeBitIn(bits, maxHeight, w) {
      var j :| maxHeight <= j < w && IsSet(bits, j);
      if bits < Pow2(maxHeight) {
        BitAboveBound(bits, maxHeight, j);
      }
    } else if maxHeight < w && bits >= Pow2(maxHeight) {
      assert forall j :: maxHeight <= j < w ==> Bit(bits, j) == 0 by {
        forall j | maxHeight <= j < w
          ensures Bit(bits, j) == 0
        {
          assert !IsSet(bits, j);
        }
      }
      BoundFromClearBits(bits, maxHeight, w);
    }
    if maxHeight == w {
      assert bits < Pow2(maxHeight);
    }
  }

  /** `prop_at(pos)`: is a prop landing `pos` beats from now? The shift overflows for `pos >= w`. */
  function PropAt(s: State, pos: nat, w: BitsWidth): (r: bool)
    requires pos < w
    ensures r <==> s.bits % Pow2(pos + 1) >= Pow2(pos)
  {
    BitFromRemainder(s.bits, pos);
    Shr(s.bits, pos) % 2 != 0
  }

  /** The characters for positions `k-1` down to 0: `on` where a prop is, `'0'` elsewhere. */
  function Render(s: State, k: nat, on: char, w: BitsWidth): (r: string)
    requires k <= w
    ensures |r| == k
    ensures forall i :: 0 <= i < k ==> r[i] == if PropAt(s, k - 1 - i, w) then on else '0'
  {
    if k == 0 then ""
    else [if PropAt(s, k - 1, w) then on else '0'] + Render(s, k - 1, on, w)
  }

  /** `display(max_height)`: `x` for a prop, `0` for an empty beat, furthest beat first. */
  function Display(s: State, maxHeight: nat, w: BitsWidth): (r: string)
    requires maxHeight <= w
    ensures |r| == maxHeight
    ensures forall i :: 0 <= i < maxHeight ==>
      (r[i] == 'x' <==> IsSet(s.bits, maxHeight - 1 - i)) && (r[i] == 'x' || r[i] == '0')
  {
    var r := Render(s, maxHeight, 'x', w);
    forall i | 0 <= i < maxHeight
      ensures r[i] == 'x' <==> IsSet(s.bits, maxHeight - 1 - i)
    {
      BitFromRemainder(s.bits, maxHeight - 1 - i);
    }
    r
  }

  /** `to_binary_string(max_height)`: `1` for a prop, `0` for an empty beat, furthest beat first. */
  function ToBinaryString(s: State, maxHeight: nat, w: BitsWidth): (r: string)
    requires maxHeight <= w
    ensures |r| == maxHeight
    ensures forall i :: 0 <= i < maxHeight ==>
      (r[i] == '1' <==> IsSet(s.bits, maxHeight - 1 - i)) && (r[i] == '1' || r[i] == '0')
  {
    var r := Render(s, maxHeight, '1', w);
    forall i | 0 <= i < maxHeight
      ensures r[i] == '1' <==> IsSet(s.bits, maxHeight - 1 - i)
    {
      BitFromRemainder(s.bits, maxHeight - 1 - i);
    }
    r
  }

  /** The value of a string of `'0'`/`'1'` read most significant character first. */
  function BinaryValue(s: string): nat
  {
    if |s| == 0 then 0 else 2 * BinaryValue(s[..|s| - 1]) + (if s[|s| - 1] == '1' then 1 else 0)
  }

  lemma {:induction false} BinaryValueCons(c: char, t: string)
    ensures BinaryValue([c] + t) == (if c == '1' then Pow2(|t|) else 0) + BinaryValue(t)
    decreases |t|
  {
    if |t| > 0 {
      var u := [c] + t;
      assert u[..|u| - 1] == [c] + t[..|t| - 1];
      BinaryValueCons(c, t[..|t| - 1]);
    }
  }

  lemma {:induction false} RenderValue(s: State, k: nat, w: BitsWidth)
    requires k <= w
    ensures BinaryValue(Render(s, k, '1', w)) == s.bits % Pow2(k)
    decreases k
  {
    if k > 0 {
      RenderValue(s, k - 1, w);
      RenderValueStep(s, k - 1, w);
    }
  }

  lemma RenderValueStep(s: State, j: nat, w: BitsWidth)
    requires j < w && BinaryValue(Render(s, j, '1', w)) == s.bits % Pow2(j)
    ensures BinaryValue(Render(s, j + 1, '1', w)) == s.bits % Pow2(j + 1)
  {
    var c := if PropAt(s, j, w) then '1' else '0';
    var t := Render(s, j, '1', w);
    assert Render(s, j + 1, '1', w) == [c] + t;
    BinaryValueCons(c, t);
    RenderDigitValue(s.bits, j, PropAt(s, j, w));
  }

  lemma RenderDigitValue(bits: nat, j: nat, set_: bool)
    requires set_ <==> bits % Pow2(j + 1) >= Pow2(j)
    ensures (if set_ then Pow2(j) else 0) + bits % Pow2(j) == bits % Pow2(j + 1)
  {
    ModPow2Succ(bits, j);
    BitFromRemainder(bits, j);
  }

  /** Read back as binary, the string of a valid state is its bits. */
  lemma BinaryStringValue(s: State, maxHeight: nat, w: BitsWidth)
    requires maxHeight <= w && ValidFor(s, maxHeight)
    ensures BinaryValue(ToBinaryString(s, maxHeight, w)) == s.bits
  {
    RenderValue(s, maxHeight, w);
    ModOfSmall(s.bits, maxHeight);
  }

  /** `display` shows `x` exactly where `to_binary_string` shows `1`, and `0` elsewhere. */
  lemma DisplayMatchesBinary(s: State, maxHeight: nat, w: BitsWidth)
    requires maxHeight <= w
    ensures |Display(s, maxHeight, w)| == |ToBinaryString(s, maxHeight, w)|
    ensures forall i :: 0 <= i < maxHeight ==>
      (Display(s, maxHeight, w)[i] == 'x' <==> ToBinaryString(s, maxHeight, w)[i] == '1') &&
      (Display(s, maxHeight, w)[i] == '0' <==> ToBinaryString(s, maxHeight, w)[i] == '0')
  {
  }

  // ---------------------------------------------------------------------
  // Enumeration
  // ---------------------------------------------------------------------

  /**
   * `backtrack`: decide positions `maxHeight-1-pos` down to 0, leaving each
   * empty first and then, if props remain, placing one there.
   */
  function Backtrack(maxHeight: nat, pos: nat, propsLeft: nat, current: nat): (r: seq<State>)
    requires pos <= maxHeight
    ensures |r| == Combinatorics.Binom(maxHeight - pos, propsLeft)
    decreases maxHeight - pos
  {
    if propsLeft > maxHeight - pos then
      Combinatorics.BinomAbove(maxHeight - pos, propsLeft);
      []
    else if pos == maxHeight then (if propsLeft == 0 then [State(current)] else [])
    else
      Backtrack(maxHeight, pos + 1, propsLeft, current) +
      (if propsLeft > 0
       then Backtrack(maxHeight, pos + 1, propsLeft - 1, SetBit(current, maxHeight - 1 - pos))
       else [])
  }

  /**
   * `State::generate`: every state with `numProps` props below `maxHeight`,
   * in increasing order of bits, so pairwise distinct and starting at the
   * ground state. Above the width, only zero props or more props than beats
   * stay defined, since those never shift.
   */
  function Generate(numProps: nat, maxHeight: nat, w: BitsWidth): (r: seq<State>)
    requires maxHeight <= w || numProps == 0 || numProps > maxHeight
    ensures |r| == Combinatorics.Binom(maxHeight, numProps)
    ensures forall i :: 0 <= i < |r| ==> Popcount(r[i].bits) == numProps && ValidFor(r[i], maxHeight)
    ensures forall i, j :: 0 <= i < j < |r| ==> r[i].bits < r[j].bits
    ensures forall x: nat :: x < Pow2(maxHeight) && Popcount(x) == numProps ==> State(x) in r
    ensures numProps <= maxHeight ==> |r| > 0 && r[0] == State(LowMask(numProps))
  {
    GenerateFacts(numProps, maxHeight);
    Backtrack(maxHeight, 0, numProps, 0)
  }

  lemma GenerateFacts(numProps: nat, maxHeight: nat)
    ensures var r := Backtrack(maxHeight, 0, numProps, 0);
      && |r| == Combinatorics.Binom(maxHeight, numProps)
      && (forall i :: 0 <= i < |r| ==> Popcount(r[i].bits) == numProps && r[i].bits < Pow2(maxHeight))
      && (forall i, j :: 0 <= i < j < |r| ==> r[i].bits < r[j].bits)
      && (forall x: nat :: x < Pow2(maxHeight) && Popcount(x) == numProps ==> State(x) in r)
      && (numProps <= maxHeight ==> |r| > 0 && r[0] == State(LowMask(numProps)))
  {
    BacktrackIsCombos(maxHeight, 0, maxHeight, numProps, 0);
    var r := Backtrack(maxHeight, 0, numProps, 0);
    var c := Combos(maxHeight, numProps);
    CombosLength(maxHeight, numProps);
    CombosMembers(maxHeight, numProps);
    CombosIncreasing(maxHeight, numProps);
    CombosComplete(maxHeight, numProps);
    if numProps <= maxHeight {
      CombosFirst(maxHeight, numProps);
    }
    forall x: nat | x < Pow2(maxHeight) && Popcount(x) == numProps
      ensures State(x) in r
    {
      var i :| 0 <= i < |c| && c[i] == x;
      assert r[i] == State(x);
    }
  }

  /** Reference enumeration: the `r`-bit values with `k` bits set, in increasing order. */
  function Combos(r: nat, k: nat): seq<nat>
  {
    if k > r then []
    else if r == 0 then [0]
    else Combos(r - 1, k) + (if k > 0 then Offset(Pow2(r - 1), Combos(r - 1, k - 1)) else [])
  }

  function Offset(c: nat, xs: seq<nat>): (r: seq<nat>)
    ensures |r| == |xs| && forall i :: 0 <= i < |xs| ==> r[i] == c + xs[i]
  {
    seq(|xs|, i requires 0 <= i < |xs| => c + xs[i])
  }

  /** `states` is `current` plus each value of `values`, in order. */
  predicate Agrees(states: seq<State>, current: nat, values: seq<nat>)
  {
    |states| == |values| && forall i :: 0 <= i < |values| ==> states[i] == State(current + values[i])
  }

  /**
   * Backtracking from a prefix `current` with `r` positions left to decide
   * lists `current` plus each reference value.
   */
  lemma {:induction false} BacktrackIsCombos(maxHeight: nat, pos: nat, r: nat, k: nat, current: nat)
    requires pos + r == maxHeight && current % Pow2(r) == 0
    ensures Agrees(Backtrack(maxHeight, pos, k, current), current, Combos(r, k))
    decreases r
  {
    if k > r {
      assert Backtrack(maxHeight, pos, k, current) == [] && Combos(r, k) == [];
    } else if r == 0 {
      assert Backtrack(maxHeight, pos, k, current) == [State(current)] && Combos(r, k) == [0];
    } else {
      PrefixFacts(current, r);
      BacktrackIsCombos(maxHeight, pos + 1, r - 1, k, current);
      if k > 0 {
        BacktrackIsCombos(maxHeight, pos + 1, r - 1, k - 1, current + Pow2(r - 1));
        PlaceOrSkip(maxHeight, pos, r, k, current);
      } else {
        SkipOnly(maxHeight, pos, r, current);
      }
    }
  }

  /** With props left, the list is the lists without and with a prop at `r - 1`, concatenated. */
  lemma PlaceOrSkip(maxHeight: nat, pos: nat, r: nat, k: nat, current: nat)
    requires pos + r == maxHeight && 0 < k <= r
    requires SetBit(current, r - 1) == current + Pow2(r - 1)
    requires Agrees(Backtrack(maxHeight, pos + 1, k, current), current, Combos(r - 1, k))
    requires Agrees(Backtrack(maxHeight, pos + 1, k - 1, current + Pow2(r - 1)), current + Pow2(r - 1), Combos(r - 1, k - 1))
    ensures Agrees(Backtrack(maxHeight, pos, k, current), current, Combos(r, k))
  {
    var p := Pow2(r - 1);
    var skip := Backtrack(maxHeight, pos + 1, k, current);
    var place := Backtrack(maxHeight, pos + 1, k - 1, current + p);
    assert Backtrack(maxHeight, pos, k, current) == skip + place by {
      BacktrackUnfold(maxHeight, pos, r, k, current);
    }
    assert Combos(r, k) == Combos(r - 1, k) + Offset(p, Combos(r - 1, k - 1)) by {
      CombosUnfold(r, k);
    }
    ConcatAgree(skip, Combos(r - 1, k), place, Combos(r - 1, k - 1), current, p);
  }

  /** With no props left, every remaining position stays empty. */
  lemma SkipOnly(maxHeight: nat, pos: nat, r: nat, current: nat)
    requires pos + r == maxHeight && 0 < r
    requires Agrees(Backtrack(maxHeight, pos + 1, 0, current), current, Combos(r - 1, 0))
    ensures Agrees(Backtrack(maxHeight, pos, 0, current), current, Combos(r, 0))
  {
    assert Backtrack(maxHeight, pos, 0, current) == Backtrack(maxHeight, pos + 1, 0, current);
    assert Combos(r, 0) == Combos(r - 1, 0);
  }

  lemma CombosUnfold(r: nat, k: nat)
    requires 0 < r && k <= r
    ensures Combos(r, k) == Combos(r - 1, k) + (if k > 0 then Offset(Pow2(r - 1), Combos(r - 1, k - 1)) else [])
  {
  }

  /** One level of the recursion, with the decided position written as `r - 1`. */
  lemma BacktrackUnfold(maxHeight: nat, pos: nat, r: nat, k: nat, current: nat)
    requires pos + r == maxHeight && 0 < r && k <= r
    ensures Backtrack(maxHeight, pos, k, current) == Backtrack(maxHeight, pos + 1, k, current) +
      (if k > 0 then Backtrack(maxHeight, pos + 1, k - 1, SetBit(current, r - 1)) else [])
  {
    assert maxHeight - 1 - pos == r - 1;
  }

  /** A prefix with the low `r` bits clear leaves bit `r-1` free, and setting it keeps `r-1` bits clear. */
  lemma PrefixFacts(current: nat, r: nat)
    requires r > 0 && current % Pow2(r) == 0
    ensures Bit(current, r - 1) == 0 && current % Pow2(r - 1) == 0
    ensures SetBit(current, r - 1) == current + Pow2(r - 1)
    ensures (current + Pow2(r - 1)) % Pow2(r - 1) == 0
  {
    var p := Pow2(r - 1);
    ModPow2Succ(current, r - 1);
    assert Bit(current, r - 1) * p >= 0;
    DivModUnique(current + p, p, current / p + 1, 0);
  }

  /** Two agreeing halves agree as a whole, the second shifted by `p`. */
  lemma ConcatAgree(b1: seq<State>, c1: seq<nat>, b2: seq<State>, c2: seq<nat>, cur: nat, p: nat)
    requires Agrees(b1, cur, c1) && Agrees(b2, cur + p, c2)
    ensures Agrees(b1 + b2, cur, c1 + Offset(p, c2))
  {
    var c := c1 + Offset(p, c2);
    forall i | 0 <= i < |c|
      ensures (b1 + b2)[i] == State(cur + c[i])
    {
      if i >= |c1| {
        assert c[i] == p + c2[i - |c1|];
      }
    }
  }

  lemma {:induction false} CombosLength(r: nat, k: nat)
    ensures |Combos(r, k)| == Combinatorics.Binom(r, k)
    decreases r
  {
    if k > r {
      Combinatorics.BinomAbove(r, k);
    } else if r > 0 {
      CombosLength(r - 1, k);
      if k > 0 {
        CombosLength(r - 1, k - 1);
      }
    }
  }

  /** Every value of `xs` fits in `r` positions and has `k` props. */
  predicate AllFit(xs: seq<nat>, r: nat, k: nat)
  {
    forall i :: 0 <= i < |xs| ==> xs[i] < Pow2(r) && Popcount(xs[i]) == k
  }

  predicate MembersFit(r: nat, k: nat)
  {
    AllFit(Combos(r, k), r, k)
  }

  predicate Ascending(xs: seq<nat>)
  {
    forall i, j :: 0 <= i < j < |xs| ==> xs[i] < xs[j]
  }

  lemma {:induction false} CombosMembers(r: nat, k: nat)
    ensures MembersFit(r, k)
    decreases r
  {
    if k > r {
      assert Combos(r, k) == [];
    } else if k == 0 {
      CombosNone(r);
    } else {
      CombosMembers(r - 1, k);
      CombosMembers(r - 1, k - 1);
      MembersStep(r, k);
    }
  }

  /** Values without a prop at `r - 1` already fit; the others gain exactly that prop. */
  lemma MembersStep(r: nat, k: nat)
    requires 0 < k <= r && MembersFit(r - 1, k) && MembersFit(r - 1, k - 1)
    ensures MembersFit(r, k)
  {
    CombosStep(r, k);
    FitsConcat(Combos(r, k), Combos(r - 1, k), Combos(r - 1, k - 1), r, k);
  }

  /** Values without a prop at `r - 1` already fit; the others gain exactly that prop. */
  lemma FitsConcat(c: seq<nat>, a: seq<nat>, xs: seq<nat>, r: nat, k: nat)
    requires 0 < k && 0 < r && c == a + Offset(Pow2(r - 1), xs)
    requires AllFit(a, r - 1, k) && AllFit(xs, r - 1, k - 1)
    ensures AllFit(c, r, k)
  {
    forall i | 0 <= i < |c|
      ensures c[i] < Pow2(r) && Popcount(c[i]) == k
    {
      if i < |a| {
        assert c[i] == a[i];
        LowFits(a[i], r);
      } else {
        OffsetIndex(c, a, xs, Pow2(r - 1), i - |a|);
        HighFits(xs[i - |a|], r);
      }
    }
  }

  lemma LowFits(y: nat, r: nat)
    requires 0 < r && y < Pow2(r - 1)
    ensures y < Pow2(r)
  {
  }

  /** Placing a prop at `r - 1` above a value below `2^(r-1)` adds one prop and stays below `2^r`. */
  lemma HighFits(y: nat, r: nat)
    requires 0 < r && y < Pow2(r - 1)
    ensures Pow2(r - 1) + y < Pow2(r) && Popcount(Pow2(r - 1) + y) == Popcount(y) + 1
  {
    BitAboveBound(y, r - 1, r - 1);
    PopcountAddPow2(y, r - 1);
  }

  lemma {:induction false} CombosIncreasing(r: nat, k: nat)
    ensures Ascending(Combos(r, k))
    decreases r
  {
    if k > r {
      assert Combos(r, k) == [];
    } else if k == 0 {
      CombosNone(r);
    } else {
      CombosIncreasing(r - 1, k);
      CombosIncreasing(r - 1, k - 1);
      CombosMembers(r - 1, k);
      IncreasingStep(r, k);
    }
  }

  /** The values with a prop at `r - 1` all lie above those without. */
  lemma IncreasingStep(r: nat, k: nat)
    requires 0 < k <= r && MembersFit(r - 1, k)
    requires Ascending(Combos(r - 1, k)) && Ascending(Combos(r - 1, k - 1))
    ensures Ascending(Combos(r, k))
  {
    CombosStep(r, k);
    OffsetAscending(Combos(r, k), Combos(r - 1, k), Combos(r - 1, k - 1), Pow2(r - 1));
  }

  /** Appending values shifted past every earlier value keeps a list ascending. */
  lemma OffsetAscending(c: seq<nat>, a: seq<nat>, xs: seq<nat>, p: nat)
    requires c == a + Offset(p, xs) && Ascending(a) && Ascending(xs)
    requires forall i :: 0 <= i < |a| ==> a[i] < p
    ensures Ascending(c)
  {
    forall i, j | 0 <= i < j < |c|
      ensures c[i] < c[j]
    {
      if j >= |a| {
        OffsetIndex(c, a, xs, p, j - |a|);
        if i >= |a| {
          OffsetIndex(c, a, xs, p, i - |a|);
        }
      }
    }
  }

  lemma CombosComplete(r: nat, k: nat)
    ensures forall x: nat :: x < Pow2(r) && Popcount(x) == k ==> x in Combos(r, k)
  {
    forall x: nat | x < Pow2(r) && Popcount(x) == k
      ensures x in Combos(r, k)
    {
      CombosHas(r, k, x);
    }
  }

  lemma {:induction false} CombosHas(r: nat, k: nat, x: nat)
    requires x < Pow2(r) && Popcount(x) == k
    ensures x in Combos(r, k)
    decreases r
  {
    PopcountBound(x, r);
    if r == 0 {
      assert Combos(r, k) == [0];
    } else if x < Pow2(r - 1) {
      CombosHas(r - 1, k, x);
      HasLow(r, k, x);
    } else {
      var p := Pow2(r - 1);
      var y := x - p;
      TopBitSplit(x, r - 1);
      assert y < p && Popcount(y) + 1 == k;
      CombosHas(r - 1, k - 1, y);
      HasHigh(r, k, x, p);
    }
  }

  /** A reference value without a prop at `r - 1` stays listed one level up. */
  lemma HasLow(r: nat, k: nat, x: nat)
    requires 0 < r && k <= r && x in Combos(r - 1, k)
    ensures x in Combos(r, k)
  {
    var i :| 0 <= i < |Combos(r - 1, k)| && Combos(r - 1, k)[i] == x;
    HasWithout(r, k, i);
  }

  /** A reference value with a prop at `r - 1` is listed when the rest of it is. */
  lemma HasHigh(r: nat, k: nat, x: nat, p: nat)
    requires 0 < k <= r && p == Pow2(r - 1) && p <= x && x - p in Combos(r - 1, k - 1)
    ensures x in Combos(r, k)
  {
    CombosStep(r, k);
    OffsetMember(Combos(r, k), Combos(r - 1, k), Combos(r - 1, k - 1), p, x - p);
  }

  lemma OffsetMember(c: seq<nat>, a: seq<nat>, xs: seq<nat>, p: nat, y: nat)
    requires c == a + Offset(p, xs) && y in xs
    ensures p + y in c
  {
    var i :| 0 <= i < |xs| && xs[i] == y;
    OffsetIndex(c, a, xs, p, i);
  }

  /** A value of at least `2^j` below `2^(j+1)` is `2^j` plus a value below `2^j` with one bit fewer. */
  lemma TopBitSplit(x: nat, j: nat)
    requires Pow2(j) <= x < Pow2(j + 1)
    ensures x - Pow2(j) < Pow2(j) && Popcount(x) == Popcount(x - Pow2(j)) + 1
  {
    var y := x - Pow2(j);
    BitAboveBound(y, j, j);
    PopcountAddPow2(y, j);
  }

  /** The reference values without a prop at `r - 1` come first, unchanged. */
  lemma HasWithout(r: nat, k: nat, i: nat)
    requires 0 < r && k <= r && i < |Combos(r - 1, k)|
    ensures i < |Combos(r, k)| && Combos(r, k)[i] == Combos(r - 1, k)[i]
  {
    CombosUnfold(r, k);
  }

  lemma OffsetIndex(c: seq<nat>, a: seq<nat>, xs: seq<nat>, p: nat, i: nat)
    requires c == a + Offset(p, xs) && i < |xs|
    ensures |a| + i < |c| && c[|a| + i] == p + xs[i]
  {
  }

  /** The first reference value is the mask of the `k` lowest positions. */
  predicate StartsWithMask(r: nat, k: nat)
  {
    |Combos(r, k)| > 0 && Combos(r, k)[0] == LowMask(k)
  }

  lemma {:induction false} CombosFirst(r: nat, k: nat)
    requires k <= r
    ensures StartsWithMask(r, k)
    decreases r
  {
    if r == 0 {
      CombosNone(r);
    } else if k == r {
      var j := r - 1;
      CombosFirst(j, j);
      FirstWhenFull(j);
    } else {
      CombosFirst(r - 1, k);
      FirstWhenSpare(r, k);
    }
  }

  /** With a position to spare, the first value leaves position `r - 1` empty. */
  lemma FirstWhenSpare(r: nat, k: nat)
    requires k < r && StartsWithMask(r - 1, k)
    ensures StartsWithMask(r, k)
  {
    HasWithout(r, k, 0);
  }

  /** With every position taken, the only value is `2^j` above the full mask one level down. */
  lemma FirstWhenFull(j: nat)
    requires StartsWithMask(j, j)
    ensures StartsWithMask(j + 1, j + 1)
  {
    CombosStep(j + 1, j + 1);
    assert Combos(j, j + 1) == [];
    OffsetIndex(Combos(j + 1, j + 1), [], Combos(j, j), Pow2(j), 0);
  }

  /** The states the crate's tests list for three props and height five, in generation order. */
  lemma GenerateThreeInFive()
    ensures Generate(3, 5, DEFAULT_WIDTH) ==
      [State(0x07), State(0x0B), State(0x0D), State(0x0E), State(0x13),
       State(0x15), State(0x16), State(0x19), State(0x1A), State(0x1C)]
  {
    var c := Combos(5, 3);
    CombosFiveThree();
    LiftTen();
    GenerateIsCombos(3, 5, DEFAULT_WIDTH);
  }

  lemma LiftTen()
    ensures Lift([7, 11, 13, 14, 19, 21, 22, 25, 26, 28]) ==
      [State(0x07), State(0x0B), State(0x0D), State(0x0E), State(0x13),
       State(0x15), State(0x16), State(0x19), State(0x1A), State(0x1C)]
  {
  }

  lemma GenerateIsCombos(numProps: nat, maxHeight: nat, w: BitsWidth)
    requires maxHeight <= w
    ensures Generate(numProps, maxHeight, w) == Lift(Combos(maxHeight, numProps))
  {
    BacktrackIsCombos(maxHeight, 0, maxHeight, numProps, 0);
  }

  function Lift(xs: seq<nat>): (r: seq<State>)
    ensures |r| == |xs| && forall i :: 0 <= i < |xs| ==> r[i] == State(xs[i])
  {
    seq(|xs|, i requires 0 <= i < |xs| => State(xs[i]))
  }

  lemma CombosStep(r: nat, k: nat)
    requires 0 < k <= r
    ensures Combos(r, k) == Combos(r - 1, k) + Offset(Pow2(r - 1), Combos(r - 1, k - 1))
  {
  }

  lemma CombosNone(r: nat)
    ensures Combos(r, 0) == [0]
  {
  }

  lemma CombosSmall()
    ensures Combos(2, 1) == [1, 2] && Combos(2, 2) == [3] && Combos(3, 1) == [1, 2, 4]
  {
    CombosNone(0);
    CombosNone(1);
    CombosNone(2);
    CombosStep(1, 1);
    CombosStep(2, 1);
    CombosStep(2, 2);
    CombosStep(3, 1);
  }

  lemma CombosFour()
    ensures Combos(4, 2) == [3, 5, 6, 9, 10, 12] && Combos(4, 3) == [7, 11, 13, 14]
  {
    CombosSmall();
    CombosStep(3, 2);
    CombosStep(3, 3);
    CombosStep(4, 2);
    CombosStep(4, 3);
  }

  lemma CombosFiveThree()
    ensures Combos(5, 3) == [7, 11, 13, 14, 19, 21, 22, 25, 26, 28]
  {
    CombosFour();
    CombosStep(5, 3);
  }

  /** The crate's tests of construction: the limit on `max_height` and the bits above it. */
  lemma NewExamples()
    ensures New(0x05, 5, DEFAULT_WIDTH) == Ok(State(0x05))
    ensures New(0, 33, DEFAULT_WIDTH).Err?
    ensures New(0x20, 5, DEFAULT_WIDTH).Err?
    ensures New(LowMask(32), 32, DEFAULT_WIDTH).Ok?
  {
    assert Pow2(5) == 32 && Pow2(6) == 64;
    Pow2Monotonic(6, 32);
    assert Shr(0x05, 5) == 0 && Shr(0x20, 5) == 1;
  }

  /** The crate's test of `prop_at` on `0b1010`. */
  lemma PropAtExample()
    ensures !PropAt(State(0x0A), 0, DEFAULT_WIDTH) && PropAt(State(0x0A), 1, DEFAULT_WIDTH)
    ensures !PropAt(State(0x0A), 2, DEFAULT_WIDTH) && PropAt(State(0x0A), 3, DEFAULT_WIDTH)
  {
    assert Pow2(1) == 2 && Pow2(2) == 4 && Pow2(3) == 8 && Pow2(4) == 16;
  }

  /** The positions of `0b10110`. */
  lemma BitsOf22()
    ensures IsSet(0x16, 4) && !IsSet(0x16, 3) && IsSet(0x16, 2) && IsSet(0x16, 1) && !IsSet(0x16, 0)
  {
    assert Pow2(1) == 2 && Pow2(2) == 4 && Pow2(3) == 8 && Pow2(4) == 16;
  }

  /** The crate's test of `display` on `0b10110`. */
  lemma DisplayExample()
    ensures Display(State(0x16), 5, DEFAULT_WIDTH) == "x0xx0"
  {
    BitsOf22();
    var r := Display(State(0x16), 5, DEFAULT_WIDTH);
    assert r[0] == 'x' && r[1] == '0' && r[2] == 'x' && r[3] == 'x' && r[4] == '0';
  }

  /** The crate's test of `to_binary_string` on `0b10110`. */
  lemma BinaryStringExample()
    ensures ToBinaryString(State(0x16), 5, DEFAULT_WIDTH) == "10110"
  {
    BitsOf22();
    var r := ToBinaryString(State(0x16), 5, DEFAULT_WIDTH);
    assert r[0] == '1' && r[1] == '0' && r[2] == '1' && r[3] == '1' && r[4] == '0';
  }
}
