/**
 * `Transition::from_state` of the juggling-tools crate
 * (engine/crates/juggling-tools/src/state_notation/transition.rs): the
 * successor rule of state notation. Every beat the state shifts right by one;
 * a prop that lands (bit 0 set) is rethrown into an empty future beat `p`
 * with height `p + 1`, otherwise the beat is a 0-throw.
 */
module StateTransition {
  import opened Bitmask
  import opened StateNotation
  import opened Text

  /**
   * One throw between two states. The crate's getters `from`, `to` and
   * `throw_height` are the datatype's fields.
   */
  datatype Transition = Transition(from: State, to: State, throwHeight: nat, maxHeight: nat)

  /** The landing prop rethrown with height `h`, i.e. into empty slot `h - 1` of `shifted`. */
  predicate IsRethrow(t: Transition, s: State, shifted: nat, maxHeight: nat)
  {
    && t.from == s && t.maxHeight == maxHeight
    && 1 <= t.throwHeight <= maxHeight
    && Bit(shifted, t.throwHeight - 1) == 0
    && t.to == State(shifted + Pow2(t.throwHeight - 1))
  }

  /** The loop of `from_state` over `bit_pos` in `pos .. maxHeight-1`. */
  function Rethrows(s: State, shifted: nat, pos: nat, maxHeight: nat): (r: seq<Transition>)
    requires pos <= maxHeight
    ensures |r| <= maxHeight - pos
    ensures forall i :: 0 <= i < |r| ==>
      r[i].from == s && r[i].maxHeight == maxHeight && pos < r[i].throwHeight <= maxHeight
    decreases maxHeight - pos
  {
    if pos == maxHeight then []
    else
      var rest := Rethrows(s, shifted, pos + 1, maxHeight);
      if Bit(shifted, pos) == 0
      then [Transition(s, State(SetBit(shifted, pos)), pos + 1, maxHeight)] + rest
      else rest
  }

  lemma {:induction false} RethrowsSound(s: State, shifted: nat, pos: nat, maxHeight: nat)
    requires pos <= maxHeight
    ensures forall t :: t in Rethrows(s, shifted, pos, maxHeight) ==>
      IsRethrow(t, s, shifted, maxHeight) && pos < t.throwHeight
    decreases maxHeight - pos
  {
    if pos < maxHeight {
      var r := Rethrows(s, shifted, pos, maxHeight);
      var rest := Rethrows(s, shifted, pos + 1, maxHeight);
      RethrowsSound(s, shifted, pos + 1, maxHeight);
      if Bit(shifted, pos) == 0 {
        var t := Transition(s, State(SetBit(shifted, pos)), pos + 1, maxHeight);
        assert r == [t] + rest;
        assert SetBit(shifted, pos) == shifted + Pow2(pos);
      }
    }
  }

  /** Throw heights strictly increase along the list. */
  predicate HeightsIncreasing(ts: seq<Transition>)
  {
    forall i, j :: 0 <= i < j < |ts| ==> ts[i].throwHeight < ts[j].throwHeight
  }

  lemma {:induction false} RethrowsIncreasing(s: State, shifted: nat, pos: nat, maxHeight: nat)
    requires pos <= maxHeight
    ensures HeightsIncreasing(Rethrows(s, shifted, pos, maxHeight))
    decreases maxHeight - pos
  {
    if pos < maxHeight {
      var rest := Rethrows(s, shifted, pos + 1, maxHeight);
      RethrowsIncreasing(s, shifted, pos + 1, maxHeight);
      if Bit(shifted, pos) == 0 {
        ConsIncreasing(Transition(s, State(SetBit(shifted, pos)), pos + 1, maxHeight), rest);
      }
    }
  }

  /** A throw lower than every later one keeps the heights increasing. */
  lemma ConsIncreasing(t: Transition, rest: seq<Transition>)
    requires HeightsIncreasing(rest)
    requires forall k :: 0 <= k < |rest| ==> t.throwHeight < rest[k].throwHeight
    ensures HeightsIncreasing([t] + rest)
  {
    var r := [t] + rest;
    forall i, j | 0 <= i < j < |r|
      ensures r[i].throwHeight < r[j].throwHeight
    {
      assert r[j] == rest[j - 1];
      if i > 0 {
        assert r[i] == rest[i - 1];
      }
    }
  }

  lemma {:induction false} RethrowsComplete(s: State, shifted: nat, pos: nat, maxHeight: nat)
    requires pos <= maxHeight
    ensures forall p :: pos <= p < maxHeight && Bit(shifted, p) == 0 ==>
      exists t :: t in Rethrows(s, shifted, pos, maxHeight) && t.throwHeight == p + 1
    decreases maxHeight - pos
  {
    if pos < maxHeight {
      var r := Rethrows(s, shifted, pos, maxHeight);
      var rest := Rethrows(s, shifted, pos + 1, maxHeight);
      RethrowsComplete(s, shifted, pos + 1, maxHeight);
      assert forall t :: t in rest ==> t in r;
      if Bit(shifted, pos) == 0 {
        assert r[0] in r && r[0].throwHeight == pos + 1;
      }
    }
  }

  lemma {:induction false} RethrowsCount(s: State, shifted: nat, pos: nat, maxHeight: nat)
    requires pos <= maxHeight
    ensures |Rethrows(s, shifted, pos, maxHeight)| + CountBelow(shifted, maxHeight) ==
      maxHeight - pos + CountBelow(shifted, pos)
    decreases maxHeight - pos
  {
    if pos < maxHeight {
      RethrowsCount(s, shifted, pos + 1, maxHeight);
    }
  }

  /** Every transition of `r` is a rethrow of the landing prop. */
  predicate AllRethrows(r: seq<Transition>, s: State, shifted: nat, maxHeight: nat)
  {
    forall t :: t in r ==> IsRethrow(t, s, shifted, maxHeight)
  }

  /** Every empty slot below `maxHeight` is the landing slot of some transition of `r`. */
  predicate CoversEmptySlots(r: seq<Transition>, shifted: nat, maxHeight: nat)
  {
    forall p :: 0 <= p < maxHeight && Bit(shifted, p) == 0 ==> exists t :: t in r && t.throwHeight == p + 1
  }

  /** Every transition of `r` starts at `s` and carries `maxHeight`. */
  predicate AllFrom(r: seq<Transition>, s: State, maxHeight: nat)
  {
    forall t :: t in r ==> t.from == s && t.maxHeight == maxHeight
  }

  /**
   * `Transition::from_state(state, max_height)`. The shifts `shifted >> bit_pos`
   * overflow unless `max_height` fits the width, which the loop needs only
   * when a prop lands.
   */
  function FromState(s: State, maxHeight: nat, w: BitsWidth): (r: seq<Transition>)
    requires s.bits < Pow2(w) && maxHeight < 256
    requires IsSet(s.bits, 0) ==> maxHeight <= w
    ensures !IsSet(s.bits, 0) ==> r == [Transition(s, State(s.bits / 2), 0, maxHeight)]
    ensures IsSet(s.bits, 0) ==>
      && AllRethrows(r, s, s.bits / 2, maxHeight)
      && CoversEmptySlots(r, s.bits / 2, maxHeight)
      && |r| + CountBelow(s.bits / 2, maxHeight) == maxHeight
    ensures HeightsIncreasing(r)
    ensures AllFrom(r, s, maxHeight)
  {
    assert Shr(s.bits, 1) == s.bits / 2;
    RethrowsSound(s, s.bits / 2, 0, maxHeight);
    RethrowsIncreasing(s, s.bits / 2, 0, maxHeight);
    RethrowsComplete(s, s.bits / 2, 0, maxHeight);
    RethrowsCount(s, s.bits / 2, 0, maxHeight);
    if Shr(s.bits, 0) % 2 != 0 then Rethrows(s, Shr(s.bits, 1), 0, maxHeight)
    else [Transition(s, State(Shr(s.bits, 1)), 0, maxHeight)]
  }

  /** Every transition keeps the number of props. */
  lemma PreservesPopcount(s: State, maxHeight: nat, w: BitsWidth, t: Transition)
    requires s.bits < Pow2(w) && maxHeight < 256
    requires IsSet(s.bits, 0) ==> maxHeight <= w
    requires t in FromState(s, maxHeight, w)
    ensures Popcount(t.from.bits) == Popcount(t.to.bits)
  {
    if IsSet(s.bits, 0) {
      assert IsRethrow(t, s, s.bits / 2, maxHeight);
      RethrowKeepsPopcount(s, t, maxHeight);
    } else {
      assert t == Transition(s, State(s.bits / 2), 0, maxHeight);
      ShiftKeepsPopcount(s.bits);
    }
  }

  /** A rethrow moves the landing prop into an empty slot. */
  lemma RethrowKeepsPopcount(s: State, t: Transition, maxHeight: nat)
    requires IsSet(s.bits, 0) && IsRethrow(t, s, s.bits / 2, maxHeight)
    ensures Popcount(t.from.bits) == Popcount(t.to.bits)
  {
    var bits := s.bits;
    var p := t.throwHeight - 1;
    PopcountHalf(bits);
    assert Bit(bits, 0) == bits % 2;
    PopcountAddPow2(bits / 2, p);
  }

  /** A 0-throw only shifts an empty slot out. */
  lemma ShiftKeepsPopcount(bits: nat)
    requires !IsSet(bits, 0)
    ensures Popcount(bits) == Popcount(bits / 2)
  {
    PopcountHalf(bits);
    assert Bit(bits, 0) == bits % 2;
  }

  /** From a state valid for `maxHeight`, every destination is valid for `maxHeight`. */
  lemma DestinationsValid(s: State, maxHeight: nat, w: BitsWidth, t: Transition)
    requires s.bits < Pow2(w) && maxHeight < 256
    requires IsSet(s.bits, 0) ==> maxHeight <= w
    requires ValidFor(s, maxHeight) && t in FromState(s, maxHeight, w)
    ensures ValidFor(t.to, maxHeight)
  {
    var shifted := s.bits / 2;
    if IsSet(s.bits, 0) {
      assert IsRethrow(t, s, shifted, maxHeight);
      RethrowValid(s, t, maxHeight);
    } else {
      assert t == Transition(s, State(shifted), 0, maxHeight);
    }
  }

  /** A rethrow from a valid state fills a slot below `maxHeight`. */
  lemma RethrowValid(s: State, t: Transition, maxHeight: nat)
    requires ValidFor(s, maxHeight) && IsRethrow(t, s, s.bits / 2, maxHeight)
    ensures ValidFor(t.to, maxHeight)
  {
    var shifted, p := s.bits / 2, t.throwHeight - 1;
    SetBitBound(shifted, p, maxHeight);
    assert SetBit(shifted, p) == shifted + Pow2(p);
  }

  /** A state with no more props than `maxHeight` always has a successor. */
  lemma HasTransition(s: State, maxHeight: nat, w: BitsWidth)
    requires s.bits < Pow2(w) && maxHeight < 256
    requires IsSet(s.bits, 0) ==> maxHeight <= w
    requires Popcount(s.bits) <= maxHeight
    ensures |FromState(s, maxHeight, w)| > 0
  {
    if IsSet(s.bits, 0) {
      LandingLeavesRoom(s.bits, maxHeight);
    }
  }

  /** With a prop landing, fewer than `maxHeight` of the slots after the shift are taken. */
  lemma LandingLeavesRoom(bits: nat, maxHeight: nat)
    requires IsSet(bits, 0) && Popcount(bits) <= maxHeight
    ensures CountBelow(bits / 2, maxHeight) < maxHeight
  {
    assert Popcount(bits) == 1 + Popcount(bits / 2);
    CountBelowLePopcount(bits / 2, maxHeight);
  }

  /** `Display for Transition`: the destination's `x`/`0` display, then the height in parentheses. */
  function TransitionText(t: Transition, w: BitsWidth): (r: string)
    requires t.maxHeight <= w
    ensures |r| == t.maxHeight + 3 + |Decimal(t.throwHeight)|
    ensures r[..t.maxHeight] == Display(t.to, t.maxHeight, w)
    ensures r[t.maxHeight..t.maxHeight + 2] == " (" && r[|r| - 1] == ')'
  {
    Display(t.to, t.maxHeight, w) + " (" + Decimal(t.throwHeight) + ")"
  }

  /** The height can be read back from between the parentheses of the text. */
  lemma TransitionTextHeight(t: Transition, w: BitsWidth)
    requires t.maxHeight <= w
    ensures var r := TransitionText(t, w);
      AllDigits(r[t.maxHeight + 2..|r| - 1]) && DecimalValue(r[t.maxHeight + 2..|r| - 1]) == t.throwHeight
  {
    var r := TransitionText(t, w);
    assert r[t.maxHeight + 2..|r| - 1] == Decimal(t.throwHeight);
    DecimalRoundTrip(t.throwHeight);
  }

  /** The crate's tests: a 0-throw, and a single possible rethrow. */
  lemma FromStateSmallExamples()
    ensures FromState(State(0x06), 3, DEFAULT_WIDTH) == [Transition(State(0x06), State(0x03), 0, 3)]
    ensures FromState(State(0x07), 3, DEFAULT_WIDTH) == [Transition(State(0x07), State(0x07), 3, 3)]
  {
    assert !IsSet(0x06, 0) && IsSet(0x07, 0);
    var s := State(0x07);
    assert Bit(3, 0) == 1 && Bit(3, 1) == 1 && Bit(3, 2) == 0;
    assert SetBit(3, 2) == 7;
    assert Rethrows(s, 3, 3, 3) == [];
    assert Rethrows(s, 3, 2, 3) == [Transition(s, State(0x07), 3, 3)];
    assert Rethrows(s, 3, 1, 3) == Rethrows(s, 3, 2, 3);
    assert Rethrows(s, 3, 0, 3) == Rethrows(s, 3, 1, 3);
  }

  /** The crate's ground-state test: from `00111` at height 5 the throws are 3, 4 and 5. */
  lemma FromStateGroundExample()
    ensures FromState(State(0x07), 5, DEFAULT_WIDTH) ==
      [Transition(State(0x07), State(0x07), 3, 5),
       Transition(State(0x07), State(0x0B), 4, 5),
       Transition(State(0x07), State(0x13), 5, 5)]
  {
    assert IsSet(0x07, 0) && Shr(0x07, 1) == 3;
    GroundRethrows();
  }

  /** After the shift `00111` is `00011`: slots 2, 3 and 4 are free. */
  lemma GroundRethrows()
    ensures Rethrows(State(0x07), 3, 0, 5) ==
      [Transition(State(0x07), State(0x07), 3, 5),
       Transition(State(0x07), State(0x0B), 4, 5),
       Transition(State(0x07), State(0x13), 5, 5)]
  {
    var s := State(0x07);
    GroundBits();
    assert Rethrows(s, 3, 4, 5) == [Transition(s, State(0x13), 5, 5)];
    assert Rethrows(s, 3, 3, 5) == [Transition(s, State(0x0B), 4, 5)] + Rethrows(s, 3, 4, 5);
    assert Rethrows(s, 3, 2, 5) == [Transition(s, State(0x07), 3, 5)] + Rethrows(s, 3, 3, 5);
    assert Rethrows(s, 3, 1, 5) == Rethrows(s, 3, 2, 5);
  }

  lemma GroundBits()
    ensures Bit(3, 0) == 1 && Bit(3, 1) == 1 && Bit(3, 2) == 0 && Bit(3, 3) == 0 && Bit(3, 4) == 0
    ensures SetBit(3, 2) == 0x07 && SetBit(3, 3) == 0x0B && SetBit(3, 4) == 0x13
  {
    assert Pow2(2) == 4 && Pow2(3) == 8 && Pow2(4) == 16;
  }

  /** The crate's test that occupied slots are skipped: from `10101` the throws are 1, 3 and 5. */
  lemma FromStateSkipExample()
    ensures FromState(State(0x15), 5, DEFAULT_WIDTH) ==
      [Transition(State(0x15), State(0x0B), 1, 5),
       Transition(State(0x15), State(0x0E), 3, 5),
       Transition(State(0x15), State(0x1A), 5, 5)]
  {
    assert IsSet(0x15, 0) && Shr(0x15, 1) == 10;
    SkipRethrows();
  }

  /** After the shift `10101` is `01010`: slots 0, 2 and 4 are free. */
  lemma SkipRethrows()
    ensures Rethrows(State(0x15), 10, 0, 5) ==
      [Transition(State(0x15), State(0x0B), 1, 5),
       Transition(State(0x15), State(0x0E), 3, 5),
       Transition(State(0x15), State(0x1A), 5, 5)]
  {
    var s := State(0x15);
    SkipBits();
    assert Rethrows(s, 10, 4, 5) == [Transition(s, State(0x1A), 5, 5)];
    assert Rethrows(s, 10, 3, 5) == Rethrows(s, 10, 4, 5);
    assert Rethrows(s, 10, 2, 5) == [Transition(s, State(0x0E), 3, 5)] + Rethrows(s, 10, 3, 5);
    assert Rethrows(s, 10, 1, 5) == Rethrows(s, 10, 2, 5);
  }

  lemma SkipBits()
    ensures Bit(10, 0) == 0 && Bit(10, 1) == 1 && Bit(10, 2) == 0 && Bit(10, 3) == 1 && Bit(10, 4) == 0
    ensures SetBit(10, 0) == 0x0B && SetBit(10, 2) == 0x0E && SetBit(10, 4) == 0x1A
  {
    assert Pow2(2) == 4 && Pow2(3) == 8 && Pow2(4) == 16;
  }

  /** The crate's display test: the only throw from `xxx` at height 3 shows as `xxx (3)`. */
  lemma TransitionTextExample()
    ensures TransitionText(Transition(State(0x07), State(0x07), 3, 3), DEFAULT_WIDTH) == "xxx (3)"
  {
  }
}
