/**
 * The engine crate's own, older copy of the state algebra
 * (engine/src/state.rs and engine/src/transition.rs). It is the library's
 * algorithm fixed to 64-bit states, except that `get_transitions` builds every
 * destination through `State::new(..).unwrap()`, which panics on an `Err`.
 * Here a panic is the `Err` outcome of `GetTransitions`.
 */
module LegacyEngine {
  import opened Bitmask
  import opened Results
  import StateNotation
  import Combinatorics
  import opened StateTransition
  import opened Text

  type State = StateNotation.State

  /** The width of the legacy `Bits = u64`. */
  const WIDTH: StateNotation.BitsWidth := 64

  /** `u64::MAX + 1`: every `u64` value is below it. */
  const WORD: nat := 0x1_0000_0000_0000_0000

  /** `2^63`: `bits >> 1` of a `u64` lies below it. */
  const HALF_WORD: nat := 0x8000_0000_0000_0000

  lemma HalfWordIsPow2()
    ensures Pow2(63) == HALF_WORD && 2 * HALF_WORD == WORD
  {
    var e := 63;
    WordIsPow2();
    assert Pow2(e + 1) == 2 * Pow2(e);
  }

  /** Squaring a power of two doubles its exponent. */
  lemma Pow2Square(k: nat, v: nat, w: nat)
    requires Pow2(k) == v && w == v * v
    ensures Pow2(k + k) == w
  {
    Pow2Add(k, k);
  }

  /** `2^64`, reached by squaring `2^1` six times. */
  lemma WordIsPow2()
    ensures Pow2(WIDTH) == WORD
  {
    var e0, e1, e2, e3, e4, e5 := 1, 2, 4, 8, 16, 32;
    var v0, v1, v2, v3, v4, v5, v6 := 2, 4, 16, 0x100, 0x1_0000, 0x1_0000_0000, WORD;
    assert Pow2(e0) == v0;
    Pow2Square(e0, v0, v1);
    Pow2Square(e1, v1, v2);
    Pow2Square(e2, v2, v3);
    Pow2Square(e3, v3, v4);
    Pow2Square(e4, v4, v5);
    Pow2Square(e5, v5, v6);
  }

  /** A value below `2^m` with `m <= 64` fits in a `u64`. */
  lemma BelowWord(x: nat, m: nat)
    requires m <= 64 && x < Pow2(m)
    ensures x < WORD
  {
    Pow2Monotonic(m, WIDTH);
    WordIsPow2();
  }

  /** `x | (1 << p)` stays a `u64` for `p < 64`. */
  lemma SetBitWord(x: nat, p: nat)
    requires x < WORD && p < 64
    ensures SetBit(x, p) < WORD
  {
    WordIsPow2();
    SetBitBound(x, p, WIDTH);
  }

  /** `State::new`: the library check at width 64. */
  function New(bits: nat, maxHeight: nat): (r: Result<State, StateNotation.StateError>)
    requires bits < WORD
    ensures maxHeight > 64 ==> r == Err(StateNotation.HeightExceedsLimit(maxHeight, 64))
    ensures maxHeight <= 64 ==> (r.Ok? <==> bits < Pow2(maxHeight))
    ensures r.Ok? ==> r.value.bits == bits
  {
    WordIsPow2();
    NewAccepts(bits, maxHeight);
    StateNotation.New(bits, maxHeight, WIDTH)
  }

  lemma NewAccepts(bits: nat, maxHeight: nat)
    requires bits < WORD
    ensures bits < Pow2(WIDTH)
    ensures maxHeight <= 64 ==> (StateNotation.New(bits, maxHeight, WIDTH).Ok? <==> bits < Pow2(maxHeight))
  {
    WordIsPow2();
    if maxHeight <= 64 {
      StateNotation.NewCheck(bits, maxHeight, WIDTH);
    }
  }

  /** `ball_at(pos)`; a shift by 64 or more overflows. */
  function BallAt(s: State, pos: nat): (r: bool)
    requires pos < 64
    ensures r <==> IsSet(s.bits, pos)
  {
    Shr(s.bits, pos) % 2 != 0
  }

  /** `num_balls`: `count_ones` of the 64-bit word. */
  function NumBalls(s: State): (r: nat)
    requires s.bits < WORD
    ensures r == CountBelow(s.bits, 64)
    ensures r <= 64
  {
    WordIsPow2();
    CountBelowIsPopcount(s.bits, 64);
    CountBelowAtMost(s.bits, 64);
    Popcount(s.bits)
  }

  /** The positions below `k` at which `ball_at` holds. */
  function BallPositions(s: State, k: nat): set<nat>
    requires k <= 64
  {
    set pos: nat | pos < k && BallAt(s, pos)
  }

  lemma BallPositionsSucc(s: State, k: nat)
    requires k < 64
    ensures BallAt(s, k) ==> BallPositions(s, k + 1) == BallPositions(s, k) + {k}
    ensures !BallAt(s, k) ==> BallPositions(s, k + 1) == BallPositions(s, k)
    ensures k !in BallPositions(s, k)
  {
    var a, b := BallPositions(s, k), BallPositions(s, k + 1);
    forall x | x in b
      ensures x in a || (x == k && BallAt(s, k))
    {
    }
    if BallAt(s, k) {
      assert b == a + {k};
    } else {
      assert b == a;
    }
  }

  /** The number of positions `pos < k` with `BallAt(s, pos)`, counted one by one. */
  lemma {:induction false} NumBallsCountsBalls(s: State, k: nat)
    requires k <= 64
    ensures |BallPositions(s, k)| == CountBelow(s.bits, k)
  {
    if k > 0 {
      NumBallsCountsBalls(s, k - 1);
      BallPositionsSucc(s, k - 1);
    } else {
      assert BallPositions(s, 0) == {};
    }
  }

  /** `display(max_height)`: the library rendering at width 64. */
  function Display(s: State, maxHeight: nat): (r: string)
    requires maxHeight <= 64
    ensures |r| == maxHeight
    ensures forall i :: 0 <= i < maxHeight ==> (r[i] == 'x' <==> BallAt(s, maxHeight - 1 - i))
    ensures forall i :: 0 <= i < maxHeight ==> r[i] == 'x' || r[i] == '0'
  {
    StateNotation.Display(s, maxHeight, WIDTH)
  }

  /**
   * `generate_states`: the library backtracking. Above height 64 the shift
   * `1 << (max_height-1-pos)` overflows whenever a ball is placed at a position
   * `pos` with a shift of 64 or more. The enumeration always places a ball at
   * position 0, with shift `max_height - 1`, once there is a ball and no more
   * balls than beats. So only zero balls, or more balls than beats, stay
   * defined there.
   */
  function GenerateStates(numBalls: nat, maxHeight: nat): (r: seq<State>)
    requires maxHeight <= 64 || numBalls == 0 || numBalls > maxHeight
    ensures |r| == Combinatorics.Binom(maxHeight, numBalls)
    ensures forall i :: 0 <= i < |r| ==> Popcount(r[i].bits) == numBalls && StateNotation.ValidFor(r[i], maxHeight)
    ensures forall x: nat :: x < Pow2(maxHeight) && Popcount(x) == numBalls ==> StateNotation.State(x) in r
    ensures forall i, j :: 0 <= i < j < |r| ==> r[i].bits < r[j].bits
    ensures numBalls <= maxHeight ==> |r| > 0 && r[0] == StateNotation.State(LowMask(numBalls))
  {
    StateNotation.Generate(numBalls, maxHeight, WIDTH)
  }

  /** Why `get_transitions` can fail: an `unwrap` on an `Err` from `State::new`. */
  datatype Panic = UnwrapOnErr(error: StateNotation.StateError)

  /**
   * The rethrow loop of `get_transitions` over `bit_pos` in `pos .. maxHeight-1`.
   * Above height 64 the loop stops at the first empty slot, which lies below 64
   * because `shifted` fits in 63 bits, since `State::new` refuses the height there.
   */
  function Rethrows(s: State, shifted: nat, pos: nat, maxHeight: nat): (r: Result<seq<Transition>, Panic>)
    requires pos <= maxHeight < 256 && shifted < WORD
    requires maxHeight > 64 ==> pos < 64 && shifted < HALF_WORD
    ensures r.Ok? ==> |r.value| <= maxHeight - pos
    ensures r.Ok? ==> forall i :: 0 <= i < |r.value| ==>
      r.value[i].from == s && r.value[i].maxHeight == maxHeight && pos < r.value[i].throwHeight <= maxHeight
    decreases maxHeight - pos
  {
    if pos == maxHeight then Ok([])
    else if Bit(shifted, pos) == 0 then
      SetBitWord(shifted, pos);
      match New(SetBit(shifted, pos), maxHeight)
      case Err(e) => Err(UnwrapOnErr(e))
      case Ok(to) =>
        var rest := Rethrows(s, shifted, pos + 1, maxHeight);
        if rest.Err? then rest else Ok([Transition(s, to, pos + 1, maxHeight)] + rest.value)
    else
      TopSlotEmpty(shifted, pos, maxHeight);
      Rethrows(s, shifted, pos + 1, maxHeight)
  }

  /** Position 63 of a value below `2^63` is empty, so a full slot there cannot happen. */
  lemma TopSlotEmpty(shifted: nat, pos: nat, maxHeight: nat)
    requires maxHeight > 64 ==> pos < 64 && shifted < HALF_WORD
    requires Bit(shifted, pos) != 0
    ensures maxHeight > 64 ==> pos + 1 < 64
  {
    if maxHeight > 64 && pos == 63 {
      HalfWordIsPow2();
      BitAboveBound(shifted, 63, 63);
    }
  }

  /** `get_transitions(state, max_height)`. */
  function GetTransitions(s: State, maxHeight: nat): (r: Result<seq<Transition>, Panic>)
    requires s.bits < WORD && maxHeight < 256
    ensures !IsSet(s.bits, 0) ==> (r.Ok? <==> maxHeight <= 64 && s.bits / 2 < Pow2(maxHeight))
    ensures !IsSet(s.bits, 0) && r.Ok? ==> r.value == [Transition(s, StateNotation.State(s.bits / 2), 0, maxHeight)]
    ensures maxHeight > 64 ==> r == Err(UnwrapOnErr(StateNotation.HeightExceedsLimit(maxHeight, 64)))
  {
    HalfBelow(s.bits);
    if Shr(s.bits, 0) % 2 == 0 then
      match New(Shr(s.bits, 1), maxHeight)
      case Err(e) => Err(UnwrapOnErr(e))
      case Ok(to) => Ok([Transition(s, to, 0, maxHeight)])
    else
      if maxHeight > 64 then
        RethrowsAboveLimit(s, Shr(s.bits, 1), 0, maxHeight);
        Rethrows(s, Shr(s.bits, 1), 0, maxHeight)
      else Rethrows(s, Shr(s.bits, 1), 0, maxHeight)
  }

  /** Above height 64 the loop panics at its first empty slot, with the height error. */
  lemma {:induction false} RethrowsAboveLimit(s: State, shifted: nat, pos: nat, maxHeight: nat)
    requires 64 < maxHeight < 256 && pos < 64 && shifted < HALF_WORD && shifted < WORD
    ensures Rethrows(s, shifted, pos, maxHeight) == Err(UnwrapOnErr(StateNotation.HeightExceedsLimit(maxHeight, 64)))
    decreases 64 - pos
  {
    if Bit(shifted, pos) != 0 {
      TopSlotEmpty(shifted, pos, maxHeight);
      RethrowsAboveLimit(s, shifted, pos + 1, maxHeight);
    }
  }

  lemma HalfBelow(bits: nat)
    requires bits < WORD
    ensures Shr(bits, 1) == bits / 2 < WORD && Shr(bits, 0) == bits
    ensures bits / 2 < HALF_WORD
  {
  }

  /** The legacy loop succeeds and lists the library's rethrows. */
  predicate RethrowsAgree(s: State, shifted: nat, pos: nat, maxHeight: nat)
  {
    && pos <= maxHeight <= 64 && shifted < WORD
    && Rethrows(s, shifted, pos, maxHeight) == Ok(StateTransition.Rethrows(s, shifted, pos, maxHeight))
  }

  /** From a valid state the loop's `unwrap`s never fail and it lists the library's rethrows. */
  lemma {:induction false} RethrowsNeverPanic(s: State, shifted: nat, pos: nat, maxHeight: nat)
    requires pos <= maxHeight <= 64 && shifted < Pow2(maxHeight)
    ensures shifted < WORD
    ensures RethrowsAgree(s, shifted, pos, maxHeight)
    decreases maxHeight - pos
  {
    BelowWord(shifted, maxHeight);
    if pos < maxHeight {
      RethrowsNeverPanic(s, shifted, pos + 1, maxHeight);
      RethrowStep(s, shifted, pos, maxHeight);
    }
  }

  /** One position of the loop: a taken position is skipped, an empty one is accepted by `State::new`. */
  lemma RethrowStep(s: State, shifted: nat, pos: nat, maxHeight: nat)
    requires pos < maxHeight <= 64 && shifted < Pow2(maxHeight) && shifted < WORD
    requires RethrowsAgree(s, shifted, pos + 1, maxHeight)
    ensures RethrowsAgree(s, shifted, pos, maxHeight)
  {
    if Bit(shifted, pos) == 0 {
      var b := SetBit(shifted, pos);
      SetBitBound(shifted, pos, maxHeight);
      BelowWord(b, maxHeight);
      assert New(b, maxHeight) == Ok(StateNotation.State(b));
    }
  }

  /**
   * For a state valid for `maxHeight <= 64` the `unwrap`s never panic, and the
   * result is the library's `from_state` at width 64.
   */
  lemma GetTransitionsNeverPanic(s: State, maxHeight: nat)
    requires maxHeight <= 64 && StateNotation.ValidFor(s, maxHeight)
    ensures s.bits < WORD && s.bits < Pow2(WIDTH)
    ensures GetTransitions(s, maxHeight) == Ok(FromState(s, maxHeight, WIDTH))
  {
    BelowWord(s.bits, maxHeight);
    WordIsPow2();
    HalfBound(s.bits, maxHeight);
    if maxHeight > 0 {
      assert s.bits / 2 < Pow2(maxHeight) by {
        Pow2Monotonic(maxHeight - 1, maxHeight);
        HalfBound(s.bits, maxHeight - 1);
      }
    }
    if IsSet(s.bits, 0) {
      RethrowsNeverPanic(s, s.bits / 2, 0, maxHeight);
    }
  }

  /** `Display for Transition`: the destination's 64-bit display, then the height in parentheses. */
  function TransitionText(t: Transition): (r: string)
    requires t.maxHeight <= 64
    ensures |r| == t.maxHeight + 3 + |Decimal(t.throwHeight)|
    ensures r[..t.maxHeight] == Display(t.to, t.maxHeight)
    ensures r[t.maxHeight..t.maxHeight + 2] == " (" && r[|r| - 1] == ')'
    ensures AllDigits(r[t.maxHeight + 2..|r| - 1]) && DecimalValue(r[t.maxHeight + 2..|r| - 1]) == t.throwHeight
  {
    var r := Display(t.to, t.maxHeight) + " (" + Decimal(t.throwHeight) + ")";
    assert r[t.maxHeight + 2..|r| - 1] == Decimal(t.throwHeight);
    DecimalRoundTrip(t.throwHeight);
    r
  }

  /** The engine's `generate_states` test: three balls at height five give ten states. */
  lemma LegacyGenerateExample()
    ensures |GenerateStates(3, 5)| == 10
  {
    assert Combinatorics.Binom(5, 3) == 10;
  }

  /** The engine's tests of `display`, `ball_at` and `num_balls` on `01001`, balls at 0 and 3. */
  lemma LegacyNineExample()
    ensures Display(StateNotation.State(0x09), 5) == "0x00x"
    ensures BallAt(StateNotation.State(0x09), 0) && !BallAt(StateNotation.State(0x09), 1)
    ensures !BallAt(StateNotation.State(0x09), 2) && BallAt(StateNotation.State(0x09), 3)
    ensures !BallAt(StateNotation.State(0x09), 4)
    ensures NumBalls(StateNotation.State(0x09)) == 2
  {
    NineBits();
    var d := Display(StateNotation.State(0x09), 5);
    assert d[0] == '0' && d[1] == 'x' && d[2] == '0' && d[3] == '0' && d[4] == 'x';
  }

  lemma NineBits()
    ensures Bit(9, 0) == 1 && Bit(9, 1) == 0 && Bit(9, 2) == 0 && Bit(9, 3) == 1 && Bit(9, 4) == 0
    ensures Popcount(9) == 2
  {
    assert Pow2(2) == 4 && Pow2(3) == 8 && Pow2(4) == 16;
  }

  /** The engine's `new` test: bit 5 does not fit height 5. */
  lemma LegacyNewExample()
    ensures New(0x20, 5).Err?
  {
    assert Pow2(5) == 32;
  }
}
