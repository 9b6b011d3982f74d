/**
 * `compute_throws` (engine/crates/juggling-tools/src/state_notation/throws.rs):
 * the successor rule behind the same validation as `State::new`, reporting
 * each possible throw as its height and destination.
 */
module Throws {
  import opened Bitmask
  import opened Results
  import opened StateNotation
  import opened StateTransition

  datatype Throw = Throw(height: nat, destination: State)

  /** The two error messages of `compute_throws`, without their formatting. */
  datatype ThrowsError =
    | MaxHeightTooLarge(maxHeight: nat, limit: nat)
    | StateExceedsMaxHeight(bits: nat, maxHeight: nat)

  function ToThrows(ts: seq<Transition>): (r: seq<Throw>)
    ensures |r| == |ts|
    ensures forall i :: 0 <= i < |ts| ==> r[i] == Throw(ts[i].throwHeight, ts[i].to)
  {
    seq(|ts|, i requires 0 <= i < |ts| => Throw(ts[i].throwHeight, ts[i].to))
  }

  /** `compute_throws(state, max_height)`. */
  function ComputeThrows(s: State, maxHeight: nat, w: BitsWidth): (r: Result<seq<Throw>, ThrowsError>)
    requires s.bits < Pow2(w) && maxHeight < 256
    ensures maxHeight > w ==> r == Err(MaxHeightTooLarge(maxHeight, w))
    ensures maxHeight <= w && !ValidFor(s, maxHeight) ==> r == Err(StateExceedsMaxHeight(s.bits, maxHeight))
    ensures r.Ok? <==> maxHeight <= w && ValidFor(s, maxHeight)
    ensures r.Ok? ==>
      var ts := FromState(s, maxHeight, w);
      && |r.value| == |ts|
      && forall i :: 0 <= i < |ts| ==> r.value[i].height == ts[i].throwHeight && r.value[i].destination == ts[i].to
  {
    if maxHeight > w then Err(MaxHeightTooLarge(maxHeight, w))
    else
      NewCheck(s.bits, maxHeight, w);
      if maxHeight < w && Shr(s.bits, maxHeight) != 0 then Err(StateExceedsMaxHeight(s.bits, maxHeight))
      else Ok(ToThrows(FromState(s, maxHeight, w)))
  }

  /** `compute_throws` accepts exactly the arguments `State::new` accepts. */
  lemma SameValidationAsNew(s: State, maxHeight: nat, w: BitsWidth)
    requires s.bits < Pow2(w) && maxHeight < 256
    ensures ComputeThrows(s, maxHeight, w).Ok? <==> New(s.bits, maxHeight, w).Ok?
  {
    if maxHeight <= w {
      NewCheck(s.bits, maxHeight, w);
    }
  }

  /** Every reported destination keeps the prop count and stays below `maxHeight`. */
  lemma ThrowsKeepInvariants(s: State, maxHeight: nat, w: BitsWidth, t: Throw)
    requires s.bits < Pow2(w) && maxHeight < 256
    requires ComputeThrows(s, maxHeight, w).Ok? && t in ComputeThrows(s, maxHeight, w).value
    ensures Popcount(t.destination.bits) == Popcount(s.bits)
    ensures ValidFor(t.destination, maxHeight)
  {
    var ts := FromState(s, maxHeight, w);
    var r := ComputeThrows(s, maxHeight, w).value;
    var i :| 0 <= i < |r| && r[i] == t;
    assert ts[i] in ts;
    PreservesPopcount(s, maxHeight, w, ts[i]);
    DestinationsValid(s, maxHeight, w, ts[i]);
  }

  /** With no prop landing the only throw is a 0-throw to the shifted state. */
  lemma ZeroThrow(s: State, maxHeight: nat, w: BitsWidth)
    requires s.bits < Pow2(w) && maxHeight < 256
    requires maxHeight <= w && ValidFor(s, maxHeight) && !IsSet(s.bits, 0)
    ensures ComputeThrows(s, maxHeight, w) == Ok([Throw(0, State(s.bits / 2))])
  {
    var r := ComputeThrows(s, maxHeight, w);
    assert r.Ok?;
    assert |r.value| == 1 && r.value[0] == Throw(0, State(s.bits / 2));
    assert r.value == [Throw(0, State(s.bits / 2))];
  }

  /** For valid arguments the result is the transitions' heights and destinations. */
  lemma ComputeThrowsValid(s: State, maxHeight: nat, w: BitsWidth)
    requires s.bits < Pow2(w) && maxHeight < 256
    requires maxHeight <= w && ValidFor(s, maxHeight)
    ensures ComputeThrows(s, maxHeight, w) == Ok(ToThrows(FromState(s, maxHeight, w)))
  {
    NewCheck(s.bits, maxHeight, w);
  }

  lemma ToThrowsThree(a: Transition, b: Transition, c: Transition)
    ensures ToThrows([a, b, c]) == [Throw(a.throwHeight, a.to), Throw(b.throwHeight, b.to), Throw(c.throwHeight, c.to)]
  {
    var r := ToThrows([a, b, c]);
    assert |r| == 3 && r[0] == Throw(a.throwHeight, a.to);
    assert r[1] == Throw(b.throwHeight, b.to) && r[2] == Throw(c.throwHeight, c.to);
  }

  /** The crate's ground-state test: throws 3, 4 and 5 from `00111` at height 5. */
  lemma ComputeThrowsGround()
    ensures ComputeThrows(State(0x07), 5, DEFAULT_WIDTH) ==
      Ok([Throw(3, State(0x07)), Throw(4, State(0x0B)), Throw(5, State(0x13))])
  {
    var s := State(0x07);
    FromStateGroundExample();
    ComputeThrowsValid(s, 5, DEFAULT_WIDTH);
    ToThrowsThree(Transition(s, State(0x07), 3, 5), Transition(s, State(0x0B), 4, 5), Transition(s, State(0x13), 5, 5));
  }

  /** The crate's test that occupied slots are skipped. */
  lemma ComputeThrowsSkips()
    ensures ComputeThrows(State(0x15), 5, DEFAULT_WIDTH) ==
      Ok([Throw(1, State(0x0B)), Throw(3, State(0x0E)), Throw(5, State(0x1A))])
  {
    var s := State(0x15);
    FromStateSkipExample();
    ComputeThrowsValid(s, 5, DEFAULT_WIDTH);
    ToThrowsThree(Transition(s, State(0x0B), 1, 5), Transition(s, State(0x0E), 3, 5), Transition(s, State(0x1A), 5, 5));
  }

  /** The crate's rejection tests. */
  lemma ComputeThrowsRejects()
    ensures ComputeThrows(State(0), 33, DEFAULT_WIDTH).Err?
    ensures ComputeThrows(State(0x20), 5, DEFAULT_WIDTH).Err?
  {
    assert !ValidFor(State(0x20), 5);
  }
}
