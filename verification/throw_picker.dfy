/**
 * The throw picker (web/src/components/builder/throw-picker.tsx): the label of
 * the current state and one button per throw option, styled green when the
 * throw closes a loop back to the ground state and amber when it returns to
 * any other visited state. Pressing a button chooses that throw.
 */
module ThrowPicker {
  import opened Results
  import opened InsertionOrder
  import opened BinaryLabel
  import opened BuilderReducer
  import StateNotation

  datatype ThrowOption = ThrowOption(height: nat, destination: nat)

  datatype Style = Plain | LoopStyle | GroundLoopStyle

  datatype Button = Button(height: nat, destLabel: string, style: Style, onChoose: Action)

  /** Without throws (`throws` undefined) the grid of buttons is absent. */
  datatype PickerView = PickerView(currentLabel: string, buttons: Option<seq<Button>>)

  /** `isLoop` and `isGroundLoop`, and the class list they select. */
  function OptionStyle(t: ThrowOption, groundState: nat, visitedStates: seq<nat>): (r: Style)
    ensures r == GroundLoopStyle <==> t.destination in visitedStates && t.destination == groundState
    ensures r == LoopStyle <==> t.destination in visitedStates && t.destination != groundState
    ensures r == Plain <==> t.destination !in visitedStates
  {
    var isLoop := t.destination in visitedStates;
    var isGroundLoop := isLoop && t.destination == groundState;
    if isGroundLoop then GroundLoopStyle
    else if isLoop then LoopStyle
    else Plain
  }

  function OptionButton(t: ThrowOption, groundState: nat, maxHeight: nat, visitedStates: seq<nat>): (b: Button)
    ensures b.height == t.height
    ensures b.onChoose == ChooseThrow(t.height, t.destination)
    ensures b.destLabel == ToBinaryLabel(t.destination, maxHeight, false)
    ensures IsBinary(b.destLabel) && |b.destLabel| >= maxHeight
    ensures StateNotation.BinaryValue(b.destLabel) == t.destination
  {
    LabelValue(t.destination, maxHeight);
    Button(t.height, ToBinaryLabel(t.destination, maxHeight, false), OptionStyle(t, groundState, visitedStates),
           ChooseThrow(t.height, t.destination))
  }

  /** `ThrowPicker({throws, currentState, groundState, maxHeight, visitedStates, onChooseThrow})`. */
  function Picker(throws: Option<seq<ThrowOption>>, currentState: nat, groundState: nat, maxHeight: nat, visitedStates: seq<nat>): (v: PickerView)
    ensures v.currentLabel == ToBinaryLabel(currentState, maxHeight, false)
    ensures v.buttons.Some? <==> throws.Some?
    ensures throws.Some? ==> |v.buttons.value| == |throws.value|
    ensures throws.Some? ==> forall i :: 0 <= i < |throws.value| ==>
      v.buttons.value[i] == OptionButton(throws.value[i], groundState, maxHeight, visitedStates)
    ensures IsBinary(v.currentLabel) && StateNotation.BinaryValue(v.currentLabel) == currentState
    ensures throws.Some? ==> forall i :: 0 <= i < |throws.value| ==>
      && v.buttons.value[i].height == throws.value[i].height
      && StateNotation.BinaryValue(v.buttons.value[i].destLabel) == throws.value[i].destination
  {
    LabelValue(currentState, maxHeight);
    var buttons := match throws
      case None => None
      case Some(ts) =>
        Some(seq(|ts|, i requires 0 <= i < |ts| => OptionButton(ts[i], groundState, maxHeight, visitedStates)));
    PickerView(ToBinaryLabel(currentState, maxHeight, false), buttons)
  }

  /**
   * On the canvas, pressing a button reduces the builder with its action. A
   * button is styled as a loop exactly when choosing it adds nothing to the
   * visited set, and as a ground loop exactly when it also brings the walk
   * back to the ground state.
   */
  lemma StyleMeansRevisit(s: BuilderState, t: ThrowOption, maxHeight: nat)
    requires Invariant(s)
    ensures var b := OptionButton(t, s.groundState, maxHeight, s.visitedStates);
      var next := Reduce(s, b.onChoose);
      && (b.style != Plain <==> next.visitedStates == s.visitedStates)
      && (b.style == GroundLoopStyle <==> next.visitedStates == s.visitedStates && next.currentState == s.groundState)
  {
  }

  /** The step recorded by a button press is the option's own throw from the current state. */
  lemma ChooseRecordsOption(s: BuilderState, t: ThrowOption, maxHeight: nat)
    ensures var next := Reduce(s, OptionButton(t, s.groundState, maxHeight, s.visitedStates).onChoose);
      && next.steps == s.steps + [Step(s.currentState, t.height, t.destination)]
      && next.currentState == t.destination
  {
  }

  /** Picker labels agree with the crate's binary strings for states below `2^maxHeight`. */
  lemma PickerLabel(currentState: nat, groundState: nat, maxHeight: nat, visitedStates: seq<nat>)
    requires 1 <= maxHeight <= 32 && currentState < Bitmask.Pow2(maxHeight)
    ensures Picker(None, currentState, groundState, maxHeight, visitedStates).currentLabel ==
      StateNotation.ToBinaryString(StateNotation.State(currentState), maxHeight, 32)
  {
    LabelMatchesBinaryString(currentState, maxHeight, 32);
  }
}
