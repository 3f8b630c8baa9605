/** The calculator component's state: one string, `display`, overwritten by
    every handler. Each handler delegates to a pure transition of
    DisplayEdits. */
module App {
  import opened DisplayEdits

  class Calculator {
    var display: string

    constructor ()
      ensures display == []
    {
      display := [];
    }

    method NumberClick(num: char)
      modifies this
      ensures display == PressDigit(old(display), num)
      ensures display[..|old(display)|] == old(display) && display[|old(display)|] == num
    {
      display := PressDigit(display, num);
    }

    method OperatorClick(op: char)
      modifies this
      ensures display == PressOperator(old(display), op)
      ensures old(display) == [] && op != '-' ==> display == []
      ensures !HasAdjacentOperators(old(display)) ==> !HasAdjacentOperators(display)
    {
      if !HasAdjacentOperators(display) {
        OperatorKeepsNoAdjacent(display, op);
      }
      display := PressOperator(display, op);
    }

    method DecimalClick()
      modifies this
      ensures display == PressDecimal(old(display))
      ensures DotCount(LastSegment(old(display))) <= 1 ==> DotCount(LastSegment(display)) == 1
    {
      if DotCount(LastSegment(display)) <= 1 {
        DecimalKeepsOneDot(display);
      }
      display := PressDecimal(display);
    }

    method ClearClick()
      modifies this
      ensures display == []
    {
      display := Clear(display);
    }

    method BackspaceClick()
      modifies this
      ensures display == Backspace(old(display))
      ensures old(display) != [] ==> display + [old(display)[|old(display)| - 1]] == old(display)
    {
      display := Backspace(display);
    }

    method ToggleSignClick()
      modifies this
      ensures display == ToggleSign(old(display))
      ensures (forall j :: 0 <= j <= |old(display)| ==> !IsNumberText(old(display)[j..])) ==> display == old(display)
    {
      if display != [] {
        display := ToggleSign(display);
      }
    }

    /** A key press; `equalsRequested` reports Enter or `=`, whose evaluation
        is not part of this model. */
    method KeyPress(key: string) returns (equalsRequested: bool)
      modifies this
      ensures equalsRequested <==> KeyDown(old(display), key) == RequestEquals
      ensures display == AfterKey(old(display), KeyDown(old(display), key))
    {
      var effect := KeyDown(display, key);
      match effect
      case SetDisplay(next) =>
        display := next;
        equalsRequested := false;
      case RequestEquals =>
        equalsRequested := true;
      case Ignored =>
        equalsRequested := false;
    }
  }
}
