/** A road's traffic light: a red/green phase that flips every `cycleTime` time units. */
module TrafficLights {

  /** raylib's Rectangle: top-left corner and size. */
  datatype Rect = Rect(x: real, y: real, width: real, height: real)

  /** Distance between the light's box and the line where cars wait. */
  const STOP_LINE_GAP: real := 40.0

  class TrafficLight {
    const box: Rect
    var timer: real
    var red: bool
    const cycleTime: real

    /** The accumulated time never reaches a positive cycle length between two updates. */
    ghost predicate Valid()
      reads this
    {
      0.0 < cycleTime ==> timer < cycleTime
    }

    constructor (x: real, y: real, cycle: real)
      ensures Valid()
      ensures box == Rect(x, y, 20.0, 60.0)
      ensures timer == 0.0 && red && cycleTime == cycle
    {
      box := Rect(x, y, 20.0, 60.0);
      timer := 0.0;
      red := true;
      cycleTime := cycle;
    }

    /** Accumulates `delta`; once the cycle length is reached the phase flips and the timer restarts. */
    method Update(delta: real)
      requires Valid()
      modifies this
      ensures Valid()
      ensures old(timer) + delta >= cycleTime ==> timer == 0.0 && red == !old(red)
      ensures old(timer) + delta < cycleTime ==> timer == old(timer) + delta && red == old(red)
    {
      timer := timer + delta;
      if timer >= cycleTime {
        timer := 0.0;
        red := !red;
      }
    }

    function IsRed(): bool
      reads this
    {
      red
    }

    /** The line where approaching cars wait: STOP_LINE_GAP before the box's left edge for
        right-to-left traffic, STOP_LINE_GAP past its right edge otherwise. */
    function GetStopLineX(rightToLeft: bool): (r: real)
      ensures rightToLeft ==> r < box.x && box.x - r == STOP_LINE_GAP
      ensures !rightToLeft ==> r > box.x + box.width && r - (box.x + box.width) == STOP_LINE_GAP
    {
      if rightToLeft then box.x - STOP_LINE_GAP else box.x + box.width + STOP_LINE_GAP
    }
  }
}
