/** Vehicles: per-frame longitudinal motion, lateral lane smoothing and the ambulance override. */
module Vehicles {
  import opened Constants

  /** Lateral smoothing: a vehicle closes this fraction of the gap to its target lane each frame. */
  const LATERAL_RATE: real := 0.08
  /** Within this distance of the target lane a vehicle snaps onto it. */
  const SNAP_DISTANCE: real := 0.5
  /** Time an ambulance waits at the hospital before leaving. */
  const HOSPITAL_WAIT: real := 5.0

  /** What an ambulance adds to a car: whether it is parked at the hospital and for how long. */
  datatype Kind = Car | Ambulance(atHospital: bool, hospitalTimer: real)

  datatype Vehicle = Vehicle(
    x: real,
    y: real,
    targetY: real,
    speed: real,
    moving: bool,
    dirRight: bool,
    changedLane: bool,
    forcedStop: bool,
    kind: Kind)
  {
    predicate IsAmbulance() { kind.Ambulance? }

    /** +1 for left-to-right traffic, -1 for right-to-left traffic. */
    function Heading(): real { if dirRight then 1.0 else -1.0 }

    /** Far enough past the exit edge of the screen to be dropped from the road: an off-screen
        vehicle is wholly invisible, and one between the two entry edges is never off-screen. */
    function IsOffScreen(): (off: bool)
      ensures off ==> x + VEHICLE_WIDTH < 0.0 || x > SCREEN_WIDTH as real
      ensures -200.0 <= x <= (SCREEN_WIDTH + 200) as real ==> !off
    {
      if dirRight then x > (SCREEN_WIDTH + 200) as real else x < -200.0
    }

    /** One frame of motion: advance by `speed` unless stopped, and steer toward `targetY`. */
    function Update(stopForRed: bool): (r: Vehicle)
      ensures r == this.(x := r.x, y := r.y)
      ensures moving && !stopForRed && !forcedStop ==> r.x - x == Heading() * speed
      ensures !(moving && !stopForRed && !forcedStop) ==> r.x == x
      ensures Abs(targetY - y) > SNAP_DISTANCE ==> r.y - targetY == (1.0 - LATERAL_RATE) * (y - targetY)
      ensures Abs(targetY - y) > SNAP_DISTANCE ==>
                Abs(targetY - r.y) < Abs(targetY - y) && (r.y < targetY <==> y < targetY)
      ensures Abs(targetY - y) <= SNAP_DISTANCE ==> r.y == targetY
    {
      var nx := if moving && !stopForRed && !forcedStop then (if dirRight then x + speed else x - speed) else x;
      var ny := if Abs(targetY - y) > SNAP_DISTANCE then y + (targetY - y) * LATERAL_RATE else targetY;
      this.(x := nx, y := ny)
    }

    /** Ambulance's override of Update: until it parks at the hospital it moves like any vehicle
        but ignores the stop request; once parked it only counts time and, after waiting,
        drives off toward smaller x at 2.5 times its speed. */
    function AmbulanceUpdate(stopForRed: bool, frameTime: real): (r: Vehicle)
      requires IsAmbulance()
      ensures r.IsAmbulance() && r.kind.atHospital == kind.atHospital
      ensures r == this.(x := r.x, y := r.y, kind := r.kind)
      ensures !kind.atHospital ==> r.kind == kind && r == Update(false)
      ensures !kind.atHospital && moving && !forcedStop ==> r.x - x == Heading() * speed
      ensures kind.atHospital ==> r.y == y && r.kind.hospitalTimer == kind.hospitalTimer + frameTime
      ensures kind.atHospital && r.kind.hospitalTimer > HOSPITAL_WAIT ==> r.x == x - 2.5 * speed
      ensures kind.atHospital && r.kind.hospitalTimer <= HOSPITAL_WAIT ==> r.x == x
    {
      if !kind.atHospital then
        Update(false)
      else
        var t := kind.hospitalTimer + frameTime;
        this.(x := if t > HOSPITAL_WAIT then x - speed * 2.5 else x, kind := kind.(hospitalTimer := t))
    }
  }

  /** The lateral gap left after `n` frames of smoothing from an initial gap `g`: g * 0.92^n. */
  function GapBound(g: real, n: nat): real
  {
    if n == 0 then g else (1.0 - LATERAL_RATE) * GapBound(g, n - 1)
  }

  /** `n` consecutive frames of Vehicle::Update with the same stop request. */
  function Frames(v: Vehicle, stopForRed: bool, n: nat): Vehicle
    decreases n
  {
    if n == 0 then v else Frames(v.Update(stopForRed), stopForRed, n - 1)
  }

  /** Distance from a vehicle's lateral position to its target lane. */
  function LateralGap(v: Vehicle): real { Abs(v.y - v.targetY) }

  /** One frame shrinks the lateral gap to at most 0.92 of what it was and keeps the target lane. */
  lemma StepGap(v: Vehicle, stopForRed: bool)
    ensures v.Update(stopForRed).targetY == v.targetY
    ensures LateralGap(v.Update(stopForRed)) <= (1.0 - LATERAL_RATE) * LateralGap(v)
  {
    var w := v.Update(stopForRed);
    if Abs(v.targetY - v.y) > SNAP_DISTANCE {
      assert w.y - v.targetY == (1.0 - LATERAL_RATE) * (v.y - v.targetY);
    }
  }

  lemma {:induction false} GapBoundMonotone(a: real, b: real, n: nat)
    requires a <= b
    ensures GapBound(a, n) <= GapBound(b, n)
  {
    if n > 0 {
      GapBoundMonotone(a, b, n - 1);
    }
  }

  lemma {:induction false} GapBoundShift(g: real, n: nat)
    ensures GapBound((1.0 - LATERAL_RATE) * g, n) == GapBound(g, n + 1)
  {
    if n > 0 {
      GapBoundShift(g, n - 1);
    }
  }

  /** After `n` frames the lateral gap is at most 0.92^n of the initial gap, and the target lane is unchanged. */
  lemma {:induction false} LateralGapShrinks(v: Vehicle, stopForRed: bool, n: nat)
    decreases n
    ensures Frames(v, stopForRed, n).targetY == v.targetY
    ensures LateralGap(Frames(v, stopForRed, n)) <= GapBound(LateralGap(v), n)
  {
    if n > 0 {
      var w := v.Update(stopForRed);
      LateralGapShrinks(w, stopForRed, n - 1);
      StepGap(v, stopForRed);
      GapBoundMonotone(LateralGap(w), (1.0 - LATERAL_RATE) * LateralGap(v), n - 1);
      GapBoundShift(LateralGap(v), n - 1);
    }
  }

  /** Lane changes terminate: once 0.92^n times the initial gap is within the snap distance,
      the vehicle sits exactly on its target lane after one more frame. */
  lemma LateralSettles(v: Vehicle, stopForRed: bool, n: nat)
    requires GapBound(LateralGap(v), n) <= SNAP_DISTANCE
    ensures Frames(v, stopForRed, n + 1).y == v.targetY
  {
    LateralGapShrinks(v, stopForRed, n);
    FramesSplit(v, stopForRed, n);
  }

  lemma {:induction false} FramesSplit(v: Vehicle, stopForRed: bool, n: nat)
    decreases n
    ensures Frames(v, stopForRed, n + 1) == Frames(v, stopForRed, n).Update(stopForRed)
  {
    if n > 0 {
      FramesSplit(v.Update(stopForRed), stopForRed, n - 1);
    }
  }

  /** Every lane change ends: lanes are at most 90 apart, and from any gap of at most 90 the
      vehicle is exactly on its target lane after 64 frames. */
  lemma LaneChangeEnds(v: Vehicle, stopForRed: bool)
    requires LateralGap(v) <= 2.0 * LANE_HEIGHT as real
    ensures Frames(v, stopForRed, 64).y == v.targetY
  {
    GapBoundMonotone(LateralGap(v), 90.0, 63);
    var k := 0;
    while k < 7
      invariant k <= 7
      invariant GapBound(90.0, 9 * k) <= 90.0 * NineFramePower(k)
    {
      GapBoundNine(90.0, 9 * k);
      k := k + 1;
    }
    LateralSettles(v, stopForRed, 63);
  }

  /** 0.92^(9k) written out, a bound on nine frames of smoothing repeated `k` times. */
  function NineFramePower(k: nat): real
  {
    if k == 0 then 1.0 else NINE_FRAMES * NineFramePower(k - 1)
  }

  /** 0.92^9, what nine frames of smoothing leave of a lateral gap. */
  const NINE_FRAMES: real := 0.92 * 0.92 * 0.92 * 0.92 * 0.92 * 0.92 * 0.92 * 0.92 * 0.92

  lemma GapBoundNine(g: real, n: nat)
    ensures GapBound(g, n + 9) == NINE_FRAMES * GapBound(g, n)
  {
    assert GapBound(g, n + 9) == 0.92 * GapBound(g, n + 8);
    assert GapBound(g, n + 8) == 0.92 * GapBound(g, n + 7);
    assert GapBound(g, n + 7) == 0.92 * GapBound(g, n + 6);
    assert GapBound(g, n + 6) == 0.92 * GapBound(g, n + 5);
    assert GapBound(g, n + 5) == 0.92 * GapBound(g, n + 4);
    assert GapBound(g, n + 4) == 0.92 * GapBound(g, n + 3);
    assert GapBound(g, n + 3) == 0.92 * GapBound(g, n + 2);
    assert GapBound(g, n + 2) == 0.92 * GapBound(g, n + 1);
    assert GapBound(g, n + 1) == 0.92 * GapBound(g, n);
  }
}
