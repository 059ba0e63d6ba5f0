/** The per-road rules of Simulation::Update: spawning, the off-screen sweep, the ambulance yield
    rule, red-light gating, car following and the bottom road's hospital stop. */
module Roads {
  import opened Constants
  import opened Options
  import opened Vehicles

  /** The top road carries traffic left to right, the bottom road right to left. */
  datatype Road = Top | Bottom

  /** A car on the centre lane yields when the ambulance is closer than this. */
  const YIELD_RANGE: real := 210.0
  /** A car stops for a red light when it is closer than this to the stop line. */
  const STOP_RANGE: real := 50.0
  /** Bottom-road ambulances steer to lane 2 once they are left of this x. */
  const STEER_X: real := 140.0
  /** Bottom-road ambulances park once they are at or left of this x... */
  const PARK_X: real := 28.0
  /** ...and are put at this x, in front of the hospital. */
  const HOSPITAL_X: real := 18.0
  /** Extra distance a leaving ambulance covers per frame on the bottom road. */
  const LEAVE_STEP: real := 2.2
  /** Speed of every ambulance. */
  const AMBULANCE_SPEED: real := 4.5

  /** Centre of lane `lane` (0, 1 or 2) of a road: laneYTop and laneYBottom. Lanes are
      LANE_HEIGHT apart and a vehicle on any of them lies within its road. */
  function LaneY(road: Road, lane: nat): (y: real)
    requires lane < 3
    ensures var top := if road == Top then ROAD_Y_TOP else ROAD_Y_BOTTOM;
            top as real < y && y + VEHICLE_HEIGHT <= (top + ROAD_HEIGHT) as real
    ensures 0 < lane ==> y - LaneY(road, lane - 1) == LANE_HEIGHT as real
  {
    ((if road == Top then ROAD_Y_TOP else ROAD_Y_BOTTOM) + 10 + lane * LANE_HEIGHT) as real
  }

  predicate IsLane(road: Road, y: real) {
    y == LaneY(road, 0) || y == LaneY(road, 1) || y == LaneY(road, 2)
  }

  /** Where new vehicles enter: 200 left of the screen for the top road, 200 right of it for the bottom road. */
  function EntryX(road: Road): real {
    if road == Top then -200.0 else (SCREEN_WIDTH + 200) as real
  }

  /** What the simulation keeps true of every vehicle on a road between frames. */
  predicate VehicleValid(road: Road, v: Vehicle) {
    && v.dirRight == (road == Top)
    && v.speed > 0.0
    && (v.IsAmbulance() ==>
          && !v.forcedStop
          && (v.targetY == LaneY(road, 1) || (road == Bottom && v.targetY == LaneY(road, 2)))
          && (v.kind.atHospital ==> road == Bottom && v.x <= HOSPITAL_X))
    && (!v.IsAmbulance() ==> IsLane(road, v.targetY) && (v.changedLane ==> v.targetY != LaneY(road, 1)))
  }

  predicate RoadValid(road: Road, vs: seq<Vehicle>) {
    forall v | v in vs :: VehicleValid(road, v)
  }

  // ---------------------------------------------------------------- spawning

  /** The values a car takes from the random source: its lane (0..2) and speed jitter (0..5 tenths). */
  datatype CarDraw = CarDraw(lane: int, jitter: int) {
    predicate Valid() { 0 <= lane <= 2 && 0 <= jitter <= 5 }
  }

  /** A car entering `road` at `startX`, driving along its lane at 2.0 to 2.5 per frame. */
  function NewCar(road: Road, startX: real, draw: CarDraw): (v: Vehicle)
    requires draw.Valid()
    ensures VehicleValid(road, v) && !v.IsAmbulance()
    ensures v.x == startX && v.y == v.targetY == LaneY(road, draw.lane)
    ensures 2.0 <= v.speed <= 2.5 && v.moving && !v.changedLane && !v.forcedStop
  {
    Vehicle(startX, LaneY(road, draw.lane), LaneY(road, draw.lane), 2.0 + draw.jitter as real / 10.0,
            true, road == Top, false, false, Car)
  }

  /** An ambulance entering `road` on the centre lane. */
  function NewAmbulance(road: Road): (v: Vehicle)
    ensures VehicleValid(road, v) && v.kind == Ambulance(false, 0.0)
    ensures v.moving && !v.changedLane && !v.forcedStop
    ensures v.x == EntryX(road) && v.y == v.targetY == LaneY(road, 1) && v.speed == AMBULANCE_SPEED
  {
    Vehicle(EntryX(road), LaneY(road, 1), LaneY(road, 1), AMBULANCE_SPEED, true, road == Top, false, false,
            Ambulance(false, 0.0))
  }

  /** Vehicles spawned at the entry edge are never swept in the frame they appear in. */
  lemma SpawnedOnScreen(road: Road, draw: CarDraw)
    requires draw.Valid()
    ensures !NewCar(road, EntryX(road), draw).IsOffScreen()
    ensures !NewAmbulance(road).IsOffScreen()
  {
  }

  // ---------------------------------------------------------------- sweep

  /** The vehicles of `vs` that are not off-screen, in their original order. */
  function OnScreen(vs: seq<Vehicle>): (r: seq<Vehicle>)
    ensures |r| <= |vs|
    ensures forall k | 0 <= k < |r| :: !r[k].IsOffScreen()
  {
    if vs == [] then []
    else
      var last := vs[|vs| - 1];
      assert vs == vs[..|vs| - 1] + [last];
      OnScreen(vs[..|vs| - 1]) + if last.IsOffScreen() then [] else [last]
  }

  /** Every on-screen vehicle is kept as often as it occurs; every off-screen one is dropped. */
  lemma {:induction false} OnScreenCounts(vs: seq<Vehicle>)
    decreases |vs|
    ensures forall v :: multiset(OnScreen(vs))[v] == if v.IsOffScreen() then 0 else multiset(vs)[v]
  {
    if vs != [] {
      var init := vs[..|vs| - 1];
      assert vs == init + [vs[|vs| - 1]];
      OnScreenCounts(init);
    }
  }

  /** The sweep keeps exactly the on-screen vehicles. */
  lemma OnScreenMembers(vs: seq<Vehicle>)
    ensures forall v | v in OnScreen(vs) :: v in vs && !v.IsOffScreen()
    ensures forall v | v in vs && !v.IsOffScreen() :: v in OnScreen(vs)
  {
    OnScreenCounts(vs);
    forall v ensures v in OnScreen(vs) <==> multiset(OnScreen(vs))[v] > 0 { }
    forall v ensures v in vs <==> multiset(vs)[v] > 0 { }
  }

  /** The sweep distributes over concatenation, so it keeps relative order. */
  lemma {:induction false} OnScreenAppend(a: seq<Vehicle>, b: seq<Vehicle>)
    decreases |b|
    ensures OnScreen(a + b) == OnScreen(a) + OnScreen(b)
  {
    if b == [] {
      assert a + b == a;
    } else {
      var b' := b[..|b| - 1];
      var last := b[|b| - 1];
      var ab := a + b;
      assert ab[..|ab| - 1] == a + b';
      assert ab[|ab| - 1] == last;
      assert OnScreen(ab) == OnScreen(a + b') + (if last.IsOffScreen() then [] else [last]);
      assert OnScreen(b) == OnScreen(b') + (if last.IsOffScreen() then [] else [last]);
      OnScreenAppend(a, b');
    }
  }

  /** The erase/remove_if sweep of main.cpp:240-249. */
  method Sweep(vs: seq<Vehicle>) returns (ws: seq<Vehicle>)
    ensures ws == OnScreen(vs)
  {
    ws := [];
    for k := 0 to |vs|
      invariant ws == OnScreen(vs[..k])
    {
      assert vs[..k + 1][..k] == vs[..k];
      if !vs[k].IsOffScreen() {
        ws := ws + [vs[k]];
      }
    }
    assert vs[..|vs|] == vs;
  }

  // ---------------------------------------------------------------- per-vehicle rules

  /** Index of the last ambulance on the road, which the yield rule watches. */
  function LastAmbulance(vs: seq<Vehicle>): (r: Option<nat>)
    ensures r.Some? ==> r.value < |vs| && vs[r.value].IsAmbulance()
    ensures r.Some? ==> forall j | r.value < j < |vs| :: !vs[j].IsAmbulance()
    ensures r.None? ==> forall j | 0 <= j < |vs| :: !vs[j].IsAmbulance()
  {
    if vs == [] then None
    else if vs[|vs| - 1].IsAmbulance() then Some(|vs| - 1)
    else LastAmbulance(vs[..|vs| - 1])
  }

  /** The loop of main.cpp:251-253 / 290-292 that remembers the last ambulance it meets. */
  method FindLastAmbulance(vs: seq<Vehicle>) returns (r: Option<nat>)
    ensures r == LastAmbulance(vs)
  {
    r := None;
    for k := 0 to |vs|
      invariant r == LastAmbulance(vs[..k])
    {
      assert vs[..k + 1][..k] == vs[..k];
      if vs[k].IsAmbulance() {
        r := Some(k);
      }
    }
    assert vs[..|vs|] == vs;
  }

  /** A car on the centre lane that has not changed lane yet and is close to the ambulance. */
  predicate MustYield(road: Road, v: Vehicle, ambulanceX: real) {
    !v.IsAmbulance() && v.targetY == LaneY(road, 1) && !v.changedLane && Abs(v.x - ambulanceX) < YIELD_RANGE
  }

  /** The yielding car heads for lane 0 or lane 2, as the random source decides, and never yields again. */
  function Yield(road: Road, v: Vehicle, toLane0: bool): (r: Vehicle)
    ensures r == v.(targetY := r.targetY, changedLane := true)
    ensures r.targetY == LaneY(road, 0) || r.targetY == LaneY(road, 2)
  {
    v.(targetY := if toLane0 then LaneY(road, 0) else LaneY(road, 2), changedLane := true)
  }

  predicate NearStopLine(red: bool, stopX: real, v: Vehicle) {
    red && Abs(v.x - stopX) < STOP_RANGE
  }

  /** `other` shares the target lane `targetY` of a vehicle at `x`, is ahead of it in the travel
      direction, and the gap between that vehicle and `other`'s rear is under SAFE_DISTANCE. */
  predicate Blocks(road: Road, x: real, targetY: real, other: Vehicle) {
    && targetY == other.targetY
    && match road
       case Top => other.x > x && (other.x - VEHICLE_WIDTH) - x < SAFE_DISTANCE
       case Bottom => other.x < x && x - (other.x + VEHICLE_WIDTH) < SAFE_DISTANCE
  }

  /** The inner loop of main.cpp:272-284 / 329-341: is vehicle `i` too close behind another one? */
  method Blocked(road: Road, vs: seq<Vehicle>, i: nat) returns (b: bool)
    requires i < |vs|
    ensures b <==> exists j | 0 <= j < |vs| && j != i :: Blocks(road, vs[i].x, vs[i].targetY, vs[j])
  {
    b := false;
    var v := vs[i];
    for j := 0 to |vs|
      invariant forall k | 0 <= k < j && k != i :: !Blocks(road, v.x, v.targetY, vs[k])
    {
      if i == j {
        continue;
      }
      var other := vs[j];
      if v.targetY == other.targetY {
        if road == Top && other.x > v.x {
          var front := other.x - VEHICLE_WIDTH;
          if front - v.x < SAFE_DISTANCE {
            b := true;
            break;
          }
        } else if road == Bottom && other.x < v.x {
          var front := other.x + VEHICLE_WIDTH;
          if v.x - front < SAFE_DISTANCE {
            b := true;
            break;
          }
        }
      }
    }
  }

  /** The bottom road's hospital logic (main.cpp:303-318), run on an ambulance before its own Update. */
  function HospitalStep(v: Vehicle, frameTime: real): (r: Vehicle)
    requires v.IsAmbulance()
    ensures r.IsAmbulance() && r == v.(x := r.x, targetY := r.targetY, moving := r.moving, kind := r.kind)
    ensures r.targetY ==
              if !v.kind.atHospital && v.x < STEER_X && Abs(v.targetY - LaneY(Bottom, 1)) < 3.0
              then LaneY(Bottom, 2) else v.targetY
    ensures !v.kind.atHospital && !Parks(v) ==> r.kind == v.kind && r.x == v.x && r.moving == v.moving
    ensures Parks(v) ==> r.kind == Ambulance(true, frameTime)
    ensures Parks(v) && frameTime <= HOSPITAL_WAIT ==> r.x == HOSPITAL_X && !r.moving
    ensures Parks(v) && frameTime > HOSPITAL_WAIT ==> r.x == HOSPITAL_X - LEAVE_STEP && r.moving
    ensures v.kind.atHospital && v.x <= HOSPITAL_X ==>
              r.kind == Ambulance(true, v.kind.hospitalTimer + frameTime)
    ensures v.kind.atHospital && v.x <= HOSPITAL_X && r.kind.hospitalTimer > HOSPITAL_WAIT ==>
              r.x == v.x - LEAVE_STEP && r.moving
    ensures v.kind.atHospital && v.x <= HOSPITAL_X && r.kind.hospitalTimer <= HOSPITAL_WAIT ==>
              r.x == v.x && r.moving == v.moving
    ensures v.kind.atHospital && v.x > HOSPITAL_X ==> r == v
  {
    var steered :=
      if !v.kind.atHospital && v.x < STEER_X && Abs(v.targetY - LaneY(Bottom, 1)) < 3.0
      then v.(targetY := LaneY(Bottom, 2)) else v;
    // steering changes only targetY, so the parking test reads the same on `v` and on `steered`
    var parked :=
      if Parks(v)
      then steered.(x := HOSPITAL_X, moving := false, kind := Ambulance(true, 0.0)) else steered;
    if parked.kind.atHospital && parked.x <= HOSPITAL_X then
      var t := parked.kind.hospitalTimer + frameTime;
      if t > HOSPITAL_WAIT then parked.(moving := true, x := parked.x - LEAVE_STEP, kind := Ambulance(true, t))
      else parked.(kind := Ambulance(true, t))
    else parked
  }

  /** The parking condition of main.cpp:306: close enough to the hospital and settled on lane 2. */
  predicate Parks(v: Vehicle) {
    v.IsAmbulance() && !v.kind.atHospital && v.x <= PARK_X && Abs(v.y - LaneY(Bottom, 2)) < 2.0
  }

  /** One frame of an ambulance: top-road ambulances just drive through, bottom-road ones run
      the hospital logic first. */
  function AmbulanceFrame(road: Road, v: Vehicle, frameTime: real): (r: Vehicle)
    requires v.IsAmbulance()
    ensures r.IsAmbulance() && r.dirRight == v.dirRight && r.speed == v.speed
    ensures VehicleValid(road, v) ==> VehicleValid(road, r)
  {
    (if road == Bottom then HospitalStep(v, frameTime) else v).AmbulanceUpdate(false, frameTime)
  }

  /** The frame in which a bottom-road ambulance parks: it is put at HOSPITAL_X, stops, and its
      hospital timer ends the frame at twice the frame time, because both the hospital logic and
      Ambulance::Update add the frame time once it is parked. */
  lemma ParkingFrame(v: Vehicle, frameTime: real)
    requires Parks(v) && 0.0 <= frameTime && 2.0 * frameTime <= HOSPITAL_WAIT
    ensures var r := AmbulanceFrame(Bottom, v, frameTime);
            && r.x == HOSPITAL_X && !r.moving && r.y == v.y
            && r.kind == Ambulance(true, 2.0 * frameTime)
  {
  }

  /** While its timer stays within HOSPITAL_WAIT a parked ambulance does not move. */
  lemma WaitingFrame(v: Vehicle, frameTime: real)
    requires v.IsAmbulance() && v.kind.atHospital && v.x <= HOSPITAL_X && 0.0 <= frameTime
    requires v.kind.hospitalTimer + 2.0 * frameTime <= HOSPITAL_WAIT
    ensures var r := AmbulanceFrame(Bottom, v, frameTime);
            r.x == v.x && r.y == v.y && r.kind == Ambulance(true, v.kind.hospitalTimer + 2.0 * frameTime)
  {
  }

  /** Once its timer has passed HOSPITAL_WAIT a parked ambulance moves left every frame, by
      LEAVE_STEP plus 2.5 times its speed, until the sweep drops it. */
  lemma LeavingFrame(v: Vehicle, frameTime: real)
    requires v.IsAmbulance() && v.kind.atHospital && v.x <= HOSPITAL_X && 0.0 <= frameTime
    requires v.kind.hospitalTimer > HOSPITAL_WAIT
    ensures var r := AmbulanceFrame(Bottom, v, frameTime);
            && r.x == v.x - LEAVE_STEP - 2.5 * v.speed
            && r.kind.atHospital && r.kind.hospitalTimer > HOSPITAL_WAIT
            && (v.speed > 0.0 ==> r.x < v.x)
  {
  }

  /** Before parking, a moving ambulance advances by its speed on either road: the pass never
      asks it to stop, and its own Update ignores any stop request. */
  lemma AmbulanceIgnoresStops(road: Road, v: Vehicle, frameTime: real)
    requires v.IsAmbulance() && !v.kind.atHospital && !Parks(v) && v.moving && !v.forcedStop
    ensures AmbulanceFrame(road, v, frameTime).x == v.x + v.Heading() * v.speed
  {
  }

  /** Top-road ambulances never park: only the bottom road has a hospital. */
  lemma TopAmbulanceDrivesThrough(v: Vehicle, frameTime: real)
    requires v.IsAmbulance() && !v.kind.atHospital
    ensures !AmbulanceFrame(Top, v, frameTime).kind.atHospital
  {
  }

  // ---------------------------------------------------------------- the per-road pass

  /** What one road's pass reads besides its vehicles: the light's phase and stop line, the frame
      time, and the random lane choice of each yielding car (by its index). */
  datatype PassInputs = PassInputs(red: bool, stopX: real, frameTime: real, toLane0: nat -> bool)

  /** A car's part of its turn (main.cpp:266-287): stop when near a red light's stop line or too
      close behind a vehicle of its lane, then move. */
  function CarTurn(road: Road, inputs: PassInputs, cur: seq<Vehicle>, i: nat, v: Vehicle): (r: Vehicle)
    requires i < |cur|
    ensures r == v.(x := r.x, y := r.y, forcedStop := r.forcedStop)
    ensures r.forcedStop <==>
              || NearStopLine(inputs.red, inputs.stopX, v)
              || exists j | 0 <= j < |cur| && j != i :: Blocks(road, v.x, v.targetY, cur[j])
    ensures r.forcedStop || !v.moving ==> r.x == v.x
    ensures !r.forcedStop && v.moving ==> r.x - v.x == v.Heading() * v.speed
    ensures Abs(v.targetY - v.y) > SNAP_DISTANCE ==> r.y - v.targetY == (1.0 - LATERAL_RATE) * (v.y - v.targetY)
    ensures Abs(v.targetY - v.y) <= SNAP_DISTANCE ==> r.y == v.targetY
  {
    var stop := NearStopLine(inputs.red, inputs.stopX, v)
                || exists j | 0 <= j < |cur| && j != i :: Blocks(road, v.x, v.targetY, cur[j]);
    v.(forcedStop := stop).Update(stop)
  }

  /** Vehicle `i` after its turn in the pass, given the road `cur` as it stands at that moment
      (vehicles before `i` already updated this frame, the others not yet) and the index of the
      ambulance the yield rule watches. */
  function Process(road: Road, inputs: PassInputs, amb: Option<nat>, cur: seq<Vehicle>, i: nat): (r: Vehicle)
    requires i < |cur| && (amb.Some? ==> amb.value < |cur|)
    ensures r.IsAmbulance() == cur[i].IsAmbulance() && r.dirRight == cur[i].dirRight && r.speed == cur[i].speed
    ensures cur[i].IsAmbulance() ==> r == AmbulanceFrame(road, cur[i], inputs.frameTime)
    ensures !cur[i].IsAmbulance() ==>
              var yielded := amb.Some? && MustYield(road, cur[i], cur[amb.value].x);
              && r.changedLane == (cur[i].changedLane || yielded)
              && r.targetY == (if yielded then Yield(road, cur[i], inputs.toLane0(i)).targetY else cur[i].targetY)
    ensures !cur[i].IsAmbulance() ==>
              (r.forcedStop <==>
                 || NearStopLine(inputs.red, inputs.stopX, cur[i])
                 || exists j | 0 <= j < |cur| && j != i :: Blocks(road, cur[i].x, r.targetY, cur[j]))
    ensures !cur[i].IsAmbulance() && (r.forcedStop || !cur[i].moving) ==> r.x == cur[i].x
    ensures !cur[i].IsAmbulance() && !r.forcedStop && cur[i].moving ==> r.x - cur[i].x == cur[i].Heading() * cur[i].speed
    ensures !cur[i].IsAmbulance() ==>
              r == cur[i].(x := r.x, y := r.y, targetY := r.targetY, changedLane := r.changedLane, forcedStop := r.forcedStop)
    ensures !cur[i].IsAmbulance() && Abs(r.targetY - cur[i].y) > SNAP_DISTANCE ==>
              r.y - r.targetY == (1.0 - LATERAL_RATE) * (cur[i].y - r.targetY)
    ensures !cur[i].IsAmbulance() && Abs(r.targetY - cur[i].y) <= SNAP_DISTANCE ==> r.y == r.targetY
  {
    var v := if amb.Some? && MustYield(road, cur[i], cur[amb.value].x) then Yield(road, cur[i], inputs.toLane0(i)) else cur[i];
    if v.IsAmbulance() then AmbulanceFrame(road, v, inputs.frameTime) else CarTurn(road, inputs, cur, i, v)
  }

  /** A vehicle's turn keeps the road invariant: yielding cars leave the centre lane for good,
      ambulances keep their lane, flags and hospital position. */
  lemma ProcessKeepsValid(road: Road, inputs: PassInputs, amb: Option<nat>, cur: seq<Vehicle>, i: nat)
    requires i < |cur| && (amb.Some? ==> amb.value < |cur|)
    requires VehicleValid(road, cur[i])
    ensures VehicleValid(road, Process(road, inputs, amb, cur, i))
  {
    var r := Process(road, inputs, amb, cur, i);
    if !cur[i].IsAmbulance() {
      assert IsLane(road, r.targetY);
    }
  }

  /** The whole pass: each vehicle, in list order, is processed against the road as it stands
      when its turn comes, so it sees its predecessors' new state and its successors' old state. */
  ghost predicate IsPass(road: Road, inputs: PassInputs, vs: seq<Vehicle>, ws: seq<Vehicle>) {
    && |ws| == |vs|
    && forall i | 0 <= i < |vs| :: ws[i] == Process(road, inputs, LastAmbulance(vs), ws[..i] + vs[i..], i)
  }

  /** One iteration of the pass loop: vehicle `i`'s turn on the road as it stands (`cur`).
      It follows the statements of main.cpp step by step, with the following scan done by the
      loop in `Blocked`; its contract ties it to `Process`, the functional form the pass
      lemmas reason about. */
  method Turn(road: Road, inputs: PassInputs, amb: Option<nat>, cur: seq<Vehicle>, i: nat) returns (w: Vehicle)
    requires i < |cur| && (amb.Some? ==> amb.value < |cur|)
    ensures w == Process(road, inputs, amb, cur, i)
  {
    var road' := cur;
    var v := road'[i];
    if amb.Some? && MustYield(road, v, road'[amb.value].x) {
      v := Yield(road, v, inputs.toLane0(i));
      road' := road'[i := v];
    }
    if v.IsAmbulance() {
      if road == Bottom {
        v := HospitalStep(v, inputs.frameTime);
      }
      return v.AmbulanceUpdate(false, inputs.frameTime);
    }
    var stop := NearStopLine(inputs.red, inputs.stopX, v);
    if !stop {
      stop := Blocked(road, road', i);
      assert forall j | 0 <= j < |cur| && j != i :: road'[j] == cur[j];
    }
    assert v.targetY == road'[i].targetY;
    v := v.(forcedStop := stop);
    w := v.Update(v.forcedStop);
  }

  /** One road's share of Simulation::Update after the sweep (main.cpp:250-288 for the top road,
      289-345 for the bottom road). */
  method RoadPass(road: Road, inputs: PassInputs, vs: seq<Vehicle>) returns (ws: seq<Vehicle>)
    ensures IsPass(road, inputs, vs, ws)
  {
    var amb := FindLastAmbulance(vs);
    ws := vs;
    for i := 0 to |ws|
      invariant |ws| == |vs|
      invariant forall k | i <= k < |vs| :: ws[k] == vs[k]
      invariant forall k | 0 <= k < i :: ws[k] == Process(road, inputs, amb, ws[..k] + vs[k..], k)
    {
      assert ws == ws[..i] + vs[i..];
      var w := Turn(road, inputs, amb, ws, i);
      ghost var before := ws;
      ws := ws[i := w];
      assert forall k | 0 <= k <= i :: ws[..k] == before[..k];
    }
  }

  /** Vehicle `j` as vehicle `i` sees it during the pass. */
  lemma ViewAt(vs: seq<Vehicle>, ws: seq<Vehicle>, i: nat, j: nat)
    requires |ws| == |vs| && i < |vs| && j < |vs|
    ensures |ws[..i] + vs[i..]| == |vs|
    ensures (ws[..i] + vs[i..])[j] == if j < i then ws[j] else vs[j]
  {
  }

  /** Every road invariant survives the pass. */
  lemma PassKeepsRoadValid(road: Road, inputs: PassInputs, vs: seq<Vehicle>, ws: seq<Vehicle>)
    requires RoadValid(road, vs) && IsPass(road, inputs, vs, ws)
    ensures RoadValid(road, ws)
  {
    forall w | w in ws ensures VehicleValid(road, w) {
      var i :| 0 <= i < |ws| && ws[i] == w;
      ViewAt(vs, ws, i, i);
      ProcessKeepsValid(road, inputs, LastAmbulance(vs), ws[..i] + vs[i..], i);
    }
  }

  /** Red-light gating and car following (main.cpp:266-287): a car is stopped exactly when it is
      near the stop line of a red light or too close behind a vehicle in its (possibly new) lane,
      judged against the vehicles before it at their new positions and those after it at their old
      ones; a stopped car keeps its x, a free moving car advances by its speed. */
  lemma PassStopRule(road: Road, inputs: PassInputs, vs: seq<Vehicle>, ws: seq<Vehicle>, i: nat)
    requires IsPass(road, inputs, vs, ws) && i < |vs| && !vs[i].IsAmbulance()
    ensures ws[i].forcedStop <==>
              || NearStopLine(inputs.red, inputs.stopX, vs[i])
              || exists j | 0 <= j < |vs| && j != i ::
                   Blocks(road, vs[i].x, ws[i].targetY, if j < i then ws[j] else vs[j])
    ensures ws[i].forcedStop ==> ws[i].x == vs[i].x
    ensures !ws[i].forcedStop && vs[i].moving ==> ws[i].x == vs[i].x + vs[i].Heading() * vs[i].speed
  {
    var cur := ws[..i] + vs[i..];
    ViewAt(vs, ws, i, i);
    forall j | 0 <= j < |vs| ensures cur[j] == if j < i then ws[j] else vs[j] {
      ViewAt(vs, ws, i, j);
    }
  }

  /** A car's turn changes only its position, its lane target and its two flags, and its lateral
      position takes one smoothing step toward its (possibly new) target lane in the same frame
      (main.cpp:67-70, called at 287 and 344). */
  lemma PassLaneStep(road: Road, inputs: PassInputs, vs: seq<Vehicle>, ws: seq<Vehicle>, i: nat)
    requires IsPass(road, inputs, vs, ws) && i < |vs| && !vs[i].IsAmbulance()
    ensures ws[i] == vs[i].(x := ws[i].x, y := ws[i].y, targetY := ws[i].targetY,
                            changedLane := ws[i].changedLane, forcedStop := ws[i].forcedStop)
    ensures Abs(ws[i].targetY - vs[i].y) > SNAP_DISTANCE ==>
              ws[i].y - ws[i].targetY == (1.0 - LATERAL_RATE) * (vs[i].y - ws[i].targetY)
    ensures Abs(ws[i].targetY - vs[i].y) <= SNAP_DISTANCE ==> ws[i].y == ws[i].targetY
  {
    ViewAt(vs, ws, i, i);
  }

  /** The ambulance yield rule (main.cpp:251-260): a car yields exactly when it is on the centre
      lane, has not changed lane before and is within range of the last ambulance on the road
      (at its position of the moment); it then targets lane 0 or 2 for good. */
  lemma PassYieldRule(road: Road, inputs: PassInputs, vs: seq<Vehicle>, ws: seq<Vehicle>, i: nat)
    requires IsPass(road, inputs, vs, ws) && i < |vs| && !vs[i].IsAmbulance()
    ensures var amb := LastAmbulance(vs);
            var yielded := amb.Some? && MustYield(road, vs[i], if amb.value < i then ws[amb.value].x else vs[amb.value].x);
            && ws[i].changedLane == (vs[i].changedLane || yielded)
            && (yielded ==> ws[i].targetY == (if inputs.toLane0(i) then LaneY(road, 0) else LaneY(road, 2)))
            && (!yielded ==> ws[i].targetY == vs[i].targetY)
    ensures vs[i].changedLane ==> ws[i].targetY == vs[i].targetY && ws[i].changedLane
  {
    var amb := LastAmbulance(vs);
    ViewAt(vs, ws, i, i);
    if amb.Some? {
      ViewAt(vs, ws, i, amb.value);
    }
  }

  /** Ambulances are only moved by their own state machine, never stopped by the pass. */
  lemma PassMovesAmbulances(road: Road, inputs: PassInputs, vs: seq<Vehicle>, ws: seq<Vehicle>, i: nat)
    requires IsPass(road, inputs, vs, ws) && i < |vs| && vs[i].IsAmbulance()
    ensures ws[i] == AmbulanceFrame(road, vs[i], inputs.frameTime)
  {
    ViewAt(vs, ws, i, i);
  }
}
