/** The simulation object: two opposing roads, their traffic lights, spawn timers and the
    per-frame update. */
module Simulations {
  import opened Constants
  import opened Vehicles
  import opened TrafficLights
  import opened Roads

  /** Everything one frame takes from the random source (GetRandomValue). */
  datatype FrameDraws = FrameDraws(
    carThresholdTop: int,         // GetRandomValue(3, 5)
    carThresholdBottom: int,      // GetRandomValue(3, 5)
    ambulanceThresholdTop: int,   // GetRandomValue(15, 20)
    ambulanceThresholdBottom: int, // GetRandomValue(15, 20)
    carTop: CarDraw,              // lane and speed jitter of a car spawned on the top road
    carBottom: CarDraw,           // ... and on the bottom road
    yieldTop: nat -> bool,        // GetRandomValue(0, 1) == 0 for the yielding car at each index
    yieldBottom: nat -> bool)
  {
    predicate Valid() {
      && 3 <= carThresholdTop <= 5 && 3 <= carThresholdBottom <= 5
      && 15 <= ambulanceThresholdTop <= 20 && 15 <= ambulanceThresholdBottom <= 20
      && carTop.Valid() && carBottom.Valid()
    }
  }

  /** The vehicles a frame appends to a road before the sweep: a car when the car timer is due,
      then an ambulance when the ambulance timer is due. */
  function Spawned(road: Road, carDue: bool, ambulanceDue: bool, draw: CarDraw): (r: seq<Vehicle>)
    requires draw.Valid()
    ensures RoadValid(road, r)
    ensures forall k | 0 <= k < |r| :: !r[k].IsOffScreen()
  {
    (if carDue then [NewCar(road, EntryX(road), draw)] else []) + (if ambulanceDue then [NewAmbulance(road)] else [])
  }

  /** Where Init puts the car of lane `lane`: one car per lane, 150 apart, behind the entry edge. */
  function InitialX(road: Road, lane: nat): real {
    if road == Top then -200.0 - (lane * 150) as real else (SCREEN_WIDTH + 200 + lane * 150) as real
  }

  class Simulation {
    var vehiclesTop: seq<Vehicle>
    var vehiclesBottom: seq<Vehicle>
    const lightTop: TrafficLight
    const lightBottom: TrafficLight
    var carSpawnTimerTop: real
    var carSpawnTimerBottom: real
    var ambulanceSpawnTimerTop: real
    var ambulanceSpawnTimerBottom: real
    var ambulanceCountTop: int
    var ambulanceCountBottom: int

    ghost predicate Valid()
      reads this, lightTop, lightBottom
    {
      && lightTop != lightBottom
      && lightTop.Valid() && lightBottom.Valid()
      && RoadValid(Top, vehiclesTop) && RoadValid(Bottom, vehiclesBottom)
      && 0 <= ambulanceCountTop && 0 <= ambulanceCountBottom
    }

    constructor ()
      ensures Valid() && fresh(lightTop) && fresh(lightBottom)
      ensures vehiclesTop == [] && vehiclesBottom == []
      ensures lightTop.box == Rect(720.0, 30.0, 20.0, 60.0) && lightTop.cycleTime == 5.0
      ensures lightBottom.box == Rect(650.0, 440.0, 20.0, 60.0) && lightBottom.cycleTime == 5.0
      ensures lightTop.red && lightBottom.red && lightTop.timer == 0.0 && lightBottom.timer == 0.0
      ensures carSpawnTimerTop == carSpawnTimerBottom == 0.0
      ensures ambulanceSpawnTimerTop == ambulanceSpawnTimerBottom == 0.0
      ensures ambulanceCountTop == ambulanceCountBottom == 0
    {
      vehiclesTop := [];
      vehiclesBottom := [];
      lightTop := new TrafficLight((SCREEN_WIDTH / 2 - 80) as real, (ROAD_Y_TOP - 80) as real, 5.0);
      lightBottom := new TrafficLight((SCREEN_WIDTH / 2 - 150) as real, (ROAD_Y_BOTTOM + ROAD_HEIGHT + 20) as real, 5.0);
      carSpawnTimerTop, carSpawnTimerBottom := 0.0, 0.0;
      ambulanceSpawnTimerTop, ambulanceSpawnTimerBottom := 0.0, 0.0;
      ambulanceCountTop, ambulanceCountBottom := 0, 0;
    }

    /** Puts one car on every lane of both roads, each with its own speed jitter. */
    method Init(jitterTop: seq<int>, jitterBottom: seq<int>)
      requires Valid()
      requires |jitterTop| == 3 && |jitterBottom| == 3
      requires forall k | 0 <= k < 3 :: 0 <= jitterTop[k] <= 5 && 0 <= jitterBottom[k] <= 5
      modifies this
      ensures Valid()
      ensures |vehiclesTop| == |old(vehiclesTop)| + 3 && vehiclesTop[..|old(vehiclesTop)|] == old(vehiclesTop)
      ensures |vehiclesBottom| == |old(vehiclesBottom)| + 3 && vehiclesBottom[..|old(vehiclesBottom)|] == old(vehiclesBottom)
      ensures forall lane | 0 <= lane < 3 ::
                && vehiclesTop[|old(vehiclesTop)| + lane] == NewCar(Top, InitialX(Top, lane), CarDraw(lane, jitterTop[lane]))
                && vehiclesBottom[|old(vehiclesBottom)| + lane] == NewCar(Bottom, InitialX(Bottom, lane), CarDraw(lane, jitterBottom[lane]))
      ensures forall k | |old(vehiclesTop)| <= k < |vehiclesTop| :: !vehiclesTop[k].IsOffScreen()
      ensures forall k | |old(vehiclesBottom)| <= k < |vehiclesBottom| :: !vehiclesBottom[k].IsOffScreen()
      ensures carSpawnTimerTop == old(carSpawnTimerTop) && carSpawnTimerBottom == old(carSpawnTimerBottom)
      ensures ambulanceSpawnTimerTop == old(ambulanceSpawnTimerTop) && ambulanceSpawnTimerBottom == old(ambulanceSpawnTimerBottom)
      ensures ambulanceCountTop == old(ambulanceCountTop) && ambulanceCountBottom == old(ambulanceCountBottom)
    {
      ghost var nTop, nBottom := |vehiclesTop|, |vehiclesBottom|;
      for lane := 0 to 3
        invariant Valid()
        invariant |vehiclesTop| == nTop + lane && vehiclesTop[..nTop] == old(vehiclesTop)
        invariant |vehiclesBottom| == nBottom + lane && vehiclesBottom[..nBottom] == old(vehiclesBottom)
        invariant forall l | 0 <= l < lane ::
                    && vehiclesTop[nTop + l] == NewCar(Top, InitialX(Top, l), CarDraw(l, jitterTop[l]))
                    && vehiclesBottom[nBottom + l] == NewCar(Bottom, InitialX(Bottom, l), CarDraw(l, jitterBottom[l]))
        invariant carSpawnTimerTop == old(carSpawnTimerTop) && carSpawnTimerBottom == old(carSpawnTimerBottom)
        invariant ambulanceSpawnTimerTop == old(ambulanceSpawnTimerTop) && ambulanceSpawnTimerBottom == old(ambulanceSpawnTimerBottom)
        invariant ambulanceCountTop == old(ambulanceCountTop) && ambulanceCountBottom == old(ambulanceCountBottom)
        invariant forall k | nTop <= k < |vehiclesTop| :: !vehiclesTop[k].IsOffScreen()
        invariant forall k | nBottom <= k < |vehiclesBottom| :: !vehiclesBottom[k].IsOffScreen()
      {
        vehiclesTop := vehiclesTop + [NewCar(Top, InitialX(Top, lane), CarDraw(lane, jitterTop[lane]))];
        vehiclesBottom := vehiclesBottom + [NewCar(Bottom, InitialX(Bottom, lane), CarDraw(lane, jitterBottom[lane]))];
      }
    }

    method SpawnCarTop(draw: CarDraw)
      requires Valid() && draw.Valid()
      modifies this
      ensures Valid()
      ensures vehiclesTop == old(vehiclesTop) + [NewCar(Top, EntryX(Top), draw)]
      ensures vehiclesBottom == old(vehiclesBottom)
      ensures carSpawnTimerTop == old(carSpawnTimerTop) && carSpawnTimerBottom == old(carSpawnTimerBottom)
      ensures ambulanceSpawnTimerTop == old(ambulanceSpawnTimerTop) && ambulanceSpawnTimerBottom == old(ambulanceSpawnTimerBottom)
      ensures ambulanceCountTop == old(ambulanceCountTop) && ambulanceCountBottom == old(ambulanceCountBottom)
    {
      vehiclesTop := vehiclesTop + [NewCar(Top, EntryX(Top), draw)];
    }

    method SpawnCarBottom(draw: CarDraw)
      requires Valid() && draw.Valid()
      modifies this
      ensures Valid()
      ensures vehiclesBottom == old(vehiclesBottom) + [NewCar(Bottom, EntryX(Bottom), draw)]
      ensures vehiclesTop == old(vehiclesTop)
      ensures carSpawnTimerTop == old(carSpawnTimerTop) && carSpawnTimerBottom == old(carSpawnTimerBottom)
      ensures ambulanceSpawnTimerTop == old(ambulanceSpawnTimerTop) && ambulanceSpawnTimerBottom == old(ambulanceSpawnTimerBottom)
      ensures ambulanceCountTop == old(ambulanceCountTop) && ambulanceCountBottom == old(ambulanceCountBottom)
    {
      vehiclesBottom := vehiclesBottom + [NewCar(Bottom, EntryX(Bottom), draw)];
    }

    /** Adds an ambulance to the top road, counts it and restarts the top ambulance timer. */
    method SpawnAmbulanceTop()
      requires Valid()
      modifies this
      ensures Valid()
      ensures vehiclesTop == old(vehiclesTop) + [NewAmbulance(Top)]
      ensures ambulanceCountTop == old(ambulanceCountTop) + 1 && ambulanceSpawnTimerTop == 0.0
      ensures vehiclesBottom == old(vehiclesBottom)
      ensures carSpawnTimerTop == old(carSpawnTimerTop) && carSpawnTimerBottom == old(carSpawnTimerBottom)
      ensures ambulanceSpawnTimerBottom == old(ambulanceSpawnTimerBottom) && ambulanceCountBottom == old(ambulanceCountBottom)
    {
      vehiclesTop := vehiclesTop + [NewAmbulance(Top)];
      ambulanceCountTop := ambulanceCountTop + 1;
      ambulanceSpawnTimerTop := 0.0;
    }

    /** Adds an ambulance to the bottom road, counts it and restarts the bottom ambulance timer. */
    method SpawnAmbulanceBottom()
      requires Valid()
      modifies this
      ensures Valid()
      ensures vehiclesBottom == old(vehiclesBottom) + [NewAmbulance(Bottom)]
      ensures ambulanceCountBottom == old(ambulanceCountBottom) + 1 && ambulanceSpawnTimerBottom == 0.0
      ensures vehiclesTop == old(vehiclesTop)
      ensures carSpawnTimerTop == old(carSpawnTimerTop) && carSpawnTimerBottom == old(carSpawnTimerBottom)
      ensures ambulanceSpawnTimerTop == old(ambulanceSpawnTimerTop) && ambulanceCountTop == old(ambulanceCountTop)
    {
      vehiclesBottom := vehiclesBottom + [NewAmbulance(Bottom)];
      ambulanceCountBottom := ambulanceCountBottom + 1;
      ambulanceSpawnTimerBottom := 0.0;
    }

    /** The spawn part of a frame (main.cpp:220-237): each timer accumulates `delta`; a car timer
        that reaches its drawn threshold restarts and spawns a car, an ambulance timer that reaches
        its threshold spawns an ambulance (which restarts it). */
    method SpawnVehicles(delta: real, draws: FrameDraws)
      requires Valid() && draws.Valid()
      modifies this
      ensures Valid()
      ensures var due := old(carSpawnTimerTop) + delta >= draws.carThresholdTop as real;
              carSpawnTimerTop == if due then 0.0 else old(carSpawnTimerTop) + delta
      ensures var due := old(carSpawnTimerBottom) + delta >= draws.carThresholdBottom as real;
              carSpawnTimerBottom == if due then 0.0 else old(carSpawnTimerBottom) + delta
      ensures var due := old(ambulanceSpawnTimerTop) + delta >= draws.ambulanceThresholdTop as real;
              && ambulanceSpawnTimerTop == (if due then 0.0 else old(ambulanceSpawnTimerTop) + delta)
              && ambulanceCountTop == old(ambulanceCountTop) + (if due then 1 else 0)
      ensures var due := old(ambulanceSpawnTimerBottom) + delta >= draws.ambulanceThresholdBottom as real;
              && ambulanceSpawnTimerBottom == (if due then 0.0 else old(ambulanceSpawnTimerBottom) + delta)
              && ambulanceCountBottom == old(ambulanceCountBottom) + (if due then 1 else 0)
      ensures vehiclesTop == old(vehiclesTop) +
                Spawned(Top, old(carSpawnTimerTop) + delta >= draws.carThresholdTop as real,
                        old(ambulanceSpawnTimerTop) + delta >= draws.ambulanceThresholdTop as real, draws.carTop)
      ensures vehiclesBottom == old(vehiclesBottom) +
                Spawned(Bottom, old(carSpawnTimerBottom) + delta >= draws.carThresholdBottom as real,
                        old(ambulanceSpawnTimerBottom) + delta >= draws.ambulanceThresholdBottom as real, draws.carBottom)
    {
      carSpawnTimerTop := carSpawnTimerTop + delta;
      if carSpawnTimerTop >= draws.carThresholdTop as real {
        carSpawnTimerTop := 0.0;
        SpawnCarTop(draws.carTop);
      }
      carSpawnTimerBottom := carSpawnTimerBottom + delta;
      if carSpawnTimerBottom >= draws.carThresholdBottom as real {
        carSpawnTimerBottom := 0.0;
        SpawnCarBottom(draws.carBottom);
      }
      ambulanceSpawnTimerTop := ambulanceSpawnTimerTop + delta;
      if ambulanceSpawnTimerTop >= draws.ambulanceThresholdTop as real {
        SpawnAmbulanceTop();
      }
      ambulanceSpawnTimerBottom := ambulanceSpawnTimerBottom + delta;
      if ambulanceSpawnTimerBottom >= draws.ambulanceThresholdBottom as real {
        SpawnAmbulanceBottom();
      }
    }

    /** The vehicle part of a frame (main.cpp:240-345): sweep both roads, then run each road's pass
        against its light as it stands after this frame's light update. */
    method MoveVehicles(frameTime: real, draws: FrameDraws)
      requires Valid()
      modifies this
      ensures Valid()
      ensures IsPass(Top, PassInputs(lightTop.red, lightTop.GetStopLineX(false), frameTime, draws.yieldTop),
                     OnScreen(old(vehiclesTop)), vehiclesTop)
      ensures IsPass(Bottom, PassInputs(lightBottom.red, lightBottom.GetStopLineX(true), frameTime, draws.yieldBottom),
                     OnScreen(old(vehiclesBottom)), vehiclesBottom)
      ensures carSpawnTimerTop == old(carSpawnTimerTop) && carSpawnTimerBottom == old(carSpawnTimerBottom)
      ensures ambulanceSpawnTimerTop == old(ambulanceSpawnTimerTop) && ambulanceSpawnTimerBottom == old(ambulanceSpawnTimerBottom)
      ensures ambulanceCountTop == old(ambulanceCountTop) && ambulanceCountBottom == old(ambulanceCountBottom)
    {
      vehiclesTop := Sweep(vehiclesTop);
      vehiclesBottom := Sweep(vehiclesBottom);
      OnScreenMembers(old(vehiclesTop));
      OnScreenMembers(old(vehiclesBottom));

      var inputsTop := PassInputs(lightTop.IsRed(), lightTop.GetStopLineX(false), frameTime, draws.yieldTop);
      var top := RoadPass(Top, inputsTop, vehiclesTop);
      PassKeepsRoadValid(Top, inputsTop, vehiclesTop, top);
      vehiclesTop := top;

      var inputsBottom := PassInputs(lightBottom.IsRed(), lightBottom.GetStopLineX(true), frameTime, draws.yieldBottom);
      var bottom := RoadPass(Bottom, inputsBottom, vehiclesBottom);
      PassKeepsRoadValid(Bottom, inputsBottom, vehiclesBottom, bottom);
      vehiclesBottom := bottom;
    }

    /** One frame (main.cpp:219-346): spawns, lights, sweep, then each road's pass. `frameTime`
        is what GetFrameTime() returns during the frame, which the ambulances read directly. */
    method Update(delta: real, frameTime: real, draws: FrameDraws)
      requires Valid() && draws.Valid()
      modifies this, lightTop, lightBottom
      ensures Valid()
      ensures var due := old(carSpawnTimerTop) + delta >= draws.carThresholdTop as real;
              carSpawnTimerTop == if due then 0.0 else old(carSpawnTimerTop) + delta
      ensures var due := old(carSpawnTimerBottom) + delta >= draws.carThresholdBottom as real;
              carSpawnTimerBottom == if due then 0.0 else old(carSpawnTimerBottom) + delta
      ensures var due := old(ambulanceSpawnTimerTop) + delta >= draws.ambulanceThresholdTop as real;
              && ambulanceSpawnTimerTop == (if due then 0.0 else old(ambulanceSpawnTimerTop) + delta)
              && ambulanceCountTop == old(ambulanceCountTop) + (if due then 1 else 0)
      ensures var due := old(ambulanceSpawnTimerBottom) + delta >= draws.ambulanceThresholdBottom as real;
              && ambulanceSpawnTimerBottom == (if due then 0.0 else old(ambulanceSpawnTimerBottom) + delta)
              && ambulanceCountBottom == old(ambulanceCountBottom) + (if due then 1 else 0)
      ensures old(lightTop.timer) + delta >= lightTop.cycleTime ==> lightTop.timer == 0.0 && lightTop.red == !old(lightTop.red)
      ensures old(lightTop.timer) + delta < lightTop.cycleTime ==> lightTop.timer == old(lightTop.timer) + delta && lightTop.red == old(lightTop.red)
      ensures old(lightBottom.timer) + delta >= lightBottom.cycleTime ==> lightBottom.timer == 0.0 && lightBottom.red == !old(lightBottom.red)
      ensures old(lightBottom.timer) + delta < lightBottom.cycleTime ==> lightBottom.timer == old(lightBottom.timer) + delta && lightBottom.red == old(lightBottom.red)
      ensures IsPass(Top, PassInputs(lightTop.red, lightTop.GetStopLineX(false), frameTime, draws.yieldTop),
                     OnScreen(old(vehiclesTop)) +
                     Spawned(Top, old(carSpawnTimerTop) + delta >= draws.carThresholdTop as real,
                             old(ambulanceSpawnTimerTop) + delta >= draws.ambulanceThresholdTop as real, draws.carTop),
                     vehiclesTop)
      ensures IsPass(Bottom, PassInputs(lightBottom.red, lightBottom.GetStopLineX(true), frameTime, draws.yieldBottom),
                     OnScreen(old(vehiclesBottom)) +
                     Spawned(Bottom, old(carSpawnTimerBottom) + delta >= draws.carThresholdBottom as real,
                             old(ambulanceSpawnTimerBottom) + delta >= draws.ambulanceThresholdBottom as real, draws.carBottom),
                     vehiclesBottom)
    {
      ghost var oldTop, oldBottom := vehiclesTop, vehiclesBottom;
      ghost var spawnedTop :=
        Spawned(Top, carSpawnTimerTop + delta >= draws.carThresholdTop as real,
                ambulanceSpawnTimerTop + delta >= draws.ambulanceThresholdTop as real, draws.carTop);
      ghost var spawnedBottom :=
        Spawned(Bottom, carSpawnTimerBottom + delta >= draws.carThresholdBottom as real,
                ambulanceSpawnTimerBottom + delta >= draws.ambulanceThresholdBottom as real, draws.carBottom);
      SpawnVehicles(delta, draws);
      lightTop.Update(delta);
      lightBottom.Update(delta);
      MoveVehicles(frameTime, draws);
      SweepKeepsSpawned(Top, oldTop, spawnedTop);
      SweepKeepsSpawned(Bottom, oldBottom, spawnedBottom);
    }
  }

  /** Vehicles spawned this frame survive the sweep that follows, behind the old vehicles that
      are still on screen; the road invariant survives the sweep too. */
  lemma SweepKeepsSpawned(road: Road, vs: seq<Vehicle>, spawned: seq<Vehicle>)
    requires forall k | 0 <= k < |spawned| :: !spawned[k].IsOffScreen()
    requires RoadValid(road, vs) && RoadValid(road, spawned)
    ensures OnScreen(vs + spawned) == OnScreen(vs) + spawned
    ensures RoadValid(road, OnScreen(vs + spawned))
  {
    OnScreenAppend(vs, spawned);
    OnScreenAllKept(spawned);
    OnScreenMembers(vs);
  }

  lemma {:induction false} OnScreenAllKept(vs: seq<Vehicle>)
    requires forall k | 0 <= k < |vs| :: !vs[k].IsOffScreen()
    ensures OnScreen(vs) == vs
  {
    if vs != [] {
      assert vs == vs[..|vs| - 1] + [vs[|vs| - 1]];
      OnScreenAllKept(vs[..|vs| - 1]);
    }
  }
}
