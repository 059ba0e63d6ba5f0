# Bidirectional traffic simulation — a Dafny model of the per-frame update

This project models the update logic of a small raylib traffic simulation
(`Intro-To-raylib-Tutorial-main/src/main.cpp`). Two one-way roads run in
opposite directions. The top road carries traffic left to right, the bottom
road right to left. Each road has three lanes and its own traffic light.
Cars and ambulances are spawned on timers. Cars stop at a red light and keep
their distance from the vehicle ahead. A car on the centre lane moves to an
outer lane, once, when the last ambulance in its road's list is within 210
of it. Any earlier ambulance on the road is ignored. The distance is measured
on either side, so an ambulance that has already passed the car also
triggers the move. On the bottom road an ambulance steers to lane 2 near the
hospital, parks in front of it, waits, and then drives off.

Layout, one module per part of the update. `Roads` holds the per-road rules
of `Simulation::Update`, not the source's `Road` class, which only draws.
`Options` is a helper:

- `options.dfy` (`Options`): the `Option` datatype.
- `constants.dfy` (`Constants`): the screen, road and vehicle dimensions.
- `traffic_light.dfy` (`TrafficLights`): class `TrafficLight` with its
  timer and phase, updated in place.
- `vehicle.dfy` (`Vehicles`): datatype `Vehicle`, tagged `Car` or
  `Ambulance(atHospital, hospitalTimer)`. Also holds `Vehicle::Update`, the
  `Ambulance::Update` override, `IsOffScreen`, and lemmas on lane smoothing.
- `road.dfy` (`Roads`): the rules applied to one road, written once and
  parameterised by `Road = Top | Bottom`. It has spawning, the off-screen
  sweep, the yield rule, red-light gating, car following and the hospital
  logic. It also has the pass over a road's vehicles (`RoadPass`), specified
  by `IsPass`. Under `IsPass`, vehicle `i` is processed against the road as
  it stands at its turn. Vehicles before it already carry this frame's
  update; the others do not yet.
- `simulation.dfy` (`Simulations`): class `Simulation` with both roads'
  vehicle sequences, both lights, the spawn timers and ambulance counters,
  and the object invariant `Valid()`.

Inputs that the source gets from the environment are parameters here:
- `GetRandomValue` draws become `FrameDraws` and `CarDraw`. These hold the
  spawn thresholds, lane, speed jitter, and each yielding car's choice of
  lane 0 or lane 2.
- `GetFrameTime()` becomes `frameTime`. `main` passes the same value as
  `delta`. Both ambulance timers read it, so on the bottom road a parked
  ambulance's `hospitalTimer` grows by two frame times per frame, as in the
  source.

Coordinates are `real`. The arithmetic is exact, so no rounding is modelled.
The lane centres (`laneYTop`, `laneYBottom`, filled in by the constructor)
are the function `Roads.LaneY`.

## Model

| member | source | states |
|---|---|---|
| `TrafficLights.TrafficLight.constructor` | Intro-To-raylib-Tutorial-main/src/main.cpp:26-27 | box 20x60 at the given corner, timer 0, phase red, the given cycle length |
| `TrafficLights.TrafficLight.Update` | Intro-To-raylib-Tutorial-main/src/main.cpp:28-34 | the timer accumulates delta; if that reaches the cycle length, the timer restarts at 0 and the phase flips, otherwise the phase is unchanged; the timer stays below a positive cycle length |
| `TrafficLights.TrafficLight.IsRed` | Intro-To-raylib-Tutorial-main/src/main.cpp:40 | the light's phase; the pass gates cars on it |
| `TrafficLights.TrafficLight.GetStopLineX` | Intro-To-raylib-Tutorial-main/src/main.cpp:41-43 | the stop line is 40 before the box's left edge for right-to-left traffic and 40 past its right edge otherwise |
| `Vehicles.Vehicle.Update` | Intro-To-raylib-Tutorial-main/src/main.cpp:65-71 | x moves by exactly +speed (rightward) or -speed only when moving and neither stop flag is set, otherwise x is unchanged; an off-lane gap over 0.5 shrinks to 0.92 of itself on the same side with no overshoot, a smaller gap snaps y onto targetY; targetY and all flags are unchanged |
| `Vehicles.Vehicle.AmbulanceUpdate` | Intro-To-raylib-Tutorial-main/src/main.cpp:102-111 | before parking the ambulance moves as Vehicle::Update with no stop request, whatever it is asked; once parked only the hospital timer grows and, after it passes 5, x drops by 2.5 times the speed; y does not change while parked |
| `Vehicles.StepGap` | Intro-To-raylib-Tutorial-main/src/main.cpp:67-70 | one frame leaves the target lane unchanged and the lateral gap at most 0.92 of what it was |
| `Vehicles.LateralGapShrinks` | Intro-To-raylib-Tutorial-main/src/main.cpp:67-70 | after n frames the lateral gap is at most 0.92^n times the initial gap |
| `Vehicles.Vehicle.IsOffScreen` | Intro-To-raylib-Tutorial-main/src/main.cpp:79 | an off-screen vehicle is wholly outside the visible screen; a vehicle between the two entry edges (-200 and SCREEN_WIDTH+200) is never off-screen |
| `Vehicles.LaneChangeEnds` | Intro-To-raylib-Tutorial-main/src/main.cpp:67-70 | every lane change ends: from a lateral gap of at most 90, the largest gap between two lanes, the vehicle is exactly on its target lane after 64 frames |
| `Vehicles.LateralSettles` | Intro-To-raylib-Tutorial-main/src/main.cpp:67-70 | a lane change ends: once 0.92^n times the gap is within 0.5, the vehicle is exactly on its target lane after n+1 frames |
| `Roads.LaneY` | Intro-To-raylib-Tutorial-main/src/main.cpp:165-168 | lane centres are LANE_HEIGHT apart, and a vehicle of height 40 on any lane lies inside its road's band |
| `Roads.EntryX` | Intro-To-raylib-Tutorial-main/src/main.cpp:193-203 | spawn x: -200 for the top road, SCREEN_WIDTH+200 for the bottom road |
| `Roads.MustYield` | Intro-To-raylib-Tutorial-main/src/main.cpp:257 | the yield test: a car targeting the centre lane, not yet changed lane, within 210 of the ambulance's x (the bottom road's copy is line 296) |
| `Roads.NearStopLine` | Intro-To-raylib-Tutorial-main/src/main.cpp:266-270 | the red-light test: the light is red and x is within 50 of the stop line |
| `Roads.Blocks` | Intro-To-raylib-Tutorial-main/src/main.cpp:275-281 | the following test of one other vehicle: same target lane, ahead in the direction of travel, and its rear closer than SAFE_DISTANCE (the bottom road's mirror is lines 332-338) |
| `Roads.Parks` | Intro-To-raylib-Tutorial-main/src/main.cpp:306 | the parking test: an ambulance not yet at the hospital, x at most 28, within 2 of lane 2 |
| `Roads.NewCar` | Intro-To-raylib-Tutorial-main/src/main.cpp:187-206 | a spawned car is on its drawn lane at its start x, drives at 2.0 to 2.5 in its road's direction, with no flag set, and meets the road invariant |
| `Roads.NewAmbulance` | Intro-To-raylib-Tutorial-main/src/main.cpp:207-218 | a spawned ambulance enters at the road's entry x on the centre lane at speed 4.5, moving, with no flag set, not at the hospital and with its hospital timer at 0 |
| `Roads.SpawnedOnScreen` | Intro-To-raylib-Tutorial-main/src/main.cpp:193-215 | cars and ambulances spawned at x = -200 (rightward) or SCREEN_WIDTH+200 (leftward) are not off-screen |
| `Roads.OnScreen` | Intro-To-raylib-Tutorial-main/src/main.cpp:240-249 | the sweep's result holds no off-screen vehicle and is no longer than its input |
| `Roads.OnScreenCounts` | Intro-To-raylib-Tutorial-main/src/main.cpp:240-249 | every on-screen vehicle is kept as many times as it occurs, every off-screen one is dropped |
| `Roads.OnScreenMembers` | Intro-To-raylib-Tutorial-main/src/main.cpp:240-249 | a vehicle is in the swept road iff it was in the road and is not off-screen |
| `Roads.OnScreenAppend` | Intro-To-raylib-Tutorial-main/src/main.cpp:240-249 | the sweep distributes over concatenation, so relative order is kept |
| `Roads.Sweep` | Intro-To-raylib-Tutorial-main/src/main.cpp:240-249 | the erase/remove_if loop computes exactly the on-screen subsequence |
| `Roads.LastAmbulance` | Intro-To-raylib-Tutorial-main/src/main.cpp:251-253 | the index found is an ambulance with no ambulance after it, or there is no ambulance at all |
| `Roads.FindLastAmbulance` | Intro-To-raylib-Tutorial-main/src/main.cpp:290-292 | the search loop returns the last ambulance's index |
| `Roads.Yield` | Intro-To-raylib-Tutorial-main/src/main.cpp:257-259 | a yielding car targets lane 0 or lane 2 and is marked as having changed lane; nothing else changes |
| `Roads.Blocked` | Intro-To-raylib-Tutorial-main/src/main.cpp:272-284 | the following loop reports true iff some other vehicle on the same target lane is ahead and closer than SAFE_DISTANCE to its rear (top: other.x > x and other.x-90-x < 45; bottom: the mirror) |
| `Roads.HospitalStep` | Intro-To-raylib-Tutorial-main/src/main.cpp:303-318 | before parking and left of x 140 on the centre lane, the ambulance steers to lane 2; when x <= 28 and within 2 of lane 2 it is put at x 18, stops, is at the hospital with timer 0 plus this frame's time, and if that time alone passes 5 it moves on to x 18-2.2 at once; a parked ambulance at x <= 18 adds the frame time and, past 5, moves 2.2 left |
| `Roads.AmbulanceFrame` | Intro-To-raylib-Tutorial-main/src/main.cpp:301-320 | an ambulance's frame keeps its kind, direction and speed and the road invariant |
| `Roads.ParkingFrame` | Intro-To-raylib-Tutorial-main/src/main.cpp:306-319 | in the frame it parks, the ambulance ends at x 18, not moving, at the hospital, timer twice the frame time |
| `Roads.WaitingFrame` | Intro-To-raylib-Tutorial-main/src/main.cpp:312-319 | while its timer stays within 5 a parked ambulance does not move |
| `Roads.LeavingFrame` | Intro-To-raylib-Tutorial-main/src/main.cpp:312-319 | once its timer is past 5 a parked ambulance moves 2.2 + 2.5*speed left every frame, strictly decreasing x |
| `Roads.AmbulanceIgnoresStops` | Intro-To-raylib-Tutorial-main/src/main.cpp:102-104 | before parking, a moving ambulance advances by its speed on either road |
| `Roads.TopAmbulanceDrivesThrough` | Intro-To-raylib-Tutorial-main/src/main.cpp:261-264 | a top-road ambulance never reaches the hospital state |
| `Roads.CarTurn` | Intro-To-raylib-Tutorial-main/src/main.cpp:266-287 | forcedStop is set iff the light is red and x is within 50 of the stop line, or a vehicle of the same lane blocks; a stopped car keeps x, a free moving car advances by its speed; y takes one smoothing step toward the target lane (0.92 of a gap over 0.5 remains, a smaller gap snaps); nothing else changes |
| `Roads.Process` | Intro-To-raylib-Tutorial-main/src/main.cpp:254-288 | one vehicle's turn: yield first (changedLane set iff it yields, target lane 0 or 2), then the stop decision against its new lane, then the move, with y smoothed toward the new target lane in the same frame and every other field unchanged; ambulances get their own frame |
| `Roads.ProcessKeepsValid` | Intro-To-raylib-Tutorial-main/src/main.cpp:293-345 | one vehicle's turn keeps the road invariant (lanes, direction, positive speed, ambulances never force-stopped, parked only on the bottom road at x <= 18) |
| `Roads.Turn` | Intro-To-raylib-Tutorial-main/src/main.cpp:293-344 | the loop body computes vehicle i's turn |
| `Roads.RoadPass` | Intro-To-raylib-Tutorial-main/src/main.cpp:250-345 | the index loop processes every vehicle in list order, each against its predecessors' new state and its successors' old state |
| `Roads.PassKeepsRoadValid` | Intro-To-raylib-Tutorial-main/src/main.cpp:250-345 | a pass keeps the road invariant for every vehicle |
| `Roads.PassStopRule` | Intro-To-raylib-Tutorial-main/src/main.cpp:323-344 | in a pass a car is force-stopped iff it is near a red stop line or blocked, judged on vehicles before it at new and after it at old positions; a stopped car does not advance, a free moving one advances by its speed |
| `Roads.PassLaneStep` | Intro-To-raylib-Tutorial-main/src/main.cpp:286-287 | in a pass a car changes only x, y, its target lane and its two flags, and y takes one smoothing step toward the target lane it holds after yielding |
| `Roads.PassYieldRule` | Intro-To-raylib-Tutorial-main/src/main.cpp:290-299 | in a pass a car yields iff it targets the centre lane, has not changed lane and is within 210 of the last ambulance; it then targets lane 0 or 2; a car that changed lane before keeps its target |
| `Roads.PassMovesAmbulances` | Intro-To-raylib-Tutorial-main/src/main.cpp:301-321 | in a pass an ambulance only runs its own frame, never the stop rules |
| `Simulations.Spawned` | Intro-To-raylib-Tutorial-main/src/main.cpp:220-237 | vehicles spawned in a frame meet the road invariant and are on screen |
| `Simulations.SweepKeepsSpawned` | Intro-To-raylib-Tutorial-main/src/main.cpp:220-249 | sweeping after spawning equals sweeping the old vehicles and keeping the spawned ones behind them |
| `Simulations.OnScreenAllKept` | Intro-To-raylib-Tutorial-main/src/main.cpp:240-249 | a road with no off-screen vehicle is unchanged by the sweep |
| `Simulations.InitialX` | Intro-To-raylib-Tutorial-main/src/main.cpp:179-182 | Init's start x of lane `lane`: 150 further behind the entry edge per lane |
| `Simulations.Simulation.constructor` | Intro-To-raylib-Tutorial-main/src/main.cpp:158-169 | empty roads; 20x60 lights at (720, 30) and (650, 440), so stop lines at 780 and 610, with 5-unit cycles, both red; all timers and counters zero |
| `Simulations.Simulation.Init` | Intro-To-raylib-Tutorial-main/src/main.cpp:170-186 | appends one car per lane to each road, 150 apart behind the entry edge, none off-screen; nothing else changes |
| `Simulations.Simulation.SpawnCarTop` | Intro-To-raylib-Tutorial-main/src/main.cpp:187-196 | appends a car at x -200 on the drawn lane of the top road; nothing else changes |
| `Simulations.Simulation.SpawnCarBottom` | Intro-To-raylib-Tutorial-main/src/main.cpp:197-206 | appends a car at x SCREEN_WIDTH+200 on the drawn lane of the bottom road; nothing else changes |
| `Simulations.Simulation.SpawnAmbulanceTop` | Intro-To-raylib-Tutorial-main/src/main.cpp:207-212 | appends an ambulance, increments the top ambulance count and resets the top ambulance timer to 0 |
| `Simulations.Simulation.SpawnAmbulanceBottom` | Intro-To-raylib-Tutorial-main/src/main.cpp:213-218 | appends an ambulance, increments the bottom ambulance count and resets the bottom ambulance timer to 0 |
| `Simulations.Simulation.SpawnVehicles` | Intro-To-raylib-Tutorial-main/src/main.cpp:220-237 | each spawn timer accumulates delta; a due car timer resets and spawns; a due ambulance timer spawns (resetting itself) and bumps the count |
| `Simulations.Simulation.MoveVehicles` | Intro-To-raylib-Tutorial-main/src/main.cpp:240-345 | both roads are swept, then each runs its pass against its light's phase and stop line |
| `Simulations.Simulation.Update` | Intro-To-raylib-Tutorial-main/src/main.cpp:219-346 | one whole frame: timers and counters, both lights' updates, and each road equal to its pass over (old on-screen vehicles + this frame's spawns); the object invariant is kept |

## Left out

- Drawing: `Road::Draw`, `TrafficLight::Draw`, `Vehicle::Draw`, `Simulation::Draw` and the window loop in `main`. These are raylib rendering calls.
- Textures and colours: `LoadTexture`, `UnloadTexture`, the hospital texture, `Color` fields and the car image table. They are assets with no effect on behaviour.
- `srand` and `GetRandomValue`: each drawn value is a parameter (`FrameDraws`, `CarDraw`, the jitters of `Init`). The model only assumes the drawn ranges (3..5, 15..20, 0..2, 0..5); it does not model their distribution.
- `GetFrameTime()`: a parameter, `frameTime`, of `Simulation.Update` and of the ambulance functions.
- Float behaviour: coordinates and timers are exact `real`s, so float rounding (e.g. `0.08f` not being exactly 0.08) is not modelled.
- `laneChangeAdvance` and `laneChangeInProgress` are not modelled: nothing reads them.
- Vehicle getters and setters are not modelled as separate members: they are field reads and record updates on the `Vehicle` value.
- Vehicles are values in each road's sequence, not heap objects behind `unique_ptr`. Ambulance is a variant of `Vehicle`, not a subclass. The only second reference in the source is the raw `ambulanceT`/`ambulanceB` pointer to the last ambulance of the road. The pass reads that ambulance's x through it while the loop updates the same vehicle. The model keeps the ambulance's index instead. It reads x from the road as it stands at each vehicle's turn (`ws[..i] + vs[i..]`), so a car after the ambulance sees the ambulance's already-updated x, as it does through the pointer.
