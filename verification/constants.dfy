/** Screen and road geometry shared by every part of the simulation. */
module Constants {
  const SCREEN_WIDTH: int := 1600
  const SCREEN_HEIGHT: int := 700
  const ROAD_HEIGHT: int := 140
  const LANE_HEIGHT: int := 45
  const VEHICLE_WIDTH: real := 90.0
  const VEHICLE_HEIGHT: real := 40.0
  /** Minimum gap a car keeps between its front and the rear of the vehicle ahead. */
  const SAFE_DISTANCE: real := 45.0
  const ROAD_Y_TOP: int := 110
  const ROAD_Y_BOTTOM: int := 280

  function Abs(r: real): real { if r < 0.0 then -r else r }
}
