/**
 * What one frame of the macroquad loop reports to the game: the edge-triggered
 * key presses (`is_key_pressed`), the left mouse button edge, the cursor, the
 * screen size, the clock (`get_time`) and the frame delta (`get_frame_time`).
 * Every read of the input during one frame sees the same values.
 */
module Input {

  /** A non-negative duration in seconds. */
  type Seconds = r: real | r >= 0.0

  datatype Point = Point(x: real, y: real)

  datatype Frame = Frame(
    up: bool, down: bool, enter: bool, escape: bool,
    r: bool, tab: bool, g: bool, pageUp: bool, pageDown: bool,
    leftClick: bool,
    mouse: Point,
    screenWidth: real, screenHeight: real,
    now: real,
    frameTime: Seconds)
}
