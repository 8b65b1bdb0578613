/** What the window's controls do to its parameters, as functions: the two
    sliders, the two light checkboxes, the movement keys and mouse-drag looking. */
module Controls {

  datatype Vec3 = Vec3(x: real, y: real, z: real)

  function Plus(a: Vec3, b: Vec3): Vec3 { Vec3(a.x + b.x, a.y + b.y, a.z + b.z) }
  function Minus(a: Vec3, b: Vec3): Vec3 { Vec3(a.x - b.x, a.y - b.y, a.z - b.z) }
  function Times(k: real, a: Vec3): Vec3 { Vec3(k * a.x, k * a.y, k * a.z) }
  function SqLength(a: Vec3): real { a.x * a.x + a.y * a.y + a.z * a.z }

  // ---------------------------------------------------------------------------
  // Sliders.

  // The slider ranges the window sets up.
  const MORPHING_MIN: int := 0
  const MORPHING_MAX: int := 100
  const SPEED_MIN: int := 10
  const SPEED_MAX: int := 200

  /** The camera speed the window starts with. */
  const INITIAL_SPEED: real := 0.01

  /** The morphing coefficient for a morphing-slider position: the slider runs
      the other way round, so its minimum gives the full coefficient. */
  function MorphingFromSlider(value: int): (coef: int)
    ensures MORPHING_MIN <= value <= MORPHING_MAX <==> MORPHING_MIN <= coef <= MORPHING_MAX
    ensures value == MORPHING_MIN ==> coef == MORPHING_MAX
    ensures value == MORPHING_MAX ==> coef == MORPHING_MIN
  {
    100 - value
  }

  /** The camera speed for a speed-slider position, in world units per key press. */
  function SpeedFromSlider(value: int): (speed: real)
    ensures SPEED_MIN <= value <= SPEED_MAX <==> 0.01 <= speed <= 0.2
    ensures value == SPEED_MIN ==> speed == INITIAL_SPEED
    ensures speed * 1000.0 == value as real
  {
    value as real / 1000.0
  }

  // ---------------------------------------------------------------------------
  // Light checkboxes.

  // Qt::CheckState values a checkbox reports.
  const UNCHECKED: int := 0
  const CHECKED: int := 2

  /** The light flag after one stateChanged per entry of `states`; each one flips
      the flag and ignores the state it carries. */
  function FlagAfter(flag: bool, states: seq<int>): (f: bool)
    ensures f == (flag != (|states| % 2 == 1))
    decreases |states|
  {
    if states == [] then flag else FlagAfter(!flag, states[1..])
  }

  /** `states` is what a two-state checkbox that starts at `box` reports: every
      signal is a change to the other state. */
  predicate ChangesFrom(box: int, states: seq<int>)
  {
    && (|states| > 0 ==> states[0] != box)
    && (forall i :: 0 <= i < |states| ==> states[i] in {UNCHECKED, CHECKED})
    && (forall i :: 0 < i < |states| ==> states[i] != states[i - 1])
  }

  /** Flipping without looking at the state keeps the flag equal to the box, as long
      as both start in agreement. */
  lemma {:induction false} FlagTracksCheckbox(box: int, flag: bool, states: seq<int>)
    requires box in {UNCHECKED, CHECKED} && flag == (box == CHECKED)
    requires ChangesFrom(box, states) && |states| > 0
    ensures FlagAfter(flag, states) == (states[|states| - 1] == CHECKED)
    decreases |states|
  {
    assert states[0] in {UNCHECKED, CHECKED} && states[0] != box;
    if |states| > 1 {
      assert ChangesFrom(states[0], states[1..]) by {
        forall i | 0 < i < |states[1..]|
          ensures states[1..][i] != states[1..][i - 1]
        {
          assert states[1..][i] == states[i + 1];
        }
        assert states[1..][0] == states[1];
      }
      FlagTracksCheckbox(states[0], !flag, states[1..]);
      assert states[1..][|states[1..]| - 1] == states[|states| - 1];
    }
  }

  // ---------------------------------------------------------------------------
  // Movement keys (Qt::Key codes).

  const KEY_A: int := 0x41
  const KEY_C: int := 0x43
  const KEY_D: int := 0x44
  const KEY_S: int := 0x53
  const KEY_V: int := 0x56
  const KEY_W: int := 0x57

  predicate IsMovementKey(key: int)
  {
    key in {KEY_W, KEY_S, KEY_A, KEY_D, KEY_V, KEY_C}
  }

  const UP: Vec3 := Vec3(0.0, 1.0, 0.0)

  /** The direction a movement key moves the camera along, given the viewing
      direction `front` and the camera's right-hand direction `right`. */
  function KeyDirection(key: int, front: Vec3, right: Vec3): Vec3
  {
    if key == KEY_W || key == KEY_S then front
    else if key == KEY_A || key == KEY_D then right
    else UP
  }

  /** The camera position after pressing `key`: forward and back along `front`,
      left and right along `right`, up and down along the world y axis. */
  function Moved(key: int, pos: Vec3, speed: real, front: Vec3, right: Vec3): (p: Vec3)
    ensures !IsMovementKey(key) ==> p == pos
    ensures key in {KEY_W, KEY_D, KEY_V} ==> p == Plus(pos, Times(speed, KeyDirection(key, front, right)))
    ensures key in {KEY_S, KEY_A, KEY_C} ==> p == Minus(pos, Times(speed, KeyDirection(key, front, right)))
    ensures key in {KEY_V, KEY_C} ==> p.x == pos.x && p.z == pos.z
  {
    if key == KEY_W then Plus(pos, Times(speed, front))
    else if key == KEY_S then Minus(pos, Times(speed, front))
    else if key == KEY_A then Minus(pos, Times(speed, right))
    else if key == KEY_D then Plus(pos, Times(speed, right))
    else if key == KEY_V then pos.(y := pos.y + speed)
    else if key == KEY_C then pos.(y := pos.y - speed)
    else pos
  }

  /** A movement key moves the camera by `speed` times the length of its direction. */
  lemma MovedDistance(key: int, pos: Vec3, speed: real, front: Vec3, right: Vec3)
    requires IsMovementKey(key)
    ensures SqLength(Minus(Moved(key, pos, speed, front, right), pos))
            == speed * speed * SqLength(KeyDirection(key, front, right))
  {
    var d := KeyDirection(key, front, right);
    var delta := Minus(Moved(key, pos, speed, front, right), pos);
    if key in {KEY_W, KEY_D, KEY_V} {
      assert delta == Times(speed, d);
    } else {
      assert delta == Times(-speed, d);
    }
    assert SqLength(delta) == delta.x * delta.x + delta.y * delta.y + delta.z * delta.z;
  }

  /** W and S, A and D, V and C undo each other. */
  lemma OppositeKeysCancel(pos: Vec3, speed: real, front: Vec3, right: Vec3)
    ensures Moved(KEY_S, Moved(KEY_W, pos, speed, front, right), speed, front, right) == pos
    ensures Moved(KEY_W, Moved(KEY_S, pos, speed, front, right), speed, front, right) == pos
    ensures Moved(KEY_D, Moved(KEY_A, pos, speed, front, right), speed, front, right) == pos
    ensures Moved(KEY_A, Moved(KEY_D, pos, speed, front, right), speed, front, right) == pos
    ensures Moved(KEY_C, Moved(KEY_V, pos, speed, front, right), speed, front, right) == pos
    ensures Moved(KEY_V, Moved(KEY_C, pos, speed, front, right), speed, front, right) == pos
  {
  }

  // ---------------------------------------------------------------------------
  // Mouse-drag looking.

  datatype Point = Point(x: int, y: int)

  /** Yaw and pitch, in degrees, after a drag from `from` to `to`: a tenth of a
      degree per pixel, right for more yaw, up (smaller y) for more pitch. */
  function Look(yaw: real, pitch: real, from: Point, to: Point): (angles: (real, real))
    ensures angles.0 > yaw <==> to.x > from.x
    ensures angles.1 > pitch <==> to.y < from.y
    ensures to == from ==> angles == (yaw, pitch)
  {
    (yaw + (to.x - from.x) as real * 0.1, pitch + (from.y - to.y) as real * 0.1)
  }

  /** A drag reported in two moves turns the camera as far as one move would. */
  lemma LookComposes(yaw: real, pitch: real, a: Point, b: Point, c: Point)
    ensures var mid := Look(yaw, pitch, a, b); Look(mid.0, mid.1, b, c) == Look(yaw, pitch, a, c)
  {
  }
}
