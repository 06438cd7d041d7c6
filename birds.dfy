/**
 * One bird: a rectangle that falls under gravity, jumps when its neuron says so, dies on
 * leaving the screen or touching a wall, and records how long it lived. `time.time()` is the
 * parameter `now`; the neuron's output on an input vector is the function parameter `calculate`.
 */
module Birds {
  import opened Wrappers
  import opened Geometry
  import opened Neurons

  /** The speed a jump sets. */
  const JumpSpeed: int := -15
  /** The cap on the falling speed. */
  const MaxSpeed: int := 15
  /** A neuron output below this makes the bird jump. */
  const JumpThreshold: real := 0.4
  /** The wall inputs used when there is no nearest wall. */
  const DefaultWallTop: int := 600
  const DefaultWallRight: int := 1920

  /** The speed after one surviving tick: gravity adds one to the (possibly jumped) speed, capped at 15. */
  function NextSpeed(speed: int, jumped: bool): (r: int)
    ensures r <= MaxSpeed
    ensures jumped ==> r == JumpSpeed + 1
    ensures !jumped && speed < MaxSpeed ==> r == speed + 1
    ensures !jumped && speed >= MaxSpeed ==> r == MaxSpeed
  {
    var s := if jumped then JumpSpeed else speed;
    if s + 1 < MaxSpeed then s + 1 else MaxSpeed
  }

  /** The speed after a run of surviving ticks, `jumps[k]` telling whether the bird jumped on tick k. */
  function SpeedAfter(speed: int, jumps: seq<bool>): int
    decreases |jumps|
  {
    if jumps == [] then speed else SpeedAfter(NextSpeed(speed, jumps[0]), jumps[1..])
  }

  /** Whatever the bird decides, its speed stays within `[-15, 15]`. */
  lemma {:induction false} SpeedStaysInRange(speed: int, jumps: seq<bool>)
    requires JumpSpeed <= speed <= MaxSpeed
    ensures JumpSpeed <= SpeedAfter(speed, jumps) <= MaxSpeed
    decreases |jumps|
  {
    if jumps != [] {
      SpeedStaysInRange(NextSpeed(speed, jumps[0]), jumps[1..]);
    }
  }

  /** Without jumping, the speed grows by one per tick until it reaches the cap and then stays there. */
  lemma {:induction false} FreeFall(speed: int, ticks: nat)
    requires speed <= MaxSpeed
    ensures SpeedAfter(speed, seq(ticks, _ => false)) == if speed + ticks < MaxSpeed then speed + ticks else MaxSpeed
    decreases ticks
  {
    if ticks > 0 {
      var rest := seq(ticks - 1, _ => false);
      assert seq(ticks, _ => false) == [false] + rest;
      FreeFall(NextSpeed(speed, false), ticks - 1);
    }
  }

  /** The loop over the walls in `should_kill`: does `r` overlap some wall? */
  predicate HitsAny(r: Rect, walls: seq<Rect>)
    decreases |walls|
  {
    walls != [] && (Collide(r, walls[0]) || HitsAny(r, walls[1..]))
  }

  /** The loop finds a wall exactly when some wall of the list overlaps the rectangle. */
  lemma {:induction false} HitsAnyIff(r: Rect, walls: seq<Rect>)
    ensures HitsAny(r, walls) <==> exists i :: 0 <= i < |walls| && Collide(r, walls[i])
    decreases |walls|
  {
    if walls != [] {
      HitsAnyIff(r, walls[1..]);
      assert forall i :: 1 <= i < |walls| ==> walls[i] == walls[1..][i - 1];
    }
  }

  /** The tuple `decide` hands to the neuron: own bottom, own speed, then the nearest wall's top and right. */
  function DecisionInputs(rect: Rect, speed: int, wall: Option<Rect>): (v: seq<int>)
    ensures |v| == InputCount && v[0] == rect.Bottom() && v[1] == speed
    ensures wall.None? ==> v[2] == DefaultWallTop && v[3] == DefaultWallRight
    ensures wall.Some? ==> v[2] == wall.value.Top() && v[3] == wall.value.Right()
  {
    match wall
    case None => [rect.Bottom(), speed, DefaultWallTop, DefaultWallRight]
    case Some(w) => [rect.Bottom(), speed, w.Top(), w.Right()]
  }

  class Bird {
    var speed: int
    var rect: Rect
    const initialPosition: int
    /** A timestamp while the bird lives, the length of its last life once it has died. */
    var score: real
    var alive: bool
    const neuron: Neuron
    const screenHeight: int

    /** The speed stays within the jump speed and the cap; the neuron has four weights. */
    ghost predicate Valid()
      reads this
    {
      JumpSpeed <= speed <= MaxSpeed && neuron.weights.Length == InputCount
    }

    /** `Bird.__init__`, with the start time and the neuron's draws as parameters. */
    constructor (x: int, y: int, width: int, height: int, screenHeight: int, now: real,
                 magnitudes: seq<real>, signs: seq<real>)
      requires WellFormedDraws(magnitudes, signs)
      ensures Valid() && fresh(neuron) && fresh(neuron.weights)
      ensures speed == 0 && rect == Rect(x, y, width, height) && initialPosition == y
      ensures score == now && alive && this.screenHeight == screenHeight
      ensures neuron.weights[..] == Restarted(magnitudes, signs)
    {
      speed := 0;
      rect := Rect(x, y, width, height);
      initialPosition := y;
      score := now;
      alive := true;
      neuron := new Neuron(magnitudes, signs);
      this.screenHeight := screenHeight;
    }

    /** `should_kill`: off the top, off the bottom, or overlapping a wall. */
    predicate ShouldKill(walls: seq<Rect>)
      reads this
      ensures ShouldKill(walls) <==>
                rect.Top() < 0 || rect.Bottom() > screenHeight ||
                exists i :: 0 <= i < |walls| && Collide(rect, walls[i])
    {
      HitsAnyIff(rect, walls);
      rect.Top() < 0 || rect.Bottom() > screenHeight || HitsAny(rect, walls)
    }

    method Jump()
      modifies this
      ensures speed == JumpSpeed
      ensures rect == old(rect) && alive == old(alive) && score == old(score)
    {
      speed := JumpSpeed;
    }

    /**
     * `decide`: hand the neuron the inputs for the nearest wall and jump when its output is
     * below 0.4. `calculate` stands for the neuron's output on an input vector.
     */
    method Decide(wall: Option<Rect>, calculate: seq<int> -> real)
      modifies this
      ensures speed == if calculate(DecisionInputs(old(rect), old(speed), wall)) < JumpThreshold
                       then JumpSpeed else old(speed)
      ensures rect == old(rect) && alive == old(alive) && score == old(score)
    {
      var value := calculate(DecisionInputs(rect, speed, wall));
      if value < JumpThreshold {
        Jump();
      }
    }

    /** `update`: one tick of a bird, given the walls, the nearest wall and the neuron's output function. */
    method Update(walls: seq<Rect>, wall: Option<Rect>, calculate: seq<int> -> real, now: real)
      requires Valid()
      modifies this
      ensures Valid()
      ensures !old(alive) ==>
                speed == old(speed) && rect == old(rect) && alive == old(alive) && score == old(score)
      ensures old(alive) && old(ShouldKill(walls)) ==>
                !alive && rect == old(rect).(y := initialPosition) &&
                score == now - old(score) && speed == old(speed)
      ensures old(alive) && !old(ShouldKill(walls)) ==>
                alive && score == old(score) &&
                speed == NextSpeed(old(speed), calculate(DecisionInputs(old(rect), old(speed), wall)) < JumpThreshold) &&
                rect == old(rect).(y := old(rect).y + speed)
    {
      if alive {
        if ShouldKill(walls) {
          Die(now);
          return;
        }
        Decide(wall, calculate);
        speed := speed + 1;
        speed := if speed < MaxSpeed then speed else MaxSpeed;
        rect := rect.(y := rect.y + speed);
      }
    }

    /** `die`: fall back to the start height and freeze the score as the length of this life. */
    method Die(now: real)
      modifies this
      ensures !alive && rect == old(rect).(y := initialPosition)
      ensures score == now - old(score) && speed == old(speed)
    {
      alive := false;
      rect := rect.(y := initialPosition);
      score := now - score;
    }

    /** `resurrect`: live again, timing the new life from `now`. */
    method Resurrect(now: real)
      modifies this
      ensures alive && score == now
      ensures speed == old(speed) && rect == old(rect)
    {
      score := now;
      alive := true;
    }
  }
}
