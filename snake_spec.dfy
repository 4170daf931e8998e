/**
 * The snake engine as pure functions over its whole observable state: the
 * body, speed, dead flag, apple and growth counter of the snake, together
 * with the canvas it draws on. Each function below is one step of
 * `Snake::tick`; the class in module SnakeEngine is proved to perform
 * exactly these steps, and the lemmas here state what the steps promise.
 */
module SnakeSpec {
  import opened Geometry
  import opened Display

  const ScreenWidth := 128
  const ScreenHeight := 64
  /** Segments added behind the head at construction. */
  const SnakeBodyLen := 10
  const SnakeSpeed := 1
  const SnakeGrowPerApple := 10

  /** The range of a C `uint8_t`. */
  type UInt8 = v: int | 0 <= v < 0x100

  /** The five values of the input button. */
  datatype Button = None | Up | Down | Left | Right

  /** The snake's fields together with the lit cells and printed lines of its canvas. */
  datatype State = State(
    body: seq<Point>,   // front is the head, back is the tail
    speed: Point,
    dead: bool,
    apple: Point,       // NoApple when no apple is placed
    extra: UInt8,       // the growth counter
    lit: set<Point>,
    printed: seq<Line>)

  /** One tick's inputs: the button, the text cursor when the apple is sampled, and the random draws. */
  datatype TickInput = TickInput(dir: Button, cursorX: Int16, cursorY: Int16, draws: seq<Point>)

  /** The two lines printed on a fatal collision. */
  const DeadBanner := [Text(""), Text("   DEAD!   ")]

  /** A unit step along one axis. */
  predicate IsUnit(p: Point) {
    (p.x == 0 && (p.y == 1 || p.y == -1)) || (p.y == 0 && (p.x == 1 || p.x == -1))
  }

  /** A value the speed can take: idle or a unit step. */
  predicate IsHeading(p: Point) {
    p == Origin || IsUnit(p)
  }

  // ---------------------------------------------------------------- construction

  /** The body the constructor builds: the head at the screen's centre, each segment one cell further along x. */
  function InitialBody(): (b: seq<Point>)
    ensures |b| == SnakeBodyLen + 1
    ensures b[0] == Point(ScreenHeight / 2, ScreenWidth / 2)
    ensures forall k :: 0 < k < |b| ==> b[k].x == b[k - 1].x + 1 && b[k].y == b[k - 1].y
  {
    seq(SnakeBodyLen + 1, k requires 0 <= k < SnakeBodyLen + 1 => Point(ScreenHeight / 2 + k, ScreenWidth / 2))
  }

  /** The initial cells are pairwise distinct and neighbours along the x axis. */
  lemma InitialBodyShape()
    ensures forall i, j :: 0 <= i < j < |InitialBody()| ==> InitialBody()[i] != InitialBody()[j]
    ensures forall k :: 0 <= k < |InitialBody()| ==> InitialBody()[k].y == InitialBody()[0].y
  {
    var b := InitialBody();
    assert forall k :: 0 <= k < |b| ==> b[k] == Point(32 + k, 64);
  }

  // ---------------------------------------------------------------- counter

  /** `_extra_length--` on a `uint8_t`: one less, with zero wrapping to 255. */
  function PostDecrement8(v: UInt8): (r: UInt8)
    ensures (r + 1) % 0x100 == v
    ensures v > 0 ==> r < v
  {
    (v + 0xFF) % 0x100
  }

  // ---------------------------------------------------------------- apple

  /** The sampling range of `random(lo, hi)`: `lo <= v < hi` on each axis. */
  predicate InDrawRange(p: Point, cursorX: Int16, cursorY: Int16) {
    && cursorX + 1 <= p.x < ScreenHeight - 1
    && cursorY + 1 <= p.y < ScreenWidth - cursorY - 1
  }

  predicate HasFree(draws: seq<Point>, lit: set<Point>) {
    exists k :: 0 <= k < |draws| && draws[k] !in lit
  }

  /** What the apple sampler needs: nothing when an apple is placed, otherwise in-range draws of which one is free. */
  predicate AppleInputsOk(s: State, cursorX: Int16, cursorY: Int16, draws: seq<Point>) {
    s.apple != NoApple ||
    ((forall k :: 0 <= k < |draws| ==> InDrawRange(draws[k], cursorX, cursorY)) && HasFree(draws, s.lit))
  }

  /** The index at which the do-while loop of `handleApple` stops: the first draw on an unlit cell. */
  function FirstFree(draws: seq<Point>, lit: set<Point>): (i: nat)
    requires HasFree(draws, lit)
    ensures i < |draws| && draws[i] !in lit
    ensures forall k :: 0 <= k < i ==> draws[k] in lit
  {
    if draws[0] !in lit then 0
    else
      var k :| 0 <= k < |draws| && draws[k] !in lit;
      assert draws[1..][k - 1] !in lit;
      1 + FirstFree(draws[1..], lit)
  }

  /** `handleApple`: sample an apple when there is none, then draw the apple. */
  function AppleSpec(s: State, cursorX: Int16, cursorY: Int16, draws: seq<Point>): (r: State)
    requires AppleInputsOk(s, cursorX, cursorY, draws)
    ensures r.apple in r.lit && r.lit == s.lit + {r.apple}
    ensures s.apple != NoApple ==> r.apple == s.apple
    ensures s.apple == NoApple ==> r.apple !in s.lit && r.apple in draws && InDrawRange(r.apple, cursorX, cursorY)
    ensures r.body == s.body && r.speed == s.speed && r.dead == s.dead && r.extra == s.extra && r.printed == s.printed
  {
    var apple := if Equal(s.apple, NoApple) then draws[FirstFree(draws, s.lit)] else s.apple;
    s.(apple := apple, lit := s.lit + {apple})
  }

  // ---------------------------------------------------------------- direction

  /** The unit step each button points to on the canvas; NONE points nowhere. */
  function Heading(dir: Button): (r: Point)
    ensures dir == None <==> r == Origin
    ensures dir != None ==> IsUnit(r)
  {
    match dir
    case None => Origin
    case Up => Point(0, -1)
    case Down => Point(0, 1)
    case Left => Point(-1, 0)
    case Right => Point(1, 0)
  }

  /** The four directions point four different ways, UP against DOWN and LEFT against RIGHT. */
  lemma HeadingsOpposite(a: Button, b: Button)
    requires a != None && b != None
    ensures Heading(a) == Heading(b) <==> a == b
    ensures Heading(b) == Point(-Heading(a).x, -Heading(a).y) <==>
              (a, b) in {(Up, Down), (Down, Up), (Left, Right), (Right, Left)}
  {
  }

  /** The `switch` of `buttonHandler`: RIGHT only counts once the snake is moving. */
  function Candidate(dir: Button, speed: Point): (r: Point)
    ensures IsHeading(r)
    ensures r == Origin <==> dir == None || (dir == Right && speed == Origin)
  {
    match dir
    case Up => Point(0, -SnakeSpeed)
    case Down => Point(0, SnakeSpeed)
    case Left => Point(-SnakeSpeed, 0)
    case Right => if NotEqual(speed, Origin) then Point(SnakeSpeed, 0) else Origin
    case None => Origin
  }

  /** The new speed of `buttonHandler`: the candidate, unless `speed - candidate` is the zero vector. */
  function ResolveSpeed(speed: Point, dir: Button): (r: Point)
    ensures IsHeading(speed) ==> IsHeading(r)
  {
    var c := Candidate(dir, speed);
    if Equal(Minus(speed, c), Origin) then speed else c
  }

  /** `buttonHandler` on the whole state: only the speed changes. */
  function ButtonSpec(s: State, dir: Button): State
  {
    s.(speed := ResolveSpeed(s.speed, dir))
  }

  /**
   * Because `-` is `+`, the gate discards exactly the candidate that reverses
   * the current speed; every other candidate, "no change" included, is taken.
   */
  lemma SpeedUpdate(speed: Point, dir: Button)
    ensures var c := Candidate(dir, speed);
            ResolveSpeed(speed, dir) == (if c == Negate(speed) then speed else c)
  {
    MinusZeroIff(speed, Candidate(dir, speed));
  }

  /** The speed is left unchanged exactly when `speed + candidate` is the zero vector or the candidate is the speed itself. */
  lemma SpeedUnchangedIff(speed: Point, dir: Button)
    ensures var c := Candidate(dir, speed);
            ResolveSpeed(speed, dir) == speed <==> Plus(speed, c) == Origin || c == speed
  {
    PlusCommutes(speed, Candidate(dir, speed));
  }

  /** The negation of a unit step or of the origin needs no wrap-around. */
  lemma NegateHeading(p: Point)
    requires IsHeading(p)
    ensures Negate(p) == Point(-p.x, -p.y)
  {
    assert Wrap16(-(p.x as int)) == -p.x && Wrap16(-(p.y as int)) == -p.y;
  }

  /** While moving, the speed stays put exactly on a repeat or a 180-degree reversal; a quarter turn is taken. */
  lemma ReversalBlocked(speed: Point, dir: Button)
    requires IsUnit(speed) && dir != None
    ensures var c := Candidate(dir, speed);
            ResolveSpeed(speed, dir) == speed <==> c == speed || c == Point(-speed.x, -speed.y)
    ensures var c := Candidate(dir, speed);
            c != speed && c != Point(-speed.x, -speed.y) ==> ResolveSpeed(speed, dir) == c
  {
    SpeedUpdate(speed, dir);
    NegateHeading(speed);
  }

  /** While moving, NONE stops the snake: the zero candidate is not a reversal of a non-zero speed. */
  lemma NoneStops(speed: Point)
    requires IsUnit(speed)
    ensures ResolveSpeed(speed, None) == Origin
  {
    SpeedUpdate(speed, None);
    NegateHeading(speed);
  }

  /** Each button's candidate is the step it points to, except RIGHT while idle, which is zero. */
  lemma CandidateHeading(dir: Button, speed: Point)
    ensures Candidate(dir, speed) == if dir == Right && speed == Origin then Origin else Heading(dir)
  {
  }

  /**
   * While moving, a button turns the snake to the step it points to, unless
   * that step is the reversal of the current speed, which is ignored.
   */
  lemma MovingTurn(speed: Point, dir: Button)
    requires IsUnit(speed) && dir != None
    ensures ResolveSpeed(speed, dir) == if Heading(dir) == Point(-speed.x, -speed.y) then speed else Heading(dir)
  {
    assert speed != Origin;
    CandidateHeading(dir, speed);
    ReversalBlocked(speed, dir);
  }

  /** While idle the gate never fires: the new speed is the candidate itself. */
  lemma {:induction false} IdleTakesCandidate(dir: Button)
    ensures ResolveSpeed(Origin, dir) == Candidate(dir, Origin)
  {
    PlusOrigin(Candidate(dir, Origin));
  }

  /** While idle, NONE and RIGHT leave the snake idle; every other button starts it. */
  lemma {:induction false} IdleInput(dir: Button)
    ensures ResolveSpeed(Origin, dir) == Origin <==> dir == None || dir == Right
  {
    IdleTakesCandidate(dir);
  }

  /** While idle, UP, DOWN and LEFT start the snake one cell per tick up, down and left. */
  lemma {:induction false} IdleUp()
    ensures ResolveSpeed(Origin, Up) == Point(0, -1)
  {
    IdleTakesCandidate(Up);
  }

  lemma {:induction false} IdleDown()
    ensures ResolveSpeed(Origin, Down) == Point(0, 1)
  {
    IdleTakesCandidate(Down);
  }

  lemma {:induction false} IdleLeft()
    ensures ResolveSpeed(Origin, Left) == Point(-1, 0)
  {
    IdleTakesCandidate(Left);
  }

  // ---------------------------------------------------------------- movement

  function Last(body: seq<Point>): Point
    requires |body| > 0
  {
    body[|body| - 1]
  }

  /** The cell the head moves into: the front moved by the speed. */
  function NewHead(s: State): Point
    requires |s.body| > 0
  {
    Moved(s.body[0], s.speed)
  }

  /** The new head's cell is lit and is neither the apple nor the current tail. */
  predicate Fatal(s: State)
    requires |s.body| > 0
  {
    NewHead(s) in s.lit && NewHead(s) != s.apple && NewHead(s) != Last(s.body)
  }

  /** The new head's cell is lit and is the apple. */
  predicate Eats(s: State)
    requires |s.body| > 0
  {
    NewHead(s) in s.lit && NewHead(s) == s.apple
  }

  /** `move`: advance one cell, resolving a collision against the lit cells. */
  function MoveSpec(s: State): (r: State)
    requires |s.body| > 0
    ensures |r.body| >= |s.body| && r.speed == s.speed
  {
    if Equal(s.speed, Origin) then s
    else
      var tail := Last(s.body);
      var head := Moved(s.body[0], s.speed);
      if head in s.lit && !Equal(head, s.apple) && !Equal(head, tail) then
        s.(dead := true, printed := s.printed + DeadBanner)
      else
        var ate := head in s.lit && Equal(head, s.apple);
        var extra := if ate then SnakeGrowPerApple else s.extra;
        var grown := [head] + s.body;
        s.(body := if extra != 0 then grown else grown[..|grown| - 1],
           apple := if ate then NoApple else s.apple,
           extra := PostDecrement8(extra),
           lit := s.lit - {tail} + {head})
  }

  /** With speed zero a move changes nothing at all. */
  lemma IdleMove(s: State)
    requires |s.body| > 0 && s.speed == Origin
    ensures MoveSpec(s) == s
  {
  }

  /** A fatal collision sets the dead flag, prints the banner, and keeps every other part of the state. */
  lemma FatalMove(s: State)
    requires |s.body| > 0 && s.speed != Origin && Fatal(s)
    ensures var r := MoveSpec(s);
            && r.dead
            && r.body == s.body && r.apple == s.apple && r.extra == s.extra && r.lit == s.lit
            && r.printed == s.printed + DeadBanner
  {
  }

  /**
   * A non-fatal move pushes the new head on the front and drops the tail
   * exactly when the counter (after eating) is zero; the old tail's cell is
   * cleared unless the head moved into it, and the new head's cell is lit.
   */
  lemma NonFatalMove(s: State)
    requires |s.body| > 0 && s.speed != Origin && !Fatal(s)
    ensures var r := MoveSpec(s);
            && r.dead == s.dead
            && r.body[0] == NewHead(s)
            && (|r.body| == |s.body| + 1 || |r.body| == |s.body|)
            && r.body[1..] == s.body[..|r.body| - 1]
            && (|r.body| == |s.body| <==> !Eats(s) && s.extra == 0)
            && NewHead(s) in r.lit
            && (Last(s.body) in r.lit <==> Last(s.body) == NewHead(s))
            && (forall p :: p != Last(s.body) && p != NewHead(s) ==> (p in r.lit <==> p in s.lit))
            && r.printed == s.printed
  {
  }

  /**
   * The growth counter: eating sets it to the growth quantum and clears the
   * apple before the post-decrement; otherwise a non-zero counter counts
   * down and a zero counter wraps to 255.
   */
  lemma GrowthCounter(s: State)
    requires |s.body| > 0 && s.speed != Origin && !Fatal(s)
    ensures var r := MoveSpec(s);
            && (Eats(s) ==> r.apple == NoApple && r.extra == SnakeGrowPerApple - 1)
            && (!Eats(s) ==> r.apple == s.apple)
            && (!Eats(s) && s.extra != 0 ==> r.extra == s.extra - 1)
            && (!Eats(s) && s.extra == 0 ==> r.extra == 255)
  {
  }

  // ---------------------------------------------------------------- tick

  /** What a tick needs of its inputs: a non-empty body, and apple draws unless the snake is dead. */
  predicate TickReady(s: State, t: TickInput) {
    |s.body| > 0 && (s.dead || AppleInputsOk(s, t.cursorX, t.cursorY, t.draws))
  }

  /** The score line printed at the start of every tick. */
  function ScoreLine(s: State): Line {
    Number(|s.body| * 100)
  }

  /** `tick`: print the score; unless dead, place the apple, resolve the direction and move. */
  function TickSpec(s: State, t: TickInput): (r: State)
    requires TickReady(s, t)
    ensures |r.printed| > |s.printed| && r.printed[..|s.printed| + 1] == s.printed + [ScoreLine(s)]
    ensures |r.body| >= |s.body|
    ensures IsHeading(s.speed) ==> IsHeading(r.speed)
    ensures s.dead ==> r == s.(printed := s.printed + [ScoreLine(s)])
  {
    var s1 := s.(printed := s.printed + [ScoreLine(s)]);
    if s.dead then s1
    else
      var r := MoveSpec(ButtonSpec(AppleSpec(s1, t.cursorX, t.cursorY, t.draws), t.dir));
      assert r.printed[..|s.printed| + 1] == s1.printed;
      r
  }

  /** Whether every tick of a run gets the inputs it needs. */
  predicate RunReady(s: State, ts: seq<TickInput>)
    decreases |ts|
  {
    ts == [] || (TickReady(s, ts[0]) && RunReady(TickSpec(s, ts[0]), ts[1..]))
  }

  /** The state after a sequence of ticks. */
  function Run(s: State, ts: seq<TickInput>): State
    requires RunReady(s, ts)
    decreases |ts|
  {
    if ts == [] then s else Run(TickSpec(s, ts[0]), ts[1..])
  }

  /**
   * Dead is absorbing: every later tick only prints the score again, so the
   * body, speed, apple, counter and canvas cells never change.
   */
  lemma {:induction false} DeadIsFinal(s: State, ts: seq<TickInput>)
    requires s.dead && |s.body| > 0
    ensures RunReady(s, ts)
    ensures var r := Run(s, ts);
            && r.dead && r.body == s.body && r.speed == s.speed && r.apple == s.apple
            && r.extra == s.extra && r.lit == s.lit
            && r.printed == s.printed + seq(|ts|, _ => ScoreLine(s))
    decreases |ts|
  {
    if ts != [] {
      var s1 := TickSpec(s, ts[0]);
      DeadIsFinal(s1, ts[1..]);
      assert ScoreLine(s1) == ScoreLine(s);
      assert s.printed + [ScoreLine(s)] + seq(|ts| - 1, _ => ScoreLine(s)) == s.printed + seq(|ts|, _ => ScoreLine(s));
    }
  }

  /** The body never gets shorter, and the speed stays idle or a unit step, over any run. */
  lemma {:induction false} RunKeepsShape(s: State, ts: seq<TickInput>)
    requires RunReady(s, ts) && IsHeading(s.speed)
    ensures |Run(s, ts).body| >= |s.body|
    ensures IsHeading(Run(s, ts).speed)
    decreases |ts|
  {
    if ts != [] {
      var s1 := TickSpec(s, ts[0]);
      assert IsHeading(s1.speed);
      RunKeepsShape(s1, ts[1..]);
    }
  }

  /** An idle snake that gets NONE or RIGHT stays where it is, and an apple is on a lit cell afterwards. */
  lemma IdleTick(s: State, t: TickInput)
    requires TickReady(s, t) && !s.dead && s.speed == Origin
    requires t.dir == None || t.dir == Right
    ensures var r := TickSpec(s, t);
            && !r.dead && r.speed == Origin && r.body == s.body && r.extra == s.extra
            && r.apple in r.lit && (s.apple != NoApple ==> r.apple == s.apple)
  {
  }

  /**
   * A live tick runs its steps in the order of `tick`: the apple is placed
   * first, then the button sets the speed, and the move uses the new speed,
   * so the head can eat an apple placed in the same tick.
   */
  lemma LiveTick(s: State, t: TickInput)
    requires TickReady(s, t) && !s.dead
    ensures var a := AppleSpec(s, t.cursorX, t.cursorY, t.draws);
            var v := ResolveSpeed(s.speed, t.dir);
            var r := TickSpec(s, t);
            && r.speed == v
            && (v == Origin ==> !r.dead && r.body == s.body && r.extra == s.extra && r.apple == a.apple && r.lit == a.lit)
            && (v != Origin && !r.dead ==> r.body[0] == Moved(s.body[0], v))
            && (v != Origin && Moved(s.body[0], v) == a.apple ==>
                  && !r.dead && r.apple == NoApple && r.extra == SnakeGrowPerApple - 1
                  && r.body == [a.apple] + s.body)
  {
  }
}
