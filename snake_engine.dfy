/**
 * The `Snake` object of the game: its fields are updated in place by
 * `tick` and its helpers. `tick`, `handleApple`, `buttonHandler` and `move`
 * are each proved to perform exactly the matching step of module SnakeSpec
 * on the snake and its canvas; the constructor is proved to build the
 * initial body, and `begin` to light exactly the body cells.
 */
module SnakeEngine {
  import opened Geometry
  import opened Display
  import opened SnakeSpec

  class Snake {
    /** The display the snake draws on and queries for collisions. */
    const canvas: Canvas
    var body: seq<Point>
    /** The member `_direction`: initialised to NONE and never read. */
    var direction: Button
    var speed: Point
    var dead: bool
    var apple: Point
    var extraLength: UInt8

    /** The snake never gets shorter than its initial length, and moves at most one cell per tick. */
    ghost predicate Valid()
      reads this
    {
      |body| >= SnakeBodyLen + 1 && IsHeading(speed)
    }

    /** The snake's fields together with its canvas, as one value. */
    ghost function Snapshot(): State
      reads this, canvas
    {
      State(body, speed, dead, apple, extraLength, canvas.lit, canvas.printed)
    }

    /** An idle snake of eleven cells at the centre, with no apple and no pending growth. */
    constructor (canvas: Canvas)
      ensures Valid()
      ensures this.canvas == canvas && body == InitialBody()
      ensures direction == None && speed == Origin && !dead && apple == NoApple && extraLength == 0
    {
      this.canvas := canvas;
      direction := None;
      speed := Origin;
      dead := false;
      apple := NoApple;
      extraLength := 0;
      var segments := [Point(ScreenHeight / 2, ScreenWidth / 2)];
      for i := 0 to SnakeBodyLen
        invariant |segments| == i + 1
        invariant forall k :: 0 <= k < |segments| ==> segments[k] == InitialBody()[k]
      {
        var prev := segments[|segments| - 1];
        segments := segments + [Point(prev.x + 1, prev.y)];
      }
      body := segments;
    }

    /** `begin`: print the prompt and light every body cell (the bounding box is lit when the canvas is made). */
    method Begin()
      requires Valid()
      modifies canvas
      ensures canvas.lit == old(canvas.lit) + (set p | p in body)
      ensures canvas.printed == old(canvas.printed) + [Text("Press any!")]
    {
      canvas.Println(Text("Press any!"));
      for i := 0 to |body|
        invariant canvas.lit == old(canvas.lit) + (set p | p in body[..i])
        invariant canvas.printed == old(canvas.printed) + [Text("Press any!")]
      {
        canvas.DrawPixel(body[i], true);
        assert body[..i + 1] == body[..i] + [body[i]];
      }
      assert body[..|body|] == body;
    }

    /** `tick`: print the score; unless dead, place the apple, take the button and move. */
    method Tick(dir: Button, cursorX: Int16, cursorY: Int16, draws: seq<Point>)
      requires Valid()
      requires TickReady(Snapshot(), TickInput(dir, cursorX, cursorY, draws))
      modifies this, canvas
      ensures Valid()
      ensures Snapshot() == TickSpec(old(Snapshot()), TickInput(dir, cursorX, cursorY, draws))
      ensures direction == old(direction)
    {
      canvas.Println(Number(|body| * 100));
      if dead {
        return;
      }
      HandleApple(cursorX, cursorY, draws);
      ButtonHandler(dir);
      Move();
    }

    /** `handleApple`: draw candidate cells until one is unlit when there is no apple, then light the apple. */
    method HandleApple(cursorX: Int16, cursorY: Int16, draws: seq<Point>)
      requires AppleInputsOk(Snapshot(), cursorX, cursorY, draws)
      modifies this, canvas
      ensures Snapshot() == AppleSpec(old(Snapshot()), cursorX, cursorY, draws)
      ensures direction == old(direction)
    {
      if Equal(apple, NoApple) {
        ghost var stop := FirstFree(draws, canvas.lit);
        var i := 0;
        apple := draws[i];
        var on := canvas.GetPixel(apple);
        i := i + 1;
        while on
          invariant 1 <= i <= stop + 1 && apple == draws[i - 1]
          invariant on <==> apple in canvas.lit
          invariant canvas.lit == old(canvas.lit) && canvas.printed == old(canvas.printed)
          invariant body == old(body) && speed == old(speed) && dead == old(dead) && extraLength == old(extraLength)
          invariant direction == old(direction)
          decreases stop + 1 - i
        {
          apple := draws[i];
          on := canvas.GetPixel(apple);
          i := i + 1;
        }
        assert i - 1 == stop;
      }
      canvas.DrawPixel(apple, true);
    }

    /** `buttonHandler`: map the button to a candidate speed and take it unless `speed - candidate` is zero. */
    method ButtonHandler(dir: Button)
      modifies this
      ensures Snapshot() == ButtonSpec(old(Snapshot()), dir)
      ensures direction == old(direction)
    {
      ghost var before := Snapshot();
      var newSpeed :=
        match dir
        case Up => Point(0, -SnakeSpeed)
        case Down => Point(0, SnakeSpeed)
        case Left => Point(-SnakeSpeed, 0)
        case Right => if NotEqual(speed, Origin) then Point(SnakeSpeed, 0) else Origin
        case None => Origin;
      assert newSpeed == Candidate(dir, speed);
      assert ResolveSpeed(speed, dir) == if Equal(Minus(speed, newSpeed), Origin) then speed else newSpeed;
      if Equal(Minus(speed, newSpeed), Origin) {
        assert Snapshot() == before.(speed := ResolveSpeed(before.speed, dir));
        return;
      }
      speed := newSpeed;
      assert Snapshot() == before.(speed := ResolveSpeed(before.speed, dir));
    }

    /** `move`: advance the head one cell, dying on a lit cell that is neither the apple nor the tail. */
    method Move()
      requires |body| > 0
      modifies this, canvas
      ensures Snapshot() == MoveSpec(old(Snapshot()))
      ensures direction == old(direction)
    {
      if Equal(speed, Origin) {
        return;
      }
      var tail := body[|body| - 1];
      var newHead := Moved(body[0], speed);
      var on := canvas.GetPixel(newHead);
      if on {
        if Equal(newHead, apple) {
          extraLength := SnakeGrowPerApple;
          apple := NoApple;
        } else if Equal(newHead, tail) {
          // the tail leaves this cell in the same move
        } else {
          canvas.Println(Text(""));
          canvas.Println(Text("   DEAD!   "));
          dead := true;
          return;
        }
      }
      canvas.DrawPixel(tail, false);
      body := [newHead] + body;
      canvas.DrawPixel(body[0], true);
      var grow := extraLength != 0;
      extraLength := PostDecrement8(extraLength);
      if grow {
        return;
      }
      body := body[..|body| - 1];
    }
  }
}
