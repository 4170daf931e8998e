/**
 * The canvas as a collision oracle. The game decides collisions by asking
 * whether a cell is lit, which is sound only while no cell appears twice in
 * the body and every body cell is lit. `move` as written keeps neither while
 * the snake grows: it clears the tail's pixel although a growing snake keeps
 * its tail, and it exempts the tail's cell from the collision test although
 * the tail does not leave. This module runs the game from `begin` to a body
 * that holds one cell twice, defines the move with the tail handling
 * corrected, and proves that the corrected move keeps the oracle sound.
 */
module Occupancy {
  import opened Geometry
  import opened Display
  import opened SnakeSpec

  /** No cell appears twice in the body. */
  predicate Distinct(body: seq<Point>) {
    forall i, j :: 0 <= i < j < |body| ==> body[i] != body[j]
  }

  /**
   * The lit cells answer collisions correctly: the body holds each cell once,
   * every body cell is lit, and a placed apple is lit and off the body.
   */
  predicate Sound(s: State) {
    && |s.body| > 0
    && Distinct(s.body)
    && (forall i :: 0 <= i < |s.body| ==> s.body[i] in s.lit)
    && (s.apple != NoApple ==> s.apple in s.lit && s.apple !in s.body)
  }

  // ------------------------------------------------ a reachable run

  /** The apple the first tick places: a cell away from the snake's path. */
  const FirstApple := Point(50, 10)

  /** The ticks of the run: DOWN once (placing the apple), RIGHT nine times, UP once. */
  const DownTick := TickInput(Down, 0, 8, [FirstApple])
  const RightTick := TickInput(Right, 0, 8, [])
  const UpTick := TickInput(Up, 0, 8, [])
  const TailRun := [DownTick] + seq(9, _ => RightTick) + [UpTick]

  /** A cell the run's head never visits and that is not the apple. */
  predicate OffPath(p: Point) {
    !(32 <= p.x <= 42 && 64 <= p.y <= 65) && p != FirstApple
  }

  /** The cells a body covers. */
  function Cells(body: seq<Point>): set<Point> {
    set p | p in body
  }

  /** Pushing a head adds exactly its cell. */
  lemma CellsPush(head: Point, body: seq<Point>)
    ensures Cells([head] + body) == Cells(body) + {head}
  {
    assert forall p :: p in [head] + body <==> p == head || p in body;
  }

  /**
   * The snake and canvas right after construction on a canvas whose
   * bounding box lights `border`, and `begin`: the initial body, idle, alive,
   * no apple, a zero counter, and the box and body cells lit.
   */
  predicate Begun(s: State, border: set<Point>) {
    && s.body == InitialBody() && s.speed == Origin && !s.dead && s.apple == NoApple && s.extra == 0
    && s.lit == border + Cells(InitialBody())
  }

  /** The body after the DOWN tick and `k` RIGHT ticks: `k` new cells along row 65, then the turn, then the first ten initial cells. */
  function BodyAfter(k: nat): (b: seq<Point>)
    requires k <= 9
    ensures |b| == k + 11
  {
    seq(k, i requires 0 <= i < k => Point(32 + k - i, 65)) + [Point(32, 65)] + InitialBody()[..10]
  }

  /**
   * The state after the DOWN tick and `k` RIGHT ticks: the counter has
   * wrapped to 255 and counts down, the tail stays at (41,64), and from the
   * first RIGHT tick on that tail cell is unlit.
   */
  predicate At(s: State, border: set<Point>, k: nat)
    requires k <= 9
  {
    && !s.dead && s.apple == FirstApple && s.extra == 255 - k
    && s.speed == (if k == 0 then Point(0, 1) else Point(1, 0))
    && s.body == BodyAfter(k)
    && s.lit == border + {FirstApple} + Cells(BodyAfter(k)) - (if k == 0 then {} else {Point(41, 64)})
  }

  lemma InitialCells()
    ensures forall i :: 0 <= i < |InitialBody()| ==> InitialBody()[i] == Point(32 + i, 64)
  {
  }

  /** Every cell of `BodyAfter(k)` is on row 65 left of column 33 + k, or one of the first ten initial cells. */
  lemma BodyAfterCells(k: nat)
    requires k <= 9
    ensures forall i :: 0 <= i < |BodyAfter(k)| ==>
              (BodyAfter(k)[i].y == 65 && 32 <= BodyAfter(k)[i].x <= 32 + k) ||
              (BodyAfter(k)[i].y == 64 && 32 <= BodyAfter(k)[i].x <= 41)
    ensures BodyAfter(k)[0] == Point(32 + k, 65) && Last(BodyAfter(k)) == Point(41, 64)
  {
    InitialCells();
    var b := BodyAfter(k);
    forall i | 0 <= i < |b|
      ensures (b[i].y == 65 && 32 <= b[i].x <= 32 + k) || (b[i].y == 64 && 32 <= b[i].x <= 41)
    {
      if i > k {
        assert b[i] == InitialBody()[i - k - 1];
      }
    }
  }

  /** The move of the first tick: the head enters (32,65), and the zero counter pops the tail and wraps to 255. */
  lemma FirstMove(b: State, border: set<Point>)
    requires !b.dead && b.apple == FirstApple && b.extra == 0 && b.speed == Point(0, 1)
    requires b.body == InitialBody()
    requires b.lit == border + Cells(InitialBody()) + {FirstApple}
    requires forall p :: p in border ==> OffPath(p)
    ensures At(MoveSpec(b), border, 0)
  {
    InitialCells();
    assert NewHead(b) == Point(32, 65);
    assert NewHead(b) !in b.lit;
    var r := MoveSpec(b);
    var grown := [Point(32, 65)] + InitialBody();
    assert r.body == grown[..|grown| - 1];
    assert grown[..|grown| - 1] == BodyAfter(0);
    BodyAfterCells(0);
    assert r.lit == border + {FirstApple} + Cells(BodyAfter(0));
  }

  /** The first tick: the apple is placed on its free cell and DOWN starts the snake. */
  lemma FirstTick(s: State, border: set<Point>)
    requires Begun(s, border)
    requires forall p :: p in border ==> OffPath(p)
    ensures TickReady(s, DownTick)
    ensures At(TickSpec(s, DownTick), border, 0)
  {
    InitialCells();
    assert FirstApple !in s.lit;
    assert [FirstApple][0] !in s.lit;
    assert FirstFree([FirstApple], s.lit) == 0;
    var a := AppleSpec(s.(printed := s.printed + [ScoreLine(s)]), 0, 8, [FirstApple]);
    assert a.apple == FirstApple;
    IdleDown();
    var b := ButtonSpec(a, Down);
    assert b.speed == Point(0, 1);
    FirstMove(b, border);
  }

  /** One tick of a run: a ready first tick followed by a ready rest. */
  lemma RunStep(s: State, ts: seq<TickInput>)
    requires ts != [] && TickReady(s, ts[0]) && RunReady(TickSpec(s, ts[0]), ts[1..])
    ensures RunReady(s, ts) && Run(s, ts) == Run(TickSpec(s, ts[0]), ts[1..])
  {
  }

  /** The move of a RIGHT tick: the head goes one cell along row 65, the tail is kept and its cell cleared. */
  lemma RightMove(b: State, border: set<Point>, k: nat)
    requires k < 9 && !b.dead && b.apple == FirstApple && b.extra == 255 - k && b.speed == Point(1, 0)
    requires b.body == BodyAfter(k)
    requires b.lit == border + {FirstApple} + Cells(BodyAfter(k)) - (if k == 0 then {} else {Point(41, 64)})
    requires forall p :: p in border ==> OffPath(p)
    ensures At(MoveSpec(b), border, k + 1)
  {
    var head := Point(33 + k, 65);
    assert NewHead(b) == head;
    assert head !in b.lit by {
      BodyAfterCells(k);
      assert head !in border && head != FirstApple;
      assert head !in BodyAfter(k);
    }
    BodyAfterPush(k);
    CellsPush(head, BodyAfter(k));
    BodyAfterCells(k);
  }

  /** One more RIGHT tick puts one more cell in front. */
  lemma BodyAfterPush(k: nat)
    requires k < 9
    ensures BodyAfter(k + 1) == [Point(33 + k, 65)] + BodyAfter(k)
  {
    var front := seq(k + 1, i requires 0 <= i < k + 1 => Point(32 + (k + 1) - i, 65));
    assert front == [Point(33 + k, 65)] + seq(k, i requires 0 <= i < k => Point(32 + k - i, 65));
  }

  /** A RIGHT tick moves the head one cell along row 65; the kept tail cell stays unlit. */
  lemma RightStep(s: State, border: set<Point>, k: nat)
    requires k < 9 && At(s, border, k)
    requires forall p :: p in border ==> OffPath(p)
    ensures TickReady(s, RightTick)
    ensures At(TickSpec(s, RightTick), border, k + 1)
  {
    var a := AppleSpec(s.(printed := s.printed + [ScoreLine(s)]), 0, 8, []);
    assert a.lit == s.lit;
    MovingTurn(s.speed, Right);
    var b := ButtonSpec(a, Right);
    assert b.speed == Point(1, 0);
    RightMove(b, border, k);
  }

  /** The final UP tick moves the head into the unlit cell (41,64), which is still the tail, and the tail is kept. */
  lemma UpStep(s: State, border: set<Point>)
    requires At(s, border, 9)
    requires forall p :: p in border ==> OffPath(p)
    ensures TickReady(s, UpTick)
    ensures var r := TickSpec(s, UpTick);
            && !r.dead && r.body == [Point(41, 64)] + BodyAfter(9)
  {
    BodyAfterCells(9);
    var a := AppleSpec(s.(printed := s.printed + [ScoreLine(s)]), 0, 8, []);
    assert a.lit == s.lit;
    MovingTurn(s.speed, Up);
    var b := ButtonSpec(a, Up);
    assert b.speed == Point(0, -1);
    assert NewHead(b) == Point(41, 64);
    assert NewHead(b) !in b.lit;
  }

  /** Running the ticks from `k` RIGHT ticks in: the rest of the run is ready and ends as UpStep says. */
  lemma {:induction false} RestOfRun(s: State, border: set<Point>, k: nat)
    requires k <= 9 && At(s, border, k)
    requires forall p :: p in border ==> OffPath(p)
    ensures RunReady(s, TailRun[k + 1..])
    ensures var r := Run(s, TailRun[k + 1..]);
            && !r.dead && r.body == [Point(41, 64)] + BodyAfter(9)
    decreases 9 - k
  {
    var ts := TailRun[k + 1..];
    if k == 9 {
      UpStep(s, border);
      assert ts == [UpTick];
      RunStep(s, ts);
    } else {
      assert ts[0] == RightTick && ts[1..] == TailRun[k + 2..];
      RightStep(s, border, k);
      RestOfRun(TickSpec(s, RightTick), border, k + 1);
      RunStep(s, ts);
    }
  }

  /**
   * As written, a reachable run grows a body that holds one cell twice: from
   * the snake as `begin` leaves it (any bounding box off its path), DOWN places the
   * apple and pops the tail, which wraps the counter to 255; nine RIGHT
   * ticks keep the tail at (41,64) but clear its pixel; UP then moves the
   * head into that unlit tail cell, the snake survives, and (41,64) is both
   * the head and the tail of a 21-cell body.
   */
  lemma AsWrittenTailReached(s: State, border: set<Point>)
    requires Begun(s, border)
    requires forall p :: p in border ==> OffPath(p)
    ensures RunReady(s, TailRun)
    ensures var r := Run(s, TailRun);
            && !r.dead && |r.body| == 21
            && r.body[0] == Point(41, 64) && r.body[20] == Point(41, 64) && !Distinct(r.body)
  {
    TailRunEnds(s, border);
    DoubledCell(Run(s, TailRun).body);
  }

  /** The body the run ends with holds (41,64) at both ends. */
  lemma DoubledCell(body: seq<Point>)
    requires body == [Point(41, 64)] + BodyAfter(9)
    ensures |body| == 21 && body[0] == Point(41, 64) && body[20] == Point(41, 64) && !Distinct(body)
  {
    BodyAfterCells(9);
    assert body[20] == Last(BodyAfter(9));
    assert body[0] == body[20];
  }

  /** The whole run is ready, the snake survives it, and its body ends as UpStep says. */
  lemma TailRunEnds(s: State, border: set<Point>)
    requires Begun(s, border)
    requires forall p :: p in border ==> OffPath(p)
    ensures RunReady(s, TailRun)
    ensures var r := Run(s, TailRun);
            !r.dead && r.body == [Point(41, 64)] + BodyAfter(9)
  {
    FirstTick(s, border);
    var s1 := TickSpec(s, DownTick);
    RestOfRun(s1, border, 0);
    assert TailRun[0] == DownTick;
    RunStep(s, TailRun);
  }

  /**
   * `move` with its tail handling as evidently intended: the tail's cell is
   * exempt from the collision test, and its pixel is cleared, only when the
   * tail leaves in the same move; the sentinel `(-1,-1)` is never food (on
   * the device it lies off screen, where `getPixel` reports no pixel). Only
   * the tail handling is corrected: the counter still counts down with the
   * `uint8_t` post-decrement of the code, wrap-around included.
   */
  function IntendedMoveSpec(s: State): (r: State)
    requires |s.body| > 0
    ensures |r.body| >= |s.body| && r.speed == s.speed
  {
    if s.speed == Origin then s
    else
      var tail := Last(s.body);
      var head := NewHead(s);
      var ate := head in s.lit && s.apple != NoApple && head == s.apple;
      var extra := if ate then SnakeGrowPerApple else s.extra;
      var keepTail := extra != 0;
      if head in s.lit && !ate && (head != tail || keepTail) then
        s.(dead := true, printed := s.printed + DeadBanner)
      else
        s.(body := if keepTail then [head] + s.body else [head] + s.body[..|s.body| - 1],
           apple := if ate then NoApple else s.apple,
           extra := PostDecrement8(extra),
           lit := (if keepTail then s.lit else s.lit - {tail}) + {head})
  }

  /** Where the tail leaves and nothing is eaten, the corrected move is the move as written. */
  lemma IntendedAgreesWhenTailLeaves(s: State)
    requires |s.body| > 0 && s.extra == 0 && !Eats(s)
    ensures IntendedMoveSpec(s) == MoveSpec(s)
  {
    if s.speed != Origin {
      var grown := [NewHead(s)] + s.body;
      assert grown[..|grown| - 1] == [NewHead(s)] + s.body[..|s.body| - 1];
    }
  }

  /** A body with a new head in front of a distinct body that does not hold it is distinct. */
  lemma PushDistinct(head: Point, body: seq<Point>)
    requires Distinct(body) && head !in body
    ensures Distinct([head] + body)
  {
    var b := [head] + body;
    forall i, j | 0 <= i < j < |b|
      ensures b[i] != b[j]
    {
      if i > 0 {
        assert b[i] == body[i - 1] && b[j] == body[j - 1];
      } else {
        assert b[j] == body[j - 1];
      }
    }
  }

  /**
   * The corrected move keeps the lit cells a sound collision oracle: after it
   * the body still holds each cell once, every body cell is lit, and a placed
   * apple is lit and off the body.
   */
  lemma IntendedMoveKeepsSound(s: State)
    requires Sound(s)
    ensures Sound(IntendedMoveSpec(s))
  {
    var r := IntendedMoveSpec(s);
    if s.speed != Origin && !r.dead {
      var n := |s.body|;
      var tail := Last(s.body);
      var head := NewHead(s);
      var ate := head in s.lit && s.apple != NoApple && head == s.apple;
      var extra := if ate then SnakeGrowPerApple else s.extra;
      if extra != 0 {
        assert head !in s.body;
        PushDistinct(head, s.body);
        assert r.body == [head] + s.body;
      } else {
        var rest := s.body[..n - 1];
        assert Distinct(rest);
        assert tail !in rest;
        assert head !in rest;
        PushDistinct(head, rest);
        assert r.body == [head] + rest;
        assert forall i :: 0 <= i < |r.body| ==> r.body[i] in r.lit by {
          forall i | 0 <= i < |r.body|
            ensures r.body[i] in r.lit
          {
            if i > 0 {
              assert r.body[i] == rest[i - 1] == s.body[i - 1];
              assert r.body[i] != tail;
            }
          }
        }
      }
    }
  }
}
