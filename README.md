# Snake engine on a monochrome display — Dafny model

This project models the simulation engine of a snake game that runs on a
microcontroller with a 128×64 OLED display (`main/main.cpp`). The engine is
two C++ structs:

- `Point`, a pair of `int16_t` coordinates with `==`, `!=`, `+`, `-`,
  `move` and `set`;
- `Snake`, which holds the body as a deque (front is the head, back is the
  tail), the speed, the dead flag, the apple (`(-1,-1)` means no apple) and a
  `uint8_t` growth counter, and advances one cell per `tick`: print the score,
  stop if dead, place or redraw the apple, turn the button into a speed, move.

The display is the game's only collision oracle. The model replaces it by a
`Canvas` object that owns a set of lit cells (`drawPixel`/`writePixel` add or
remove a cell, `getPixel` is membership) and the list of printed lines.

Modules (one file each):

- `Geometry` (`geometry.dfy`): `Point` as a datatype with explicit 16-bit
  wrap-around, the operators as functions, and the fact that `-` is `+`.
- `Display` (`display.dfy`): the `Canvas` class.
- `SnakeSpec` (`snake_spec.dfy`): the engine's whole observable state as one
  value and each step of `tick` as a function on it, with the lemmas that
  state what the steps promise (reversal gate, idle, fatal and non-fatal moves,
  growth counter, apple placement, the dead state absorbing every later tick).
- `SnakeEngine` (`snake_engine.dfy`): the `Snake` class, whose fields the
  methods update in place. `tick`, `handleApple`, `buttonHandler` and `move`
  are each proved to perform exactly the matching `SnakeSpec` step on the
  snake and its canvas; the constructor is proved to build the initial body,
  and `begin` to print its prompt and light exactly the body cells.
- `Growth` (`growth.dfy`): the growth counter over many moves, as written and
  as evidently intended (see Findings).
- `Occupancy` (`occupancy.dfy`): when the lit cells are a sound collision
  oracle, a run from `begin` on which the code breaks that, and the move with
  its tail handling corrected, proved to keep it (see Findings).

Inputs that come from libraries are parameters: the button read by the main
loop is the `dir` argument of `Tick`; the text cursor position when the apple
is sampled is `cursorX`/`cursorY`; the values Arduino `random` would return
are a sequence `draws` of candidate cells, consumed in order by the
rejection loop. A tick that must place an apple requires that every draw lies
in the sampled ranges and that at least one draw is on an unlit cell (the
source loops until it finds one).

Where the code differs from the game's evident design, the model follows
the code. By design a moving snake keeps its length until it eats and the
body never holds the same cell twice; in the code the counter wrap-around
(see Findings) makes the snake grow on almost every move, and a growing snake
may move its head into its own tail cell, which then appears twice in the
body. The old tail's pixel is also cleared on moves that keep the tail, so a
growing snake's last cell is unlit and the head can enter it unnoticed (see
Findings).

## Model

| member | source | states |
|---|---|---|
| Geometry.Wrap16 | main/main.cpp:73-81 | storing an `int` sum into an `int16_t` changes it by a multiple of 2^16 and keeps in-range values |
| Geometry.Moved | main/main.cpp:73-81 | `move` adds component-wise, congruent modulo 2^16, exact when no coordinate overflows |
| Geometry.Equal | main/main.cpp:83-85 | `==` holds exactly when the two points are the same value |
| Geometry.NotEqual | main/main.cpp:87-89 | `!=` is the negation of `==` |
| Geometry.Plus | main/main.cpp:91-95 | `p + q` (a copy of `q` moved by `p`) equals `p` moved by `q` |
| Geometry.Minus | main/main.cpp:97-99 | `p - q` is `q + p`: the operator calls `operator+` |
| Geometry.MinusZeroIff | main/main.cpp:97-99 | `p - q` is the zero vector exactly when `q` is the 16-bit negation of `p`, not when `q == p` |
| Geometry.MinusOfEqualIsNotZero | main/main.cpp:97-99 | a non-zero point minus itself is twice the point, never zero |
| Geometry.PlusCommutes | main/main.cpp:91-95 | `+` is commutative, also under wrap-around |
| Geometry.PlusOrigin | main/main.cpp:91-95 | the zero vector is the identity of `+` |
| Display.Canvas.constructor | main/main.cpp:136-137 | a canvas starts with exactly the bounding-box cells lit and nothing printed |
| Display.Canvas.DrawPixel | main/main.cpp:235-239 | `drawPixel`/`writePixel` light or clear exactly one cell and print nothing |
| Display.Canvas.GetPixel | main/main.cpp:219 | `getPixel` answers whether the cell is lit |
| Display.Canvas.Println | main/main.cpp:151-152 | `println` appends one line and changes no cell |
| SnakeSpec.InitialBody | main/main.cpp:123-129 | the initial body has 11 cells, the head at (32,64), each later segment at x+1 with the same y |
| SnakeSpec.InitialBodyShape | main/main.cpp:123-129 | the initial cells are pairwise distinct and share one row |
| SnakeSpec.PostDecrement8 | main/main.cpp:242 | the `uint8_t` post-decrement is the inverse of increment modulo 256: zero goes to 255, others to one less |
| SnakeSpec.FirstFree | main/main.cpp:170-173 | the rejection loop stops at the first draw on an unlit cell; all earlier draws were lit |
| SnakeSpec.AppleSpec | main/main.cpp:167-177 | with no apple the new apple is a draw, in the sampled ranges, on a cell that was unlit; an existing apple keeps its cell; either way the apple's cell is lit afterwards and nothing else changes |
| SnakeSpec.Heading | main/main.cpp:183-195 | UP, DOWN, LEFT and RIGHT each point one unit step along an axis; NONE points nowhere |
| SnakeSpec.HeadingsOpposite | main/main.cpp:183-195 | the four buttons point four different ways, and a button's step reverses another's exactly for UP/DOWN and LEFT/RIGHT |
| SnakeSpec.CandidateHeading | main/main.cpp:181-198 | each button's candidate speed is the step it points to, except RIGHT while idle, which gives zero |
| SnakeSpec.MovingTurn | main/main.cpp:181-204 | while moving, a button sets the speed to the step it points to, unless that step reverses the current speed, which is then kept |
| SnakeSpec.Candidate | main/main.cpp:181-198 | the candidate speed is idle or a unit step, and is zero exactly for NONE and for RIGHT while idle |
| SnakeSpec.ResolveSpeed | main/main.cpp:200-204 | the new speed of an idle or unit-step speed is again idle or a unit step |
| SnakeSpec.SpeedUpdate | main/main.cpp:180-204 | the speed becomes the candidate unless the candidate is the negation of the speed, in which case it is kept |
| SnakeSpec.SpeedUnchangedIff | main/main.cpp:200-204 | the speed is unchanged exactly when `speed + candidate` is zero or the candidate equals the speed |
| SnakeSpec.ReversalBlocked | main/main.cpp:183-204 | while moving, a button keeps the speed exactly on a repeat or a 180-degree reversal, and a quarter turn is taken |
| SnakeSpec.NoneStops | main/main.cpp:180-204 | while moving, NONE sets the speed to zero |
| SnakeSpec.IdleTakesCandidate | main/main.cpp:200-204 | while idle the gate never fires: the new speed is the candidate |
| SnakeSpec.IdleInput | main/main.cpp:192-198 | while idle the snake stays idle exactly for NONE and RIGHT |
| SnakeSpec.IdleUp | main/main.cpp:183-185 | while idle, UP sets the speed to (0,-1) |
| SnakeSpec.IdleDown | main/main.cpp:186-188 | while idle, DOWN sets the speed to (0,1) |
| SnakeSpec.IdleLeft | main/main.cpp:189-191 | while idle, LEFT sets the speed to (-1,0) |
| SnakeSpec.MoveSpec | main/main.cpp:207-248 | a move never shortens the body and never changes the speed |
| SnakeSpec.IdleMove | main/main.cpp:209-211 | with zero speed a move changes nothing: body, apple, counter and canvas |
| SnakeSpec.FatalMove | main/main.cpp:219-231 | a lit new head that is neither the apple nor the tail sets dead, prints the banner and keeps body, apple, counter and cells |
| SnakeSpec.NonFatalMove | main/main.cpp:214-247 | otherwise the body becomes the new head followed by the old body, minus its tail exactly when no apple was eaten and the counter was zero; the head's cell is lit and the old tail's cell is unlit unless it is the new head; no other cell changes |
| SnakeSpec.GrowthCounter | main/main.cpp:221-247 | eating sets the counter to 10 and clears the apple before the decrement (leaving 9); otherwise the counter goes down by one, and from zero wraps to 255 |
| SnakeSpec.TickSpec | main/main.cpp:148-165 | every tick first prints body length × 100, never shortens the body, keeps the speed idle or a unit step, and on a dead snake changes nothing else |
| SnakeSpec.LiveTick | main/main.cpp:158-162 | a live tick places the apple, then takes ResolveSpeed of the button as the speed, then moves with that new speed: idle it keeps body and counter, moving the head is the old front moved by the new speed, and a head on the apple just placed eats it and grows |
| SnakeSpec.DeadIsFinal | main/main.cpp:151-156 | after death every sequence of ticks keeps body, speed, apple, counter, cells and the dead flag, and only prints the same score once per tick |
| SnakeSpec.RunKeepsShape | main/main.cpp:148-165 | over any run the body never shrinks and the speed stays idle or a unit step |
| SnakeSpec.IdleTick | main/main.cpp:158-162 | an idle snake given NONE or RIGHT stays idle with the same body and counter, and has an apple on a lit cell |
| SnakeEngine.Snake.constructor | main/main.cpp:115-130 | the snake starts with the initial body, zero speed, alive, no apple and a zero counter |
| SnakeEngine.Snake.Begin | main/main.cpp:132-146 | `begin` prints the prompt and lights exactly the body cells |
| SnakeEngine.Snake.Tick | main/main.cpp:148-165 | `tick` changes the snake and canvas exactly as TickSpec says and keeps the snake's invariant |
| SnakeEngine.Snake.HandleApple | main/main.cpp:167-177 | the rejection loop and the redraw change the snake and canvas exactly as AppleSpec says |
| SnakeEngine.Snake.ButtonHandler | main/main.cpp:179-205 | `buttonHandler` changes only the speed, to ResolveSpeed of the button |
| SnakeEngine.Snake.Move | main/main.cpp:207-248 | `move` changes the snake and canvas exactly as MoveSpec says |
| Growth.KeptAsWritten | main/main.cpp:242-247 | among n moves at most n keep the tail |
| Growth.AsWrittenKeepsWhilePositive | main/main.cpp:242-244 | while the counter has not run out, every move keeps the tail |
| Growth.AsWrittenGrowsAfterZero | main/main.cpp:242-247 | from a zero counter, n moves (n ≤ 256) keep the tail n−1 times |
| Growth.IntendedCountdown | main/main.cpp:242-247 | the intended countdown lowers a positive counter by one and leaves zero at zero |
| Growth.KeptIntended | main/main.cpp:242-247 | among n moves at most n keep the tail |
| Growth.IntendedGrowth | main/main.cpp:242-247 | with the intended countdown, n moves from counter c keep the tail min(n, c) times |
| Growth.RulesAgreeWhilePositive | main/main.cpp:242-247 | the written and the intended rule agree while the counter lasts |
| Growth.MovesGrowBy | main/main.cpp:214-247 | over moves that neither die nor eat, the body grows by the number of tail-keeping moves the counter allows |
| Growth.ZeroCounterGrows | main/main.cpp:242-247 | a snake moving with a zero counter and not eating is n−1 cells longer after n moves |
| Occupancy.AsWrittenTailReached | main/main.cpp:148-165 | from the snake as `begin` leaves it, the ticks DOWN, nine times RIGHT and UP keep the snake alive and end with a 21-cell body whose head and tail are both (41,64) |
| Occupancy.IntendedMoveSpec | main/main.cpp:207-248 | the move with corrected tail handling never shortens the body and keeps the speed |
| Occupancy.IntendedAgreesWhenTailLeaves | main/main.cpp:207-248 | when the counter is zero and nothing is eaten, the corrected move is exactly the move as written |
| Occupancy.IntendedMoveKeepsSound | main/main.cpp:207-248 | the corrected move keeps the body free of repeated cells, every body cell lit, and a placed apple lit and off the body |

## Left out

- `keyChangeISR` and the global `direction` written from interrupts: asynchronous hardware input; the button is a plain argument of `Tick`. `buttonHandler` reads that global rather than its parameter; at its only call site both hold the same value, so the model has one button input.
- `app_main`: GPIO, interrupts, serial, display bring-up, delays and the heartbeat are I/O plumbing.
- Adafruit display internals: text glyphs and their pixels, cursor arithmetic, `setCursor`, `display()` (the frame flush), `setRotation`, `drawRect`'s rasterisation and the clipping of off-screen cells. The canvas is an abstract set of lit cells; the bounding box is given as the cells lit at creation; the cursor is a parameter.
- Arduino `random`: nondeterministic library code; its values are the `draws` input. The model takes each draw in the half-open range `random(lo, hi)` promises and does not model what the library returns when `lo >= hi`.
- Termination of the apple loop when no free cell is ever drawn cannot be shown: a tick that needs an apple requires a free draw among its inputs.
- The `ticks` argument of `tick` (from `millis()`): `tick` never reads it.
- `Point::set`: plain assignment of a point value, which Dafny's datatype values give directly.
- The `Button` enumeration's numeric values (GPIO pin numbers): only the five cases matter to the engine.
- SnakeSpec.ResolveSpeed: its own contract only keeps the speed idle or a unit step; the full rule is stated by SnakeSpec.SpeedUpdate.
- SnakeSpec.MoveSpec: its own contract only states that the body does not shrink and the speed is kept; the move's behaviour is stated by IdleMove, FatalMove, NonFatalMove and GrowthCounter.

## Findings

| source | as written | input that shows it | evidently intended | confidence | as-written member | corrected member |
|---|---|---|---|---|---|---|
| main/main.cpp:242-247 | `if(_extra_length--)` post-decrements a `uint8_t`, so a zero counter wraps to 255 and the next 255 moves keep the tail | the constructed snake (counter 0) pressed DOWN for 5 ticks without eating: the first move pops the tail and sets the counter to 255, the next four keep it, so the body has 15 cells instead of 11 | a positive counter goes down by one and keeps the tail; a zero counter stays zero and the tail is popped, so an apple adds exactly 10 cells | high; not executed | Growth.AsWrittenGrowsAfterZero | Growth.IntendedGrowth |
| main/main.cpp:219-235 | the tail's cell is exempt from the collision test and its pixel is cleared even on a move that keeps the tail | after `begin` (bounding box off the path), the ticks DOWN (placing the apple at (50,10)), nine times RIGHT and UP: the DOWN move pops the tail and wraps the counter to 255, the RIGHT moves keep the tail (41,64) but clear its pixel, and UP moves the head into that unlit cell; the snake survives and (41,64) is both the head and the tail of its 21-cell body | the tail's cell is safe, and its pixel cleared, only when the tail leaves in the same move, so body cells stay distinct and lit | high; not executed | Occupancy.AsWrittenTailReached | Occupancy.IntendedMoveKeepsSound |

The engine (`SnakeSpec.MoveSpec`, `SnakeEngine.Snake.Move`) keeps the
counter rule and the tail handling as written, because it models the code.
`Growth.IntendedCountdown` is the corrected counter rule, and
`Growth.IntendedGrowth` proves that under it an apple is worth exactly its
growth quantum; that is proved of the count of tail-keeping moves, and
`Growth.RulesAgreeWhilePositive` shows the two rules agree until the counter
first reaches zero. `Occupancy.IntendedMoveSpec` corrects only the tail
handling and keeps the counter's post-decrement as written; it also never
treats the sentinel `(-1,-1)` as food, which on the device only makes
explicit that this cell lies off screen, where `getPixel` reports no pixel.
