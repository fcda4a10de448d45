# Snake game engine, modelled in Dafny

This project models the game engine of an Arduino snake game (`Snake_Game/src/main.cpp`).
The game runs on a TFT screen with a joystick, a speaker and one EEPROM byte.
The snake moves on a grid of 10-pixel cells below a 20-pixel score band and wraps at the edges.
Yellow food gives a point, grows the snake and gives a level on every even score.
From level 3 on, the yellow food expires after 5 seconds.
From level 4 on, `level - 3` red foods each take a point away, never going below zero.
From level 2 on, a fixed "9"-shaped barrier ends the game when the head runs into it, and so does the snake's own body.
A two-entry menu starts a game or shows the high score, which is kept in EEPROM.

The globals of the sketch are the fields of one class, `SnakeGame.Game`.
Each game function of the sketch is a method that updates those fields in place.
The body arrays (100 cells) and the red-food arrays (10 slots) are Dafny arrays.
The pure parts are functions and lemmas in three modules:

- `Grid`: cells, headings, the edge wrap, the barrier footprint and the exclusion box around it.
- `Spawn`: the rejection sampling that places food.
- `Rules`: steering, the menu cursor, scoring, levels, the red-food count, the high score and the EEPROM sentinel.

Inputs the board supplies are parameters of the methods:

- the joystick axes, already mapped to -1, 0 or 1 (`xMap`, `yMap`), and the button (`pressed`);
- the clock `millis()`, as one `now: nat` per pass of `loop()`;
- the stored EEPROM byte, given to the constructor;
- the screen size `W` by `H` (240 by 320 on the ILI9341), which only has to be whole cells with room below the score band.

`random()` is a stream of draws.
Each draw is the pair of values that the two `random()` calls of one do-while round return.
A placement consumes draws from index `start` and returns the index after the draw it settled on.
The do-while loops are kept as loops.
A caller must supply a stream that still holds an accepted draw; nothing in the source bounds those loops.

Scalar bounds that hold in every state are carried by the field types:

- the heading is 0..3;
- the length is 1..100;
- the countdown is 0..5;
- the red-food count is 0..10;
- the level is at least 1;
- the menu option is 0 or 1;
- score and high score are never negative.

Every assignment to a field is checked against its type.
This is how "score never goes negative" and "the countdown stays in [0, 5]" are proved.

Two array overflows are latent in the source.
The model states them as preconditions rather than fixing them:

- Eating at length 100 would push `snakeLength` to 101, so the snake would no longer fit its arrays (main.cpp:39, 277). `EatYellowFood` requires `snakeLength < 100` when the head is on the food.
- At level 14 and above, `redFoodCount = level - 3` passes the 10 red-food slots (main.cpp:50, 376-382). `HandleRedFood` requires `level - 3 <= 10`.
- `TickFits` is the condition under which one playing tick stays within both limits.

Headings follow the code, not its comments.
Heading 0 adds a cell to y and heading 1 subtracts one.
Heading 2 adds a cell to x and heading 3 subtracts one.

The barrier test at main.cpp:358-360 reads `barrierAppeared && A | B`.
Because `|` binds tighter than `&&`, this means `barrierAppeared && (A || B)`.
A is the 80 x 60 upper block and B the 10-wide strip below its right-hand side.

The sketch has one run per power-up.
`inMenu` is cleared only by `startNewGame`, and nothing sets it again.
After game over, `loop()` only saves the high score.
So `resetGame` runs once, from the initial values of the globals.
It resets the snake, the score, the level, the speed and the game-over flag, and places a first food.
It leaves `barrierAppeared`, `currentLevel` and the red-food slots alone, and those still hold their initial values at that point.

The menu cursor moves down from option 0 to 1 only on `yMap == 1`, and up from 1 to 0 only on `yMap == -1`.

When the snake grows, the slot it grows into is not written in that tick.
It still holds the (0, 0) of the initialisers, which lies in the score band, so for one tick the last body cell is (0, 0).
`checkSelfCollision` runs in the same tick and compares the head with that slot; it cannot match, because the head is always below the band.
On the next move the slot takes a real cell.
`RunOk` states the resulting invariant of the run:

- the body cells are pairwise distinct;
- every body cell lies below the band, apart from that one unwritten last slot;
- every slot behind the snake still holds (0, 0);
- while the menu is shown, the snake has one cell.

`Loop` keeps `RunOk` for as long as the game is not over.

The exclusion box keeps food off the barrier only for the barrier origin the food is placed against.
In the tick the score reaches 2, `drawBarrier` runs before `checkFoodCollision`, still at level 1.
So the new food is judged against the initial origin (0, 0).
The barrier appears at (80, 100) in the next tick and can cover that food.
With the food timer off at level 2, the food stays there, and eating it ends the game.
`Spawn.FoodAcceptedUnderLaterBarrier` gives such a cell on the 240 x 320 screen; the model keeps this behaviour.

The sketch's `loop()` is `Game.Loop`.
Its playing branch is `Tick`, which is split into `Advance` (`TurnAndMove` then `Collide`) and `HandleTimers`.
`checkFoodCollision` is `EatYellowFood` followed by `EatRedFood`.
`resetGame` is `RestartRun` followed by `PlaceFood`.
These helpers run the source's statements in the source's order.
Each one states what it changes, so each proof stays small.

## Model

| member | source | states |
|---|---|---|
| Grid.Opposite | Snake_Game/src/main.cpp:214-222 | the heading each guard of updateJoystickInput excludes: 0 and 1 reverse each other, and so do 2 and 3; the reverse is a different heading on the same axis |
| Grid.WrapX | Snake_Game/src/main.cpp:194-195 | a column already on the screen is kept, and a step of one cell past either side lands on a column of the screen again |
| Grid.WrapY | Snake_Game/src/main.cpp:196-197 | a row already below the score band is kept, and a step of one cell past the band or the bottom lands on a row of the playfield again |
| Grid.NextHead | Snake_Game/src/main.cpp:186-197 | a head on the playfield stays on the grid after one step and the wrap, and from anywhere the new head is below the score band; a heading on one axis leaves the other coordinate unchanged; an invalid heading moves nothing |
| Grid.NextHeadMovesOneCell | Snake_Game/src/main.cpp:186-197 | from a playfield cell the head moves exactly one cell along its heading's axis and sign; a step off an edge re-enters at the opposite edge: x below 0 goes to W - 10, x at W goes to 0, y above the band goes to H - 10, y at H goes to 20 |
| Grid.NextHeadReversible | Snake_Game/src/main.cpp:186-197 | a step followed by a step in the opposite heading returns to the starting cell, across the edges too, so the playfield is a torus |
| Grid.BodyStepKeepsDistinct | Snake_Game/src/main.cpp:180-197 | one tick of moveSnake with at most one cell of growth keeps the body distinct, below the band except for the unwritten last slot, and (0, 0) behind the snake, whenever the new head is below the band and on no other body cell |
| Grid.BarrierInsideExclusionBox | Snake_Game/src/main.cpp:231-232 | for the same barrier origin, every cell the barrier test at main.cpp:358-360 hits lies in the box that food placement rejects, so food placed against the barrier's current origin never lies on it |
| Grid.InBarrier | Snake_Game/src/main.cpp:358-360 | the cells the collision test hits: the upper block 80 wide and 60 high at the origin, and the 10-wide strip below its right-hand side down to 100 |
| Grid.InExclusionBox | Snake_Game/src/main.cpp:231-232 | the cells the placement loops reject: the open box 50 pixels wider on every side than the barrier's 80 x 100 bounding box |
| Spawn.Accepted | Snake_Game/src/main.cpp:326-327 | a draw ends a placement loop exactly when its cell lies outside the exclusion box |
| Spawn.LastColumnAccepted | Snake_Game/src/main.cpp:226-232 | on a screen at least 220 wide the draw for the last column is in random()'s range and accepted, for both origins the barrier ever has, so a placement loop can stop |
| Spawn.FoodAcceptedUnderLaterBarrier | Snake_Game/src/main.cpp:507-510 | on the 240 x 320 screen the cell (130, 100) is in random()'s range and accepted against the initial origin (0, 0), which the food of the level-2 tick is placed against, yet it lies on the barrier drawn at (80, 100) |
| Spawn.DrawnCellOnGrid | Snake_Game/src/main.cpp:229-230 | every draw in random()'s range names a playfield cell: x a multiple of 10 in [0, W), y a multiple of 10 in [20, H) |
| Spawn.FirstAccepted | Snake_Game/src/main.cpp:228-232 | the draw the do-while loop stops on is accepted, every earlier draw is rejected, and exactly one accepted draw is used up |
| Rules.Steer | Snake_Game/src/main.cpp:214-222 | the new heading is valid and never the reverse of the old one; a change is always the heading one of the joystick axes asks for; with nothing asked for the heading is unchanged |
| Rules.SteerTakesFirstAllowed | Snake_Game/src/main.cpp:214-222 | the if-chain takes the first request, in the order right, left, down, up, that is not the reverse of the heading, and keeps the heading when there is none |
| Rules.MenuMove | Snake_Game/src/main.cpp:455-463 | the cursor stays in {0, 1} and changes exactly when it is on 0 with yMap 1, or on 1 with yMap -1 |
| Rules.Eat | Snake_Game/src/main.cpp:276-285 | eating a yellow food adds exactly one point and adds one level exactly when the new score is even |
| Rules.FeedLevels | Snake_Game/src/main.cpp:276-285 | after n yellow foods in a new run the score is n and the level is 1 + n / 2 |
| Rules.Penalized | Snake_Game/src/main.cpp:296-300 | after m red foods the score is the old score minus m, or 0 if m is larger; it never goes below 0 or above the old score |
| Rules.CountHits | Snake_Game/src/main.cpp:293-294 | the number of red-food hits is at most the number of slots in play, and is 0 exactly when no active slot in play lies on the head |
| Rules.RedFoodTarget | Snake_Game/src/main.cpp:373-377 | from level 4 on, level - 3 red foods are in play, which is 1 at level 4 |
| Rules.Best | Snake_Game/src/main.cpp:477-478 | the saved high score is at least the old high score and at least the score, and is one of the two |
| Rules.BestIdempotent | Snake_Game/src/main.cpp:476-481 | saving the same score a second time changes nothing |
| Rules.LoadHighScore | Snake_Game/src/main.cpp:493-496 | the loaded high score is the stored byte, except that the blank value 255 loads as 0 |
| SnakeGame.Game.constructor | Snake_Game/src/main.cpp:33-72 | the initial values of the globals (length 1, head at (120, 170), heading 0, countdown 5, one red food in play and all ten red-food slots at (0, 0) and inactive, level 1, speed 250, in the menu on option 0), then setup's high score loaded from the stored byte; the run invariant RunOk holds |
| SnakeGame.Game.UpdateJoystickInput | Snake_Game/src/main.cpp:214-222 | the new heading is Steer of the old one, so it is never the old heading's reverse; nothing else changes |
| SnakeGame.Game.MoveSnake | Snake_Game/src/main.cpp:180-197 | body slot i takes old slot i - 1 for 1 <= i < snakeLength; slots from snakeLength on and the length stay unchanged; the head is NextHead of the old head, on the grid if it was |
| SnakeGame.Game.StepHead | Snake_Game/src/main.cpp:186-197 | the switch on the heading followed by the four wrap tests computes NextHead |
| SnakeGame.Game.PlaceFood | Snake_Game/src/main.cpp:226-239 | the food lies on the first accepted draw, on the grid and outside the open box (barrierX - 50, barrierX + 130) x (barrierY - 50, barrierY + 150); it is active with countdown 5 and timer now; only the food fields change |
| SnakeGame.Game.PlaceRedFood | Snake_Game/src/main.cpp:321-332 | slot i lies on the first accepted draw, on the grid and outside the exclusion box, and is active; no other slot changes |
| SnakeGame.Game.HandleFood | Snake_Game/src/main.cpp:248-269 | below level 3 or with no active food nothing changes; otherwise the countdown drops by at most one, at the whole second the source tests, and a food 5000 ms old is replaced |
| SnakeGame.Game.CheckFoodCollision | Snake_Game/src/main.cpp:272-308 | a head on the yellow food's cell (active or not) gives Eat's score and level, one more cell and a new food; then each active red food in play on the head takes a point, with a floor at 0, and is deactivated; other slots stay as they were |
| SnakeGame.Game.EatYellowFood | Snake_Game/src/main.cpp:274-290 | a head on the yellow food's cell sets score and level to Eat of the old ones, grows the snake by one and places a new food; otherwise nothing changes |
| SnakeGame.Game.EatRedFood | Snake_Game/src/main.cpp:293-307 | the score is Penalized by the number of active red foods in play on the head, and exactly those slots are deactivated |
| SnakeGame.Game.CheckSelfCollision | Snake_Game/src/main.cpp:311-318 | gameOver becomes true exactly when the head equals body slot i for some 1 <= i < snakeLength, and a true gameOver stays true |
| SnakeGame.Game.DrawBarrier | Snake_Game/src/main.cpp:347-352 | at level 2 or above the barrier appears once, at (80, 100); once it has appeared, later calls change nothing |
| SnakeGame.Game.CheckBarrierCollision | Snake_Game/src/main.cpp:355-366 | gameOver becomes true exactly when the barrier has appeared and the head lies in the upper block [bx, bx + 80) x [by, by + 60) or the strip [bx + 70, bx + 80) x [by + 60, by + 100); a true gameOver stays true |
| SnakeGame.Game.HandleRedFood | Snake_Game/src/main.cpp:369-386 | below level 4 nothing changes; from level 4 on redFoodCount is level - 3, every slot below it is active, active slots keep their cells, slots from the count on are untouched, and new cells are on the grid outside the exclusion box |
| SnakeGame.Game.ResetGame | Snake_Game/src/main.cpp:406-423 | length 1, head (120, 160), heading 0, score 0, level 1, base speed, gameOver false, and a first food placed; the rest of the body arrays is untouched, so resetting a one-cell snake with a well-formed body leaves a well-formed body |
| SnakeGame.Game.RestartRun | Snake_Game/src/main.cpp:407-414 | the assignments resetGame makes before placing food, which keep a well-formed one-cell body well formed |
| SnakeGame.Game.StartNewGame | Snake_Game/src/main.cpp:441-445 | the menu is left and the game is reset as ResetGame states |
| SnakeGame.Game.HandleMenuInput | Snake_Game/src/main.cpp:448-473 | the cursor becomes MenuMove of the old one; a press on option 0 leaves the menu with a freshly reset game, with the body still well formed; otherwise nothing else changes |
| SnakeGame.Game.SaveHighScore | Snake_Game/src/main.cpp:476-481 | the high score becomes Best of the old high score and the score |
| SnakeGame.Game.Loop | Snake_Game/src/main.cpp:502-525 | the run invariant RunOk is kept as long as the game is not over; in the menu the cursor moves by MenuMove and a press on option 0 starts a freshly reset game, while the high score, the red foods, the barrier and currentLevel stay as they were, and without a start nothing else changes; after game over only the high score changes, to Best of the old one and the score; while playing the heading is steered, the head takes its next cell, the level never decreases, gameOver means self or barrier collision and the high score is kept |
| SnakeGame.Game.Tick | Snake_Game/src/main.cpp:506-519 | one playing tick in the source's order: steered heading, shifted body, slots behind the old length untouched, new head, a body kept distinct unless the head hit it, growth and level exactly when the new head is on the food, the score Penalized by the red foods in play under the new head after any yellow point, the barrier at level 2, gameOver exactly on a self or barrier collision, level - 3 active red foods from level 4, and the speed guard |
| SnakeGame.Game.Advance | Snake_Game/src/main.cpp:507-512 | input, move, barrier and the three collision checks, with the same facts about heading, body, the slots behind it, distinctness, growth, level, score, barrier and gameOver as Tick |
| SnakeGame.Game.TurnAndMove | Snake_Game/src/main.cpp:507-509 | the heading is steered, the body shifted, the slots behind it untouched, the head moved one cell, and the barrier placed if due |
| SnakeGame.Game.Collide | Snake_Game/src/main.cpp:510-512 | growth and level exactly when the head is on the food; the score is the old one plus that point, then Penalized by the active red foods in play under the head; gameOver after a self or barrier collision, never cleared |
| SnakeGame.Game.HandleTimers | Snake_Game/src/main.cpp:513-518 | the food timer never passes now; from level 4 on level - 3 red foods are active; the speed guard as UpdateSpeed states |
| SnakeGame.Game.UpdateSpeed | Snake_Game/src/main.cpp:515-518 | at level 5 or above and on a new level, currentLevel becomes the level and speed the given value; otherwise both are unchanged |

## Left out

- Drawing on the TFT, including the tail erase, the countdown text and the menu, score, level, high-score and game-over screens. No game state is derived from them.
- Sound and `delay` (the level-up, red-food, barrier and game-over tones, and the tick delay). These are blocking calls to peripherals.
- `analogRead`, `digitalRead` and Arduino `map`. The mapped axes and the button state are parameters.
- EEPROM access. The stored byte is a constructor parameter. The byte truncation that `EEPROM.write` performs on a high score above 255 is not modelled.
- `random()` and `randomSeed()`. The draws are a caller-supplied stream.
- Termination of the do-while placement loops. Nothing in the source bounds them. The model requires a stream that still holds an accepted draw, and the loops decrease on the draws left.
- `millis()`: the clock is one `now` per pass of `loop()`. Callers must ensure `foodTimer <= now`, so the unsigned wrap-around of `millis() - foodTimer` is not modelled.
- The speed formula `baseSpeed * pow(0.8, level - 4)`, which uses floating point. `UpdateSpeed` assigns a caller-supplied `scaledSpeed`, so "speed strictly decreases with each level from 5" is not stated.
- Loop: the contract of the playing branch is a summary. `Tick` states the body shift, the slots behind the snake, growth, score, the barrier, the red-food count with its active slots, and the speed guard.
- Tick: where the yellow food ends up is not carried up from the methods that place it. Depending on the tick, `checkFoodCollision` places it when the head eats, `handleFood` replaces it when a food from level 3 on has expired, or neither moves it; each placement is stated on `CheckFoodCollision` and `HandleFood`. Nor does `Tick` carry up that active red foods keep their cells, which `HandleRedFood` states.
