/**
 * The game state of main.cpp as one object: each global of the sketch is a
 * field, each game function a method that updates the fields in place.
 */
module SnakeGame {
  import opened Grid
  import opened Spawn
  import opened Rules

  class Game {
    /** Screen size, as tft.width() and tft.height() report it. */
    const W: int
    const H: int

    /** Body cells, head at index 0; only the first snakeLength are the snake. */
    const snakeX: array<int>
    const snakeY: array<int>
    var snakeLength: BodyLength
    var snakeDirection: Direction

    /** The yellow food, its spawn time (millis) and the seconds left on its countdown. */
    var foodX: int
    var foodY: int
    var foodAvailable: bool
    var foodTimer: nat
    var foodCountdown: Countdown

    /** Red-food slots; the first redFoodCount of them are in play. */
    const redFoodX: array<int>
    const redFoodY: array<int>
    const redFoodAvailable: array<bool>
    var redFoodCount: RedCount

    var barrierX: int
    var barrierY: int
    var barrierAppeared: bool

    var gameOver: bool
    var score: nat
    var level: Level
    /** The level at which speed was last recomputed. */
    var currentLevel: int
    /** Tick interval in milliseconds; the value of the speed formula is supplied from outside. */
    var speed: int
    var highScore: nat

    var inMenu: bool
    /** 0 is "Start Game", 1 is "View High Score". */
    var menuOption: MenuOption

    /**
     * The screen and the arrays, fixed when the object is made. The bounds
     * on the scalar fields are carried by their types.
     */
    ghost predicate Valid()
    {
      ScreenOk(W, H) &&
      snakeX.Length == MaxLength && snakeY.Length == MaxLength && snakeX != snakeY &&
      redFoodX.Length == RedSlots && redFoodY.Length == RedSlots && redFoodAvailable.Length == RedSlots &&
      redFoodX != redFoodY && redFoodX != snakeX && redFoodX != snakeY &&
      redFoodY != snakeX && redFoodY != snakeY
    }

    /** The head lies on a body cell behind it. */
    ghost predicate HeadOnBody()
      reads this, snakeX, snakeY
      requires Valid()
    {
      exists i :: 1 <= i < snakeLength && snakeX[0] == snakeX[i] && snakeY[0] == snakeY[i]
    }

    /** The head lies on the yellow food's cell (whether or not the food is flagged available). */
    ghost predicate HeadOnFood()
      reads this, snakeX, snakeY
      requires Valid()
    {
      snakeX[0] == foodX && snakeY[0] == foodY
    }

    /** The head lies on red-food slot i. */
    ghost predicate HeadOnRedFood(i: int)
      reads this, snakeX, snakeY, redFoodX, redFoodY
      requires Valid() && 0 <= i < RedSlots
    {
      snakeX[0] == redFoodX[i] && snakeY[0] == redFoodY[i]
    }

    /**
     * The body of the run is well formed: its cells are pairwise distinct,
     * all below the score band apart from a last slot not yet written, and
     * the slots behind the snake hold the initialisers' (0, 0).
     */
    ghost predicate BodyOk()
      reads this, snakeX, snakeY
      requires Valid()
    {
      DistinctBody(snakeX[..], snakeY[..], snakeLength)
    }

    /** What holds throughout the run: a well-formed body, and a one-cell snake while the menu is shown. */
    ghost predicate RunOk()
      reads this, snakeX, snakeY
      requires Valid()
    {
      BodyOk() && (inMenu ==> snakeLength == 1)
    }

    /** The state resetGame leaves, apart from the food it places. */
    ghost predicate JustReset()
      reads this, snakeX, snakeY
      requires Valid()
    {
      snakeLength == 1 && snakeX[0] == StartX && snakeY[0] == StartY && snakeDirection == 0 &&
      score == 0 && level == 1 && speed == BaseSpeed && !gameOver
    }

    /**
     * The yellow food was just placed by rejection sampling from draw index
     * start on: it sits on the first accepted draw, a playfield cell outside
     * the exclusion box, the stream resumes after that draw, and the food is
     * active with a full countdown started at time now.
     */
    ghost predicate FoodPlaced(draws: seq<Draw>, start: nat, next: nat, now: nat)
      reads this
    {
      CountFrom(draws, start, barrierX, barrierY) > 0 &&
      next == FirstAccepted(draws, start, barrierX, barrierY) + 1 &&
      CountFrom(draws, next, barrierX, barrierY) == CountFrom(draws, start, barrierX, barrierY) - 1 &&
      foodX == DrawX(draws[next - 1]) && foodY == DrawY(draws[next - 1]) &&
      OnGrid(foodX, foodY, W, H) && !InExclusionBox(foodX, foodY, barrierX, barrierY) &&
      foodAvailable && foodTimer == now && foodCountdown == FoodSeconds
    }

    /**
     * The global initialisers followed by setup(): the high score is loaded
     * from the stored byte and the menu is shown.
     */
    constructor (w: int, h: int, stored: byte)
      requires ScreenOk(w, h)
      ensures Valid()
      ensures W == w && H == h
      ensures fresh(snakeX) && fresh(snakeY) && fresh(redFoodX) && fresh(redFoodY) && fresh(redFoodAvailable)
      ensures snakeLength == 1 && snakeX[0] == 120 && snakeY[0] == 170 && snakeDirection == 0
      ensures forall i :: 1 <= i < MaxLength ==> snakeX[i] == 0 && snakeY[i] == 0
      ensures foodX == 0 && foodY == 0 && !foodAvailable && foodTimer == 0 && foodCountdown == FoodSeconds
      ensures forall i :: 0 <= i < RedSlots ==> redFoodX[i] == 0 && redFoodY[i] == 0 && !redFoodAvailable[i]
      ensures redFoodCount == 1
      ensures barrierX == 0 && barrierY == 0 && !barrierAppeared
      ensures !gameOver && score == 0 && level == 1 && currentLevel == 1 && speed == BaseSpeed
      ensures highScore == LoadHighScore(stored)
      ensures inMenu && menuOption == 0
      ensures RunOk()
    {
      W, H := w, h;
      snakeX := new int[MaxLength](i => if i == 0 then 120 else 0);
      snakeY := new int[MaxLength](i => if i == 0 then 170 else 0);
      snakeLength, snakeDirection := 1, 0;
      foodX, foodY, foodAvailable, foodTimer, foodCountdown := 0, 0, false, 0, FoodSeconds;
      redFoodX := new int[RedSlots](i => 0);
      redFoodY := new int[RedSlots](i => 0);
      redFoodAvailable := new bool[RedSlots](i => false);
      redFoodCount := 1;
      barrierX, barrierY, barrierAppeared := 0, 0, false;
      gameOver, score, level, currentLevel, speed := false, 0, 1, 1, BaseSpeed;
      highScore := 0;
      inMenu, menuOption := true, 0;
      new;
      // setup(): EEPROM.read and the blank-cell check.
      highScore := stored as int;
      if highScore == BlankByte {
        highScore := 0;
      }
    }

    /** updateJoystickInput, with the mapped axes xMap and yMap given. */
    method UpdateJoystickInput(xMap: int, yMap: int)
      requires Valid()
      modifies this`snakeDirection
      ensures snakeDirection == Steer(old(snakeDirection), xMap, yMap)
      ensures snakeDirection != Opposite(old(snakeDirection))
    {
      if xMap == 1 && snakeDirection != 2 {
        snakeDirection := 3;
      } else if xMap == -1 && snakeDirection != 3 {
        snakeDirection := 2;
      } else if yMap == 1 && snakeDirection != 0 {
        snakeDirection := 1;
      } else if yMap == -1 && snakeDirection != 1 {
        snakeDirection := 0;
      }
    }

    /** moveSnake: shift the body one slot back, then step and wrap the head. */
    method MoveSnake()
      requires Valid()
      modifies snakeX, snakeY
      ensures forall i :: 1 <= i < snakeLength ==> snakeX[i] == old(snakeX[i - 1]) && snakeY[i] == old(snakeY[i - 1])
      ensures forall i :: snakeLength <= i < MaxLength ==> snakeX[i] == old(snakeX[i]) && snakeY[i] == old(snakeY[i])
      ensures (snakeX[0], snakeY[0]) == NextHead(old(snakeX[0]), old(snakeY[0]), snakeDirection, W, H)
      ensures OnGrid(old(snakeX[0]), old(snakeY[0]), W, H) ==> OnGrid(snakeX[0], snakeY[0], W, H)
    {
      var i := snakeLength - 1;
      while i > 0
        invariant 0 <= i < snakeLength
        invariant forall j :: i < j < snakeLength ==> snakeX[j] == old(snakeX[j - 1]) && snakeY[j] == old(snakeY[j - 1])
        invariant forall j :: 0 <= j <= i || snakeLength <= j < MaxLength ==> snakeX[j] == old(snakeX[j]) && snakeY[j] == old(snakeY[j])
      {
        snakeX[i] := snakeX[i - 1];
        snakeY[i] := snakeY[i - 1];
        i := i - 1;
      }
      var headX, headY := StepHead(snakeX[0], snakeY[0], snakeDirection);
      snakeX[0], snakeY[0] := headX, headY;
    }

    /** The head update of moveSnake: one cell along dir, then the edge wrap. */
    method StepHead(x: int, y: int, dir: Direction) returns (headX: int, headY: int)
      requires Valid()
      ensures (headX, headY) == NextHead(x, y, dir, W, H)
    {
      headX, headY := x, y;
      if dir == 0 {
        headY := headY + CellSize;
      } else if dir == 1 {
        headY := headY - CellSize;
      } else if dir == 2 {
        headX := headX + CellSize;
      } else if dir == 3 {
        headX := headX - CellSize;
      }
      if headX < 0 { headX := W - CellSize; }
      if headX >= W { headX := 0; }
      if headY < ReservedHeight { headY := H - CellSize; }
      if headY >= H { headY := ReservedHeight; }
    }

    /**
     * placeFood: draw cells from the stream until one is outside the
     * exclusion box, then start the food's timer and countdown.
     */
    method PlaceFood(draws: seq<Draw>, start: nat, now: nat) returns (next: nat)
      requires Valid() && DrawsInRange(draws, W, H)
      requires CountFrom(draws, start, barrierX, barrierY) > 0
      modifies this`foodX, this`foodY, this`foodAvailable, this`foodTimer, this`foodCountdown
      ensures FoodPlaced(draws, start, next, now)
    {
      // The do-while loop draws into (x, y); foodX and foodY take the last draw.
      var k := start;
      var x, y := DrawX(draws[k]), DrawY(draws[k]);
      while InExclusionBox(x, y, barrierX, barrierY)
        invariant start <= k < |draws|
        invariant x == DrawX(draws[k]) && y == DrawY(draws[k])
        invariant CountFrom(draws, k, barrierX, barrierY) == CountFrom(draws, start, barrierX, barrierY)
        invariant FirstAccepted(draws, k, barrierX, barrierY) == FirstAccepted(draws, start, barrierX, barrierY)
        decreases |draws| - k
      {
        k := k + 1;
        x, y := DrawX(draws[k]), DrawY(draws[k]);
      }
      DrawnCellOnGrid(draws[k], W, H);
      next := k + 1;
      foodX, foodY := x, y;
      foodAvailable := true;
      foodTimer := now;
      foodCountdown := FoodSeconds;
    }

    /** placeRedFood: the same rejection sampling for red-food slot i, which becomes active. */
    method PlaceRedFood(i: int, draws: seq<Draw>, start: nat) returns (next: nat)
      requires Valid() && DrawsInRange(draws, W, H) && 0 <= i < RedSlots
      requires CountFrom(draws, start, barrierX, barrierY) > 0
      modifies redFoodX, redFoodY, redFoodAvailable
      ensures next == FirstAccepted(draws, start, barrierX, barrierY) + 1
      ensures CountFrom(draws, next, barrierX, barrierY) == CountFrom(draws, start, barrierX, barrierY) - 1
      ensures redFoodX[i] == DrawX(draws[next - 1]) && redFoodY[i] == DrawY(draws[next - 1])
      ensures OnGrid(redFoodX[i], redFoodY[i], W, H) && !InExclusionBox(redFoodX[i], redFoodY[i], barrierX, barrierY)
      ensures redFoodAvailable[i]
      ensures forall j :: 0 <= j < RedSlots && j != i ==>
        redFoodX[j] == old(redFoodX[j]) && redFoodY[j] == old(redFoodY[j]) && redFoodAvailable[j] == old(redFoodAvailable[j])
    {
      var k := start;
      var x, y := DrawX(draws[k]), DrawY(draws[k]);
      while InExclusionBox(x, y, barrierX, barrierY)
        invariant start <= k < |draws|
        invariant x == DrawX(draws[k]) && y == DrawY(draws[k])
        invariant CountFrom(draws, k, barrierX, barrierY) == CountFrom(draws, start, barrierX, barrierY)
        invariant FirstAccepted(draws, k, barrierX, barrierY) == FirstAccepted(draws, start, barrierX, barrierY)
        decreases |draws| - k
      {
        k := k + 1;
        x, y := DrawX(draws[k]), DrawY(draws[k]);
      }
      DrawnCellOnGrid(draws[k], W, H);
      next := k + 1;
      redFoodX[i], redFoodY[i] := x, y;
      redFoodAvailable[i] := true;
    }

    /**
     * handleFood: from level 3 on, count the yellow food's seconds down
     * (at most one step per call) and replace it once it is 5000 ms old.
     */
    method HandleFood(draws: seq<Draw>, start: nat, now: nat) returns (next: nat)
      requires Valid() && DrawsInRange(draws, W, H)
      requires foodTimer <= now
      requires foodAvailable && level >= TimedFoodLevel && now - foodTimer >= FoodDuration ==>
        CountFrom(draws, start, barrierX, barrierY) > 0
      modifies this`foodX, this`foodY, this`foodAvailable, this`foodTimer, this`foodCountdown
      ensures foodTimer <= now
      ensures foodCountdown == FoodSeconds || old(foodCountdown) - 1 <= foodCountdown <= old(foodCountdown)
      ensures !(old(foodAvailable) && level >= TimedFoodLevel) ==>
        next == start && foodX == old(foodX) && foodY == old(foodY) && foodAvailable == old(foodAvailable) &&
        foodTimer == old(foodTimer) && foodCountdown == old(foodCountdown)
      ensures old(foodAvailable) && level >= TimedFoodLevel && now - old(foodTimer) < FoodDuration ==>
        next == start && foodX == old(foodX) && foodY == old(foodY) && foodAvailable && foodTimer == old(foodTimer) &&
        foodCountdown == (if now - old(foodTimer) >= 1000 * (FoodSeconds - old(foodCountdown)) && old(foodCountdown) > 0
                          then old(foodCountdown) - 1 else old(foodCountdown))
      ensures old(foodAvailable) && level >= TimedFoodLevel && now - old(foodTimer) >= FoodDuration ==>
        FoodPlaced(draws, start, next, now)
    {
      next := start;
      if foodAvailable && level >= TimedFoodLevel {
        var elapsed := now - foodTimer;
        if elapsed >= 1000 * (FoodSeconds - foodCountdown) && foodCountdown > 0 {
          foodCountdown := foodCountdown - 1;
        }
        if elapsed >= FoodDuration {
          // clearFood, then placeFood
          foodAvailable := false;
          next := PlaceFood(draws, start, now);
        }
      }
    }

    /**
     * checkFoodCollision: the yellow food first, then the red foods, both
     * against the head's cell.
     */
    method CheckFoodCollision(draws: seq<Draw>, start: nat, now: nat) returns (next: nat)
      requires Valid() && DrawsInRange(draws, W, H)
      requires HeadOnFood() ==> snakeLength < MaxLength && CountFrom(draws, start, barrierX, barrierY) > 0
      modifies this`score, this`snakeLength, this`level
      modifies this`foodX, this`foodY, this`foodAvailable, this`foodTimer, this`foodCountdown
      modifies redFoodAvailable
      ensures var eaten := if old(HeadOnFood()) then Eat(old(score), old(level)) else (old(score), old(level));
        level == eaten.1 &&
        score == Penalized(eaten.0, CountHits(old(redFoodAvailable[..]), redFoodX[..], redFoodY[..], redFoodCount, snakeX[0], snakeY[0]))
      ensures snakeLength == old(snakeLength) + (if old(HeadOnFood()) then 1 else 0)
      ensures old(HeadOnFood()) ==> FoodPlaced(draws, start, next, now)
      ensures !old(HeadOnFood()) ==>
        next == start && foodX == old(foodX) && foodY == old(foodY) && foodAvailable == old(foodAvailable) &&
        foodTimer == old(foodTimer) && foodCountdown == old(foodCountdown)
      ensures forall i :: 0 <= i < RedSlots ==>
        redFoodAvailable[i] == (old(redFoodAvailable[i]) && !(i < redFoodCount && HeadOnRedFood(i)))
    {
      next := EatYellowFood(draws, start, now);
      EatRedFood();
    }

    /**
     * The first half of checkFoodCollision: a head on the yellow food's cell
     * scores a point, grows the snake, gains a level on every even score and
     * places a new food.
     */
    method EatYellowFood(draws: seq<Draw>, start: nat, now: nat) returns (next: nat)
      requires Valid() && DrawsInRange(draws, W, H)
      requires HeadOnFood() ==> snakeLength < MaxLength && CountFrom(draws, start, barrierX, barrierY) > 0
      modifies this`score, this`snakeLength, this`level
      modifies this`foodX, this`foodY, this`foodAvailable, this`foodTimer, this`foodCountdown
      ensures (score, level) == if old(HeadOnFood()) then Eat(old(score), old(level)) else (old(score), old(level))
      ensures snakeLength == old(snakeLength) + (if old(HeadOnFood()) then 1 else 0)
      ensures old(HeadOnFood()) ==> FoodPlaced(draws, start, next, now)
      ensures !old(HeadOnFood()) ==>
        next == start && foodX == old(foodX) && foodY == old(foodY) && foodAvailable == old(foodAvailable) &&
        foodTimer == old(foodTimer) && foodCountdown == old(foodCountdown)
    {
      next := start;
      if snakeX[0] == foodX && snakeY[0] == foodY {
        score := score + 1;
        snakeLength := snakeLength + 1;
        if score % 2 == 0 {
          level := level + 1;
        }
        foodAvailable := false;
        next := PlaceFood(draws, start, now);
      }
    }

    /**
     * The second half of checkFoodCollision: every active red food in play
     * under the head costs a point, never going below zero, and is
     * deactivated.
     */
    method EatRedFood()
      requires Valid()
      modifies this`score, redFoodAvailable
      ensures score == Penalized(old(score), CountHits(old(redFoodAvailable[..]), redFoodX[..], redFoodY[..], redFoodCount, snakeX[0], snakeY[0]))
      ensures forall i :: 0 <= i < RedSlots ==>
        redFoodAvailable[i] == (old(redFoodAvailable[i]) && !(i < redFoodCount && HeadOnRedFood(i)))
    {
      // The running score is kept in s and written back after the loop.
      var s := score;
      ghost var avail, xs, ys := redFoodAvailable[..], redFoodX[..], redFoodY[..];
      var i := 0;
      while i < redFoodCount
        modifies redFoodAvailable
        invariant 0 <= i <= redFoodCount
        invariant s == Penalized(score, CountHits(avail, xs, ys, i, snakeX[0], snakeY[0]))
        invariant forall j :: 0 <= j < RedSlots ==>
          redFoodAvailable[j] == (avail[j] && !(j < i && xs[j] == snakeX[0] && ys[j] == snakeY[0]))
      {
        if redFoodAvailable[i] && snakeX[0] == redFoodX[i] && snakeY[0] == redFoodY[i] {
          if s > 0 {
            s := s - 1;
          } else {
            s := 0;
          }
          redFoodAvailable[i] := false;
        }
        i := i + 1;
      }
      score := s;
    }

    /** checkSelfCollision: the game ends when the head lies on a body cell behind it. */
    method CheckSelfCollision()
      requires Valid()
      modifies this`gameOver
      ensures gameOver == (old(gameOver) || HeadOnBody())
    {
      var i := 1;
      while i < snakeLength
        invariant 1 <= i <= snakeLength
        invariant gameOver == (old(gameOver) || exists j :: 1 <= j < i && snakeX[0] == snakeX[j] && snakeY[0] == snakeY[j])
      {
        if snakeX[0] == snakeX[i] && snakeY[0] == snakeY[i] {
          gameOver := true;
        }
        i := i + 1;
      }
    }

    /** drawBarrier with placeBarrier's coordinates: the barrier appears once, at level 2. */
    method DrawBarrier()
      requires Valid()
      modifies this`barrierX, this`barrierY, this`barrierAppeared
      ensures !old(barrierAppeared) && level >= 2 ==> barrierAppeared && barrierX == BarrierLeft && barrierY == BarrierTop
      ensures old(barrierAppeared) || level < 2 ==>
        barrierAppeared == old(barrierAppeared) && barrierX == old(barrierX) && barrierY == old(barrierY)
    {
      if !barrierAppeared && level >= 2 {
        // placeBarrier
        barrierX := BarrierLeft;
        barrierY := BarrierTop;
        barrierAppeared := true;
      }
    }

    /** checkBarrierCollision: the game ends when the head lies on a barrier that has appeared. */
    method CheckBarrierCollision()
      requires Valid()
      modifies this`gameOver
      ensures gameOver == (old(gameOver) || (barrierAppeared && InBarrier(snakeX[0], snakeY[0], barrierX, barrierY)))
    {
      // The source's `barrierAppeared && A | B` parses as `barrierAppeared && (A | B)`.
      if barrierAppeared && InBarrier(snakeX[0], snakeY[0], barrierX, barrierY) {
        gameOver := true;
      }
    }

    /**
     * handleRedFood: from level 4 on, level - 3 slots are in play and every
     * inactive one of them gets a new cell; active slots keep theirs.
     */
    method HandleRedFood(draws: seq<Draw>, start: nat) returns (next: nat)
      requires Valid() && DrawsInRange(draws, W, H)
      requires level >= RedFoodLevel ==> level - 3 <= RedSlots
      requires level >= RedFoodLevel ==> CountFrom(draws, start, barrierX, barrierY) >= RedFoodTarget(level)
      modifies this`redFoodCount, redFoodX, redFoodY, redFoodAvailable
      ensures level < RedFoodLevel ==>
        next == start && redFoodCount == old(redFoodCount) &&
        redFoodX[..] == old(redFoodX[..]) && redFoodY[..] == old(redFoodY[..]) &&
        redFoodAvailable[..] == old(redFoodAvailable[..])
      ensures level >= RedFoodLevel ==>
        redFoodCount == RedFoodTarget(level) &&
        start <= next && CountFrom(draws, next, barrierX, barrierY) >= CountFrom(draws, start, barrierX, barrierY) - redFoodCount
      ensures level >= RedFoodLevel ==> forall i :: 0 <= i < redFoodCount ==> redFoodAvailable[i]
      ensures forall i :: 0 <= i < RedSlots && old(redFoodAvailable[i]) ==>
        redFoodAvailable[i] && redFoodX[i] == old(redFoodX[i]) && redFoodY[i] == old(redFoodY[i])
      ensures forall i :: redFoodCount <= i < RedSlots ==>
        redFoodAvailable[i] == old(redFoodAvailable[i]) && redFoodX[i] == old(redFoodX[i]) && redFoodY[i] == old(redFoodY[i])
      ensures forall i :: 0 <= i < RedSlots && !old(redFoodAvailable[i]) && redFoodAvailable[i] ==>
        OnGrid(redFoodX[i], redFoodY[i], W, H) && !InExclusionBox(redFoodX[i], redFoodY[i], barrierX, barrierY)
    {
      next := start;
      if level >= RedFoodLevel {
        if level == 4 {
          redFoodCount := 1;
        } else {
          redFoodCount := level - 3;
        }
        var i := 0;
        while i < redFoodCount
          modifies redFoodX, redFoodY, redFoodAvailable
          invariant 0 <= i <= redFoodCount
          invariant start <= next
          invariant CountFrom(draws, next, barrierX, barrierY) >= CountFrom(draws, start, barrierX, barrierY) - i
          invariant forall j :: 0 <= j < i ==> redFoodAvailable[j]
          invariant forall j :: 0 <= j < RedSlots && old(redFoodAvailable[j]) ==>
            redFoodAvailable[j] && redFoodX[j] == old(redFoodX[j]) && redFoodY[j] == old(redFoodY[j])
          invariant forall j :: i <= j < RedSlots ==>
            redFoodAvailable[j] == old(redFoodAvailable[j]) && redFoodX[j] == old(redFoodX[j]) && redFoodY[j] == old(redFoodY[j])
          invariant forall j :: 0 <= j < RedSlots && !old(redFoodAvailable[j]) && redFoodAvailable[j] ==>
            OnGrid(redFoodX[j], redFoodY[j], W, H) && !InExclusionBox(redFoodX[j], redFoodY[j], barrierX, barrierY)
        {
          if !redFoodAvailable[i] {
            next := PlaceRedFood(i, draws, next);
          }
          i := i + 1;
        }
      }
    }

    /** resetGame: a one-cell snake at the start cell, score 0, level 1, base speed, and a first food. */
    method ResetGame(draws: seq<Draw>, start: nat, now: nat) returns (next: nat)
      requires Valid() && DrawsInRange(draws, W, H)
      requires CountFrom(draws, start, barrierX, barrierY) > 0
      modifies this`snakeLength, this`snakeDirection, this`score, this`level, this`speed, this`gameOver
      modifies this`foodX, this`foodY, this`foodAvailable, this`foodTimer, this`foodCountdown
      modifies snakeX, snakeY
      ensures JustReset()
      ensures forall i :: 1 <= i < MaxLength ==> snakeX[i] == old(snakeX[i]) && snakeY[i] == old(snakeY[i])
      ensures old(BodyOk()) && old(snakeLength) == 1 ==> BodyOk()
      ensures FoodPlaced(draws, start, next, now)
    {
      RestartRun();
      next := PlaceFood(draws, start, now);
    }

    /** The assignments resetGame makes before it places the first food. */
    method RestartRun()
      requires Valid()
      modifies this`snakeLength, this`snakeDirection, this`score, this`level, this`speed, this`gameOver
      modifies snakeX, snakeY
      ensures JustReset()
      ensures forall i :: 1 <= i < MaxLength ==> snakeX[i] == old(snakeX[i]) && snakeY[i] == old(snakeY[i])
      ensures old(BodyOk()) && old(snakeLength) == 1 ==> BodyOk()
    {
      snakeLength := 1;
      snakeX[0] := StartX;
      snakeY[0] := StartY;
      snakeDirection := 0;
      score := 0;
      level := 1;
      speed := BaseSpeed;
      gameOver := false;
    }

    /** startNewGame: leave the menu and reset the game. */
    method StartNewGame(draws: seq<Draw>, start: nat, now: nat) returns (next: nat)
      requires Valid() && DrawsInRange(draws, W, H)
      requires CountFrom(draws, start, barrierX, barrierY) > 0
      modifies this`inMenu, this`snakeLength, this`snakeDirection, this`score, this`level, this`speed, this`gameOver
      modifies this`foodX, this`foodY, this`foodAvailable, this`foodTimer, this`foodCountdown
      modifies snakeX, snakeY
      ensures JustReset() && !inMenu
      ensures forall i :: 1 <= i < MaxLength ==> snakeX[i] == old(snakeX[i]) && snakeY[i] == old(snakeY[i])
      ensures old(BodyOk()) && old(snakeLength) == 1 ==> BodyOk()
      ensures FoodPlaced(draws, start, next, now)
    {
      inMenu := false;
      next := ResetGame(draws, start, now);
    }

    /**
     * handleMenuInput, with the mapped y axis and the button given: move the
     * cursor, then on a press start a game (option 0) or show the high score
     * (option 1, which changes nothing).
     */
    method HandleMenuInput(yMap: int, pressed: bool, draws: seq<Draw>, start: nat, now: nat) returns (next: nat)
      requires Valid() && DrawsInRange(draws, W, H)
      requires pressed && MenuMove(menuOption, yMap) == 0 ==> CountFrom(draws, start, barrierX, barrierY) > 0
      modifies this`menuOption, this`inMenu, this`snakeLength, this`snakeDirection, this`score, this`level
      modifies this`speed, this`gameOver, this`foodX, this`foodY, this`foodAvailable, this`foodTimer, this`foodCountdown
      modifies snakeX, snakeY
      ensures menuOption == MenuMove(old(menuOption), yMap)
      ensures old(BodyOk()) && old(snakeLength) == 1 ==> BodyOk()
      ensures pressed && menuOption == 0 ==>
        !inMenu && JustReset() && FoodPlaced(draws, start, next, now) &&
        forall i :: 1 <= i < MaxLength ==> snakeX[i] == old(snakeX[i]) && snakeY[i] == old(snakeY[i])
      ensures !(pressed && menuOption == 0) ==>
        next == start && inMenu == old(inMenu) && snakeLength == old(snakeLength) &&
        snakeDirection == old(snakeDirection) && score == old(score) && level == old(level) &&
        speed == old(speed) && gameOver == old(gameOver) && foodX == old(foodX) && foodY == old(foodY) &&
        foodAvailable == old(foodAvailable) && foodTimer == old(foodTimer) && foodCountdown == old(foodCountdown) &&
        snakeX[..] == old(snakeX[..]) && snakeY[..] == old(snakeY[..])
    {
      next := start;
      if yMap == -1 && menuOption == 1 {
        menuOption := 0;
      } else if yMap == 1 && menuOption == 0 {
        menuOption := 1;
      }
      if pressed {
        if menuOption == 0 {
          next := StartNewGame(draws, start, now);
        } else if menuOption == 1 {
          // displayHighScore only draws.
        }
      }
    }

    /** saveHighScore: the high score becomes the larger of itself and the score. */
    method SaveHighScore()
      requires Valid()
      modifies this`highScore
      ensures highScore == Best(old(highScore), score)
    {
      if score > highScore {
        highScore := score;
      }
    }

    /** Where the barrier is once drawBarrier has run in this tick. */
    function BarrierAfterDraw(): (p: (int, int))
      reads this
    {
      if !barrierAppeared && level >= 2 then (BarrierLeft, BarrierTop) else (barrierX, barrierY)
    }

    /** Where the head goes in the next tick, after the joystick input (xMap, yMap). */
    ghost function NextTickHead(xMap: int, yMap: int): (p: (int, int))
      reads this, snakeX, snakeY
      requires Valid()
    {
      NextHead(snakeX[0], snakeY[0], Steer(snakeDirection, xMap, yMap), W, H)
    }

    /**
     * The limits of the source's arrays hold through one playing tick: the
     * snake does not grow past 100 cells, and the level that handleRedFood
     * sees asks for at most 10 red foods.
     */
    ghost predicate TickFits(xMap: int, yMap: int)
      reads this, snakeX, snakeY
      requires Valid()
    {
      var eats := NextTickHead(xMap, yMap) == (foodX, foodY);
      (eats ==> snakeLength < MaxLength) &&
      (if eats then Eat(score, level).1 else level) <= 3 + RedSlots
    }

    /**
     * One pass of loop(). In the menu: handleMenuInput. While playing: one
     * tick. After the game is over: saveHighScore, and nothing else changes.
     * scaledSpeed is the value of the speed formula for the level reached.
     */
    method Loop(xMap: int, yMap: int, pressed: bool, now: nat, scaledSpeed: int, draws: seq<Draw>, start: nat)
      returns (next: nat)
      requires Valid() && DrawsInRange(draws, W, H)
      requires foodTimer <= now
      requires inMenu && pressed && MenuMove(menuOption, yMap) == 0 ==> CountFrom(draws, start, barrierX, barrierY) > 0
      requires !inMenu && !gameOver ==>
        TickFits(xMap, yMap) &&
        CountFrom(draws, start, BarrierAfterDraw().0, BarrierAfterDraw().1) >= 2 + RedSlots
      modifies this, snakeX, snakeY, redFoodX, redFoodY, redFoodAvailable
      ensures foodTimer <= now
      ensures old(RunOk()) && !gameOver ==> RunOk()
      ensures old(inMenu) ==>
        menuOption == MenuMove(old(menuOption), yMap) &&
        inMenu == !(pressed && menuOption == 0) &&
        (!inMenu ==> JustReset() && FoodPlaced(draws, start, next, now))
      ensures old(inMenu) ==>
        highScore == old(highScore) && redFoodCount == old(redFoodCount) && currentLevel == old(currentLevel) &&
        barrierX == old(barrierX) && barrierY == old(barrierY) && barrierAppeared == old(barrierAppeared) &&
        unchanged(redFoodX, redFoodY, redFoodAvailable)
      ensures old(inMenu) && inMenu ==>
        next == start && snakeLength == old(snakeLength) && snakeDirection == old(snakeDirection) &&
        score == old(score) && level == old(level) && speed == old(speed) && gameOver == old(gameOver) &&
        foodX == old(foodX) && foodY == old(foodY) && foodAvailable == old(foodAvailable) &&
        foodTimer == old(foodTimer) && foodCountdown == old(foodCountdown) &&
        snakeX[..] == old(snakeX[..]) && snakeY[..] == old(snakeY[..])
      ensures !old(inMenu) ==> !inMenu && menuOption == old(menuOption)
      ensures !old(inMenu) && old(gameOver) ==>
        highScore == Best(old(highScore), score) &&
        gameOver && score == old(score) && level == old(level) && snakeLength == old(snakeLength) &&
        snakeDirection == old(snakeDirection) && speed == old(speed) && currentLevel == old(currentLevel) &&
        foodX == old(foodX) && foodY == old(foodY) && foodAvailable == old(foodAvailable) &&
        foodTimer == old(foodTimer) && foodCountdown == old(foodCountdown) && redFoodCount == old(redFoodCount) &&
        barrierX == old(barrierX) && barrierY == old(barrierY) && barrierAppeared == old(barrierAppeared) &&
        unchanged(snakeX, snakeY, redFoodX, redFoodY, redFoodAvailable)
      ensures !old(inMenu) && !old(gameOver) ==>
        snakeDirection == Steer(old(snakeDirection), xMap, yMap) &&
        (snakeX[0], snakeY[0]) == old(NextTickHead(xMap, yMap)) &&
        old(level) <= level <= old(level) + 1 &&
        gameOver == (HeadOnBody() || (barrierAppeared && InBarrier(snakeX[0], snakeY[0], barrierX, barrierY))) &&
        highScore == old(highScore)
    {
      next := start;
      if inMenu {
        next := HandleMenuInput(yMap, pressed, draws, start, now);
      } else if !gameOver {
        next := Tick(xMap, yMap, now, scaledSpeed, draws, start);
      } else {
        SaveHighScore();
      }
    }

    /**
     * The playing branch of loop(): input, move, barrier, food, self
     * collision and barrier collision, then the food timer, the red food
     * and the speed guard.
     */
    method Tick(xMap: int, yMap: int, now: nat, scaledSpeed: int, draws: seq<Draw>, start: nat) returns (next: nat)
      requires Valid() && DrawsInRange(draws, W, H)
      requires foodTimer <= now && !gameOver
      requires TickFits(xMap, yMap)
      requires CountFrom(draws, start, BarrierAfterDraw().0, BarrierAfterDraw().1) >= 2 + RedSlots
      modifies this`snakeDirection, this`snakeLength, this`score, this`level, this`currentLevel, this`speed, this`gameOver
      modifies this`foodX, this`foodY, this`foodAvailable, this`foodTimer, this`foodCountdown
      modifies this`redFoodCount, this`barrierX, this`barrierY, this`barrierAppeared
      modifies snakeX, snakeY, redFoodX, redFoodY, redFoodAvailable
      ensures snakeDirection == Steer(old(snakeDirection), xMap, yMap)
      ensures (snakeX[0], snakeY[0]) == old(NextTickHead(xMap, yMap))
      ensures forall i :: 1 <= i < old(snakeLength) ==> snakeX[i] == old(snakeX[i - 1]) && snakeY[i] == old(snakeY[i - 1])
      ensures var ate := old(NextTickHead(xMap, yMap) == (foodX, foodY));
        snakeLength == old(snakeLength) + (if ate then 1 else 0) &&
        level == (if ate then Eat(old(score), old(level)).1 else old(level)) &&
        score == Penalized(if ate then old(score) + 1 else old(score),
          CountHits(old(redFoodAvailable[..]), old(redFoodX[..]), old(redFoodY[..]), old(redFoodCount), snakeX[0], snakeY[0]))
      ensures forall i :: old(snakeLength) <= i < MaxLength ==> snakeX[i] == old(snakeX[i]) && snakeY[i] == old(snakeY[i])
      ensures old(BodyOk()) && !HeadOnBody() ==> BodyOk()
      ensures barrierAppeared == (old(barrierAppeared) || old(level) >= 2) && (barrierX, barrierY) == old(BarrierAfterDraw())
      ensures gameOver == (HeadOnBody() || (barrierAppeared && InBarrier(snakeX[0], snakeY[0], barrierX, barrierY)))
      ensures level >= RedFoodLevel ==> redFoodCount == level - 3 && forall i :: 0 <= i < redFoodCount ==> redFoodAvailable[i]
      ensures level >= 5 && old(currentLevel) != level ==> currentLevel == level && speed == scaledSpeed
      ensures !(level >= 5 && old(currentLevel) != level) ==> currentLevel == old(currentLevel) && speed == old(speed)
      ensures foodTimer <= now
    {
      next := Advance(xMap, yMap, draws, start, now);
      next := HandleTimers(now, scaledSpeed, draws, next);
    }

    /**
     * The first part of a tick: the snake turns and moves, the barrier
     * appears if it is due, and the collisions are checked.
     */
    method Advance(xMap: int, yMap: int, draws: seq<Draw>, start: nat, now: nat) returns (next: nat)
      requires Valid() && DrawsInRange(draws, W, H)
      requires !gameOver
      requires TickFits(xMap, yMap)
      requires CountFrom(draws, start, BarrierAfterDraw().0, BarrierAfterDraw().1) >= 2 + RedSlots
      modifies this`snakeDirection, this`snakeLength, this`score, this`level, this`gameOver
      modifies this`foodX, this`foodY, this`foodAvailable, this`foodTimer, this`foodCountdown
      modifies this`barrierX, this`barrierY, this`barrierAppeared
      modifies snakeX, snakeY, redFoodAvailable
      ensures snakeDirection == Steer(old(snakeDirection), xMap, yMap)
      ensures (snakeX[0], snakeY[0]) == old(NextTickHead(xMap, yMap))
      ensures forall i :: 1 <= i < old(snakeLength) ==> snakeX[i] == old(snakeX[i - 1]) && snakeY[i] == old(snakeY[i - 1])
      ensures var ate := old(NextTickHead(xMap, yMap) == (foodX, foodY));
        snakeLength == old(snakeLength) + (if ate then 1 else 0) &&
        level == (if ate then Eat(old(score), old(level)).1 else old(level)) &&
        score == Penalized(if ate then old(score) + 1 else old(score),
          CountHits(old(redFoodAvailable[..]), redFoodX[..], redFoodY[..], redFoodCount, snakeX[0], snakeY[0]))
      ensures level <= 3 + RedSlots
      ensures barrierAppeared == (old(barrierAppeared) || old(level) >= 2) && (barrierX, barrierY) == old(BarrierAfterDraw())
      ensures gameOver == (HeadOnBody() || (barrierAppeared && InBarrier(snakeX[0], snakeY[0], barrierX, barrierY)))
      ensures forall i :: old(snakeLength) <= i < MaxLength ==> snakeX[i] == old(snakeX[i]) && snakeY[i] == old(snakeY[i])
      ensures old(BodyOk()) && !HeadOnBody() ==> BodyOk()
      ensures start <= next && CountFrom(draws, next, barrierX, barrierY) >= 1 + RedSlots
      ensures foodTimer == old(foodTimer) || foodTimer == now
    {
      ghost var xs, ys, n := snakeX[..], snakeY[..], snakeLength;
      TurnAndMove(xMap, yMap);
      next := Collide(draws, start, now);
      if DistinctBody(xs, ys, n) && !HeadOnBody() {
        BodyStepKeepsDistinct(xs, ys, n, snakeX[..], snakeY[..], snakeLength);
      }
    }

    /** updateJoystickInput, moveSnake and drawBarrier. */
    method TurnAndMove(xMap: int, yMap: int)
      requires Valid()
      modifies this`snakeDirection, this`barrierX, this`barrierY, this`barrierAppeared, snakeX, snakeY
      ensures snakeDirection == Steer(old(snakeDirection), xMap, yMap)
      ensures (snakeX[0], snakeY[0]) == NextHead(old(snakeX[0]), old(snakeY[0]), snakeDirection, W, H)
      ensures forall i :: 1 <= i < snakeLength ==> snakeX[i] == old(snakeX[i - 1]) && snakeY[i] == old(snakeY[i - 1])
      ensures forall i :: snakeLength <= i < MaxLength ==> snakeX[i] == old(snakeX[i]) && snakeY[i] == old(snakeY[i])
      ensures barrierAppeared == (old(barrierAppeared) || level >= 2) && (barrierX, barrierY) == old(BarrierAfterDraw())
    {
      UpdateJoystickInput(xMap, yMap);
      MoveSnake();
      DrawBarrier();
    }

    /** checkFoodCollision, checkSelfCollision and checkBarrierCollision. */
    method Collide(draws: seq<Draw>, start: nat, now: nat) returns (next: nat)
      requires Valid() && DrawsInRange(draws, W, H)
      requires HeadOnFood() ==> snakeLength < MaxLength
      requires (if HeadOnFood() then Eat(score, level).1 else level) <= 3 + RedSlots
      requires CountFrom(draws, start, barrierX, barrierY) >= 2 + RedSlots
      modifies this`snakeLength, this`score, this`level, this`gameOver
      modifies this`foodX, this`foodY, this`foodAvailable, this`foodTimer, this`foodCountdown
      modifies redFoodAvailable
      ensures snakeLength == old(snakeLength) + (if old(HeadOnFood()) then 1 else 0)
      ensures level == (if old(HeadOnFood()) then Eat(old(score), old(level)).1 else old(level))
      ensures score == Penalized(if old(HeadOnFood()) then old(score) + 1 else old(score),
        CountHits(old(redFoodAvailable[..]), redFoodX[..], redFoodY[..], redFoodCount, snakeX[0], snakeY[0]))
      ensures level <= 3 + RedSlots
      ensures gameOver == (old(gameOver) || HeadOnBody() || (barrierAppeared && InBarrier(snakeX[0], snakeY[0], barrierX, barrierY)))
      ensures start <= next && CountFrom(draws, next, barrierX, barrierY) >= 1 + RedSlots
      ensures foodTimer == old(foodTimer) || foodTimer == now
    {
      next := CheckFoodCollision(draws, start, now);
      CheckSelfCollision();
      CheckBarrierCollision();
    }

    /** The second part of a tick: handleFood, handleRedFood and the speed guard. */
    method HandleTimers(now: nat, scaledSpeed: int, draws: seq<Draw>, start: nat) returns (next: nat)
      requires Valid() && DrawsInRange(draws, W, H)
      requires foodTimer <= now && level <= 3 + RedSlots
      requires CountFrom(draws, start, barrierX, barrierY) >= 1 + RedSlots
      modifies this`currentLevel, this`speed
      modifies this`foodX, this`foodY, this`foodAvailable, this`foodTimer, this`foodCountdown
      modifies this`redFoodCount, redFoodX, redFoodY, redFoodAvailable
      ensures level >= RedFoodLevel ==> redFoodCount == level - 3 && forall i :: 0 <= i < redFoodCount ==> redFoodAvailable[i]
      ensures level >= 5 && old(currentLevel) != level ==> currentLevel == level && speed == scaledSpeed
      ensures !(level >= 5 && old(currentLevel) != level) ==> currentLevel == old(currentLevel) && speed == old(speed)
      ensures foodTimer <= now
    {
      next := HandleFood(draws, start, now);
      next := HandleRedFood(draws, next);
      UpdateSpeed(scaledSpeed);
    }

    /** The speed guard at the end of a tick: from level 5 on, speed follows each new level. */
    method UpdateSpeed(scaledSpeed: int)
      requires Valid()
      modifies this`currentLevel, this`speed
      ensures level >= 5 && old(currentLevel) != level ==> currentLevel == level && speed == scaledSpeed
      ensures !(level >= 5 && old(currentLevel) != level) ==> currentLevel == old(currentLevel) && speed == old(speed)
    {
      if level >= 5 && currentLevel != level {
        currentLevel := level;
        speed := scaledSpeed;
      }
    }
  }
}
