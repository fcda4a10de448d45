/**
 * The game's pure rules: steering from the joystick, the menu cursor,
 * scoring and levels, the red-food count and the high-score sentinel.
 */
module Rules {
  import opened Grid

  /** Lifetime of a yellow food, in milliseconds (foodDuration). */
  const FoodDuration := 5000
  /** The countdown a fresh yellow food starts from, in seconds. */
  const FoodSeconds := 5
  /** Tick interval of a new run (baseSpeed). */
  const BaseSpeed := 250
  /** Level from which the yellow food expires, and from which red food appears. */
  const TimedFoodLevel := 3
  const RedFoodLevel := 4
  /** The value an erased EEPROM cell reads as. */
  const BlankByte := 255

  newtype byte = x: int | 0 <= x < 256

  /** Seconds left on a yellow food's countdown. */
  type Countdown = n: int | 0 <= n <= FoodSeconds
  /** Number of red-food slots in play. */
  type RedCount = n: int | 0 <= n <= RedSlots
  /** Levels start at 1. */
  type Level = n: int | n >= 1 witness 1
  /** Menu cursor: 0 is "Start Game", 1 is "View High Score". */
  type MenuOption = n: int | 0 <= n <= 1

  /**
   * The headings the joystick asks for, in the order updateJoystickInput
   * tries them: xMap 1 asks for 3, xMap -1 for 2, yMap 1 for 1, yMap -1 for 0.
   */
  function Requests(xMap: int, yMap: int): (reqs: seq<int>)
  {
    (if xMap == 1 then [3] else []) + (if xMap == -1 then [2] else []) +
    (if yMap == 1 then [1] else []) + (if yMap == -1 then [0] else [])
  }

  /** The first request that does not reverse the heading dir, or dir when there is none. */
  function FirstAllowed(reqs: seq<int>, dir: int): (r: int)
    requires IsDirection(dir)
  {
    if reqs == [] then dir
    else if reqs[0] != Opposite(dir) then reqs[0]
    else FirstAllowed(reqs[1..], dir)
  }

  /** The heading after updateJoystickInput's if-chain. */
  function Steer(dir: int, xMap: int, yMap: int): (r: int)
    requires IsDirection(dir)
    ensures IsDirection(r)
    ensures r != Opposite(dir)
    ensures r != dir ==> r in Requests(xMap, yMap)
    ensures Requests(xMap, yMap) == [] ==> r == dir
  {
    if xMap == 1 && dir != 2 then 3
    else if xMap == -1 && dir != 3 then 2
    else if yMap == 1 && dir != 0 then 1
    else if yMap == -1 && dir != 1 then 0
    else dir
  }

  /** The if-chain takes the highest-priority request that is not the reverse of the heading. */
  lemma SteerTakesFirstAllowed(dir: int, xMap: int, yMap: int)
    requires IsDirection(dir)
    ensures Steer(dir, xMap, yMap) == FirstAllowed(Requests(xMap, yMap), dir)
  {
    var reqs := Requests(xMap, yMap);
    if xMap == 1 {
      assert reqs[0] == 3;
      if yMap == 1 { assert reqs[1..] == [1]; }
      else if yMap == -1 { assert reqs[1..] == [0]; }
      else { assert reqs[1..] == []; }
    } else if xMap == -1 {
      assert reqs[0] == 2;
      if yMap == 1 { assert reqs[1..] == [1]; }
      else if yMap == -1 { assert reqs[1..] == [0]; }
      else { assert reqs[1..] == []; }
    } else {
      if yMap == 1 { assert reqs == [1]; }
      else if yMap == -1 { assert reqs == [0]; }
      else { assert reqs == []; }
    }
  }

  /** The menu cursor after handleMenuInput's navigation step. */
  function MenuMove(option: int, yMap: int): (r: int)
    requires option == 0 || option == 1
    ensures r == 0 || r == 1
    ensures r != option <==> (option == 0 && yMap == 1) || (option == 1 && yMap == -1)
  {
    if yMap == -1 && option == 1 then 0
    else if yMap == 1 && option == 0 then 1
    else option
  }

  /** Score and level after a yellow food is eaten: one more point, and a level for every even score. */
  function Eat(score: int, level: int): (r: (int, int))
    ensures r.0 == score + 1
    ensures r.1 == level || r.1 == level + 1
    ensures r.1 == level + 1 <==> r.0 % 2 == 0
  {
    var s := score + 1;
    (s, if s % 2 == 0 then level + 1 else level)
  }

  /** Score and level after n yellow foods in a new run, with no red food eaten. */
  function Feed(n: nat): (r: (int, int))
  {
    if n == 0 then (0, 1) else Eat(Feed(n - 1).0, Feed(n - 1).1)
  }

  /** Every second point is a level: after n yellow foods the level is 1 + n / 2. */
  lemma {:induction false} FeedLevels(n: nat)
    ensures Feed(n) == (n, 1 + n / 2)
  {
    if n > 0 {
      FeedLevels(n - 1);
    }
  }

  /** Score after m red foods, each taking a point away but never below zero. */
  function Penalized(score: int, m: nat): (r: int)
    requires score >= 0
    ensures 0 <= r <= score
    ensures r == score - m || (r == 0 && score < m)
    decreases m
  {
    if m == 0 then score else var s := Penalized(score, m - 1); if s > 0 then s - 1 else 0
  }

  /** Number of red-food slots below n that are active and lie on the cell (hx, hy). */
  function CountHits(avail: seq<bool>, xs: seq<int>, ys: seq<int>, n: nat, hx: int, hy: int): (m: nat)
    requires n <= |avail| && n <= |xs| && n <= |ys|
    ensures m <= n
    ensures m == 0 <==> forall i :: 0 <= i < n ==> !(avail[i] && xs[i] == hx && ys[i] == hy)
    decreases n
  {
    if n == 0 then 0
    else CountHits(avail, xs, ys, n - 1, hx, hy) + (if avail[n - 1] && xs[n - 1] == hx && ys[n - 1] == hy then 1 else 0)
  }

  /** How many red foods handleRedFood keeps on the board from level 4 on. */
  function RedFoodTarget(level: int): (n: int)
    requires level >= RedFoodLevel
    ensures n == level - 3 && n >= 1
  {
    if level == 4 then 1 else level - 3
  }

  /** The high score after saveHighScore: the larger of the old high score and the score. */
  function Best(high: int, score: int): (r: int)
    ensures r >= high && r >= score
    ensures r == high || r == score
  {
    if score > high then score else high
  }

  /** Saving the same score twice changes nothing the second time. */
  lemma BestIdempotent(high: int, score: int)
    ensures Best(Best(high, score), score) == Best(high, score)
  {
  }

  /** The high score setup loads from a stored byte: an erased cell counts as no score yet. */
  function LoadHighScore(stored: byte): (h: int)
    ensures 0 <= h < BlankByte
    ensures stored == BlankByte as byte ==> h == 0
    ensures stored != BlankByte as byte ==> h == stored as int
  {
    if stored == BlankByte as byte then 0 else stored as int
  }
}
