/** The game engine: the snake, the head about to move, food, poison and the
    food counter, advanced one tick at a time, plus the pause flag. */
module Game {
  import opened Grid
  import opened Placement
  import opened Difficulty

  datatype Reason = SelfCollision | Poisoned

  /** What a tick ends in: the loop goes on, or the game is over (snake.h calls exit). */
  datatype Outcome = Continue | GameOver(reason: Reason)

  /** The state the loop carries from tick to tick. `snake` runs from tail
      (index 0) to the newest cell; `head` is the cell the next step starts from. */
  datatype GameState = GameState(snake: seq<Cell>, head: Cell, food: Cell, poison: Cell, foodEaten: int)

  datatype TickResult = TickResult(state: GameState, outcome: Outcome)

  predicate Distinct(s: seq<Cell>)
  {
    forall i, j :: 0 <= i < j < |s| ==> s[i] != s[j]
  }

  /** What holds of every state the game reaches. */
  predicate WellFormed(s: GameState)
  {
    && |s.snake| >= 1
    && (forall i :: 0 <= i < |s.snake| ==> InBounds(s.snake[i], GridSize))
    && Distinct(s.snake)
    && InBounds(s.head, GridSize)
    && (s.food == NoCell || (InBounds(s.food, GridSize) && s.food !in s.snake))
    && (s.poison == NoCell || (InBounds(s.poison, GridSize) && s.poison !in s.snake && s.poison != s.food))
    && s.foodEaten == |s.snake| - 1
  }

  /** Where the snake starts, and the separate head cell the first step starts from. */
  const StartCell: Cell := Cell(0, 0)
  const StartHead: Cell := Cell(0, 1)

  /** The start of a game: a one-cell snake at (0, 0), the head at (0, 1),
      food and then poison placed against that snake, nothing eaten yet. */
  function Initial(foodRnd: nat, poisonRnd: nat): (s: GameState)
    ensures |s.snake| == 1 && s.foodEaten == 0
    ensures s.head !in s.snake
  {
    var snake := [StartCell];
    var food := Pick(FreeCells(GridSize, snake, None), foodRnd);
    GameState(snake, StartHead, food, Pick(FreeCells(GridSize, snake, Some(food)), poisonRnd), 0)
  }

  /** Poison is hit when both coordinates agree. */
  function IsPoisonCollision(head: Cell, poison: Cell): (hit: bool)
    ensures hit <==> head.first == poison.first && head.second == poison.second
  {
    head == poison
  }

  /** One tick, as a function of the state: self-collision first (against the
      whole snake, tail included), then poison, then food, then a plain move. */
  function Advance(s: GameState, d: Direction, foodRnd: nat, poisonRnd: nat): (r: TickResult)
    ensures r.outcome.GameOver? ==> r.state == s
    ensures r.outcome.Continue? ==>
      && r.state.head == NextHead(s.head, d)
      && |s.snake| <= |r.state.snake| <= |s.snake| + 1
  {
    var next := NextHead(s.head, d);
    if next in s.snake then TickResult(s, GameOver(SelfCollision))
    else if IsPoisonCollision(next, s.poison) then TickResult(s, GameOver(Poisoned))
    else if next == s.food then
      var snake := s.snake + [next];
      var food := Pick(FreeCells(GridSize, snake, None), foodRnd);
      var poison := Pick(FreeCells(GridSize, snake, Some(food)), poisonRnd);
      TickResult(GameState(snake, next, food, poison, s.foodEaten + 1), Continue)
    else
      TickResult(s.(snake := (s.snake + [next])[1..], head := next), Continue)
  }

  /** The game ends exactly when the new head is already on the snake or is the
      poison cell, and only then does the snake stay as it was. Otherwise both
      the head and the newest snake cell are the new head. */
  lemma AdvanceOutcome(s: GameState, d: Direction, foodRnd: nat, poisonRnd: nat)
    requires |s.snake| >= 1
    ensures var next := NextHead(s.head, d);
            var r := Advance(s, d, foodRnd, poisonRnd);
      && (r.outcome == GameOver(SelfCollision) <==> next in s.snake)
      && (r.outcome == GameOver(Poisoned) <==> next !in s.snake && next == s.poison)
      && (r.outcome.GameOver? ==> r.state == s)
      && (r.state.snake == s.snake <==> r.outcome.GameOver?)
      && (r.outcome == Continue ==>
            r.state.head == next && |r.state.snake| >= 1 && r.state.snake[|r.state.snake| - 1] == next)
  {
    var next := NextHead(s.head, d);
    var r := Advance(s, d, foodRnd, poisonRnd);
    if r.outcome == Continue {
      assert r.state.snake[|r.state.snake| - 1] == next;
      assert next !in s.snake;
      assert s.snake[|s.snake| - 1] in s.snake;
    }
  }

  /** Eating grows the snake by exactly its new head and counts one more food;
      the new food and poison are placed against the grown snake. */
  lemma AdvanceEats(s: GameState, d: Direction, foodRnd: nat, poisonRnd: nat)
    requires WellFormed(s)
    requires var next := NextHead(s.head, d); next !in s.snake && next != s.poison && next == s.food
    ensures var next := NextHead(s.head, d);
            var t := Advance(s, d, foodRnd, poisonRnd).state;
      && t.snake == s.snake + [next]
      && |t.snake| == |s.snake| + 1
      && t.foodEaten == s.foodEaten + 1
      && (t.food == NoCell <==> forall c :: InBounds(c, GridSize) ==> c in t.snake)
      && (t.poison == NoCell <==> forall c :: InBounds(c, GridSize) ==> c in t.snake || c == t.food)
  {
    var t := Advance(s, d, foodRnd, poisonRnd).state;
    PickIsFree(GridSize, t.snake, None, foodRnd);
    PickIsFree(GridSize, t.snake, Some(t.food), poisonRnd);
  }

  /** A plain move keeps the length, drops only the oldest cell and leaves
      food, poison and the counter alone. */
  lemma AdvanceMoves(s: GameState, d: Direction, foodRnd: nat, poisonRnd: nat)
    requires |s.snake| >= 1
    requires var next := NextHead(s.head, d); next !in s.snake && next != s.poison && next != s.food
    ensures var next := NextHead(s.head, d);
            var t := Advance(s, d, foodRnd, poisonRnd).state;
      && |t.snake| == |s.snake|
      && t.snake[..|t.snake| - 1] == s.snake[1..]
      && t.snake[|t.snake| - 1] == next
      && t.food == s.food && t.poison == s.poison && t.foodEaten == s.foodEaten
  {
    var next := NextHead(s.head, d);
    var t := Advance(s, d, foodRnd, poisonRnd).state;
    assert t.snake == s.snake[1..] + [next];
  }

  /** Every tick keeps the invariants of a running game. */
  lemma AdvancePreservesWellFormed(s: GameState, d: Direction, foodRnd: nat, poisonRnd: nat)
    requires WellFormed(s)
    ensures WellFormed(Advance(s, d, foodRnd, poisonRnd).state)
  {
    var next := NextHead(s.head, d);
    var r := Advance(s, d, foodRnd, poisonRnd);
    var t := r.state;
    if r.outcome == Continue {
      assert InBounds(next, GridSize);
      if next == s.food {
        assert t.snake == s.snake + [next];
        PickIsFree(GridSize, t.snake, None, foodRnd);
        PickIsFree(GridSize, t.snake, Some(t.food), poisonRnd);
        AppendKeepsDistinct(s.snake, next);
      } else {
        assert t.snake == s.snake[1..] + [next];
        AppendKeepsDistinct(s.snake[1..], next);
        forall c | c in t.snake
          ensures c in s.snake || c == next
        {
        }
      }
    }
  }

  lemma AppendKeepsDistinct(s: seq<Cell>, c: Cell)
    requires Distinct(s) && c !in s
    ensures Distinct(s + [c])
  {
    var t := s + [c];
    forall i, j | 0 <= i < j < |t|
      ensures t[i] != t[j]
    {
      if j < |s| {
        assert t[i] == s[i] && t[j] == s[j];
      } else {
        assert t[i] in s;
      }
    }
  }

  /** A sentinel food or poison is off the board, so the head can never reach it. */
  lemma SentinelNeverHit(s: GameState, d: Direction, foodRnd: nat, poisonRnd: nat)
    requires WellFormed(s)
    ensures var r := Advance(s, d, foodRnd, poisonRnd);
      && (s.food == NoCell ==> r.state.foodEaten == s.foodEaten && |r.state.snake| == |s.snake|)
      && (s.poison == NoCell ==> r.outcome != GameOver(Poisoned))
  {
    NoCellOffBoard(GridSize);
  }

  /** A new game is well formed and, with 99 and then 98 cells free, gets both
      a real food cell and a real poison cell. */
  lemma InitialWellFormed(foodRnd: nat, poisonRnd: nat)
    ensures WellFormed(Initial(foodRnd, poisonRnd))
    ensures Initial(foodRnd, poisonRnd).food != NoCell
    ensures Initial(foodRnd, poisonRnd).poison != NoCell
  {
    var s := Initial(foodRnd, poisonRnd);
    PickIsFree(GridSize, s.snake, None, foodRnd);
    PickIsFree(GridSize, s.snake, Some(s.food), poisonRnd);
    assert InBounds(Cell(0, 1), GridSize) && IsFree(Cell(0, 1), s.snake, None);
    if s.food == Cell(0, 1) {
      assert InBounds(Cell(0, 2), GridSize) && IsFree(Cell(0, 2), s.snake, Some(s.food));
    } else {
      assert InBounds(Cell(0, 1), GridSize) && IsFree(Cell(0, 1), s.snake, Some(s.food));
    }
  }

  /** The first step starts from the separate head (0, 1), so heading left it
      lands on (0, 0), the snake's only cell, and the game is over at once. */
  lemma FirstStepLeftCollides(foodRnd: nat, poisonRnd: nat, nextFoodRnd: nat, nextPoisonRnd: nat)
    ensures Advance(Initial(foodRnd, poisonRnd), Left, nextFoodRnd, nextPoisonRnd).outcome
         == GameOver(SelfCollision)
  {
  }

  /** In a running game the counter is the snake's growth, so the score shown
      is ten points per cell beyond the first. */
  lemma HudTracksLength(s: GameState)
    requires WellFormed(s)
    ensures ComputeScore(s.foodEaten, 10) == 10 * (|s.snake| - 1)
    ensures ComputeLevel(s.foodEaten) == (|s.snake| - 1) / 10
    ensures 100 <= ComputeDelayMs(ComputeLevel(s.foodEaten), 500, 100, 100) <= 500
  {
    DefaultDelays(ComputeLevel(s.foodEaten));
  }

  /** The running game: the loop's local state and the shared pause flag. */
  class Game {
    var snake: seq<Cell>
    var head: Cell
    var food: Cell
    var poison: Cell
    var foodEaten: int
    var paused: bool

    function Snapshot(): GameState
      reads this
    {
      GameState(snake, head, food, poison, foodEaten)
    }

    ghost predicate Valid()
      reads this
    {
      WellFormed(Snapshot())
    }

    /** Sets up a new game; the two numbers stand for the random draws that
        place the first food and the first poison. */
    constructor (foodRnd: nat, poisonRnd: nat)
      ensures Valid()
      ensures Snapshot() == Initial(foodRnd, poisonRnd)
      ensures food != NoCell && poison != NoCell
      ensures !paused
    {
      var s := [StartCell];
      var f := GenerateFood(GridSize, s, foodRnd);
      var p := GeneratePoison(GridSize, s, f, poisonRnd);
      snake := s;
      food := f;
      poison := p;
      foodEaten := 0;
      head := StartHead;
      paused := false;
      new;
      InitialWellFormed(foodRnd, poisonRnd);
    }

    method SetGamePaused(value: bool)
      modifies this`paused
      ensures paused == value
    {
      paused := value;
    }

    method TogglePause()
      modifies this`paused
      ensures paused == !old(paused)
    {
      paused := !paused;
    }

    function IsGamePaused(): (p: bool)
      reads this
      ensures p == paused
    {
      paused
    }

    /** Level, score and delay as the status line and the frame timer use them. */
    function Level(): (level: int)
      reads this
      requires Valid()
      ensures level == (|snake| - 1) / 10
    {
      HudTracksLength(Snapshot());
      ComputeLevel(foodEaten)
    }

    function Score(): (score: int)
      reads this
      requires Valid()
      ensures score == 10 * (|snake| - 1)
    {
      HudTracksLength(Snapshot());
      ComputeScore(foodEaten, 10)
    }

    function CurrentDelayMs(): (delay: int)
      reads this
      ensures 100 <= delay <= 500
      ensures Valid() ==> delay == if |snake| > 40 then 100 else 500 - 100 * ((|snake| - 1) / 10)
    {
      DefaultDelays(ComputeLevel(foodEaten));
      ComputeDelayMs(ComputeLevel(foodEaten), 500, 100, 100)
    }

    /** One pass of the game loop while not paused. */
    method Tick(d: Direction, foodRnd: nat, poisonRnd: nat) returns (outcome: Outcome)
      requires Valid()
      modifies this
      ensures Valid()
      ensures TickResult(Snapshot(), outcome) == Advance(old(Snapshot()), d, foodRnd, poisonRnd)
      ensures paused == old(paused)
    {
      AdvancePreservesWellFormed(Snapshot(), d, foodRnd, poisonRnd);
      var next := NextHead(head, d);
      if next in snake {
        outcome := GameOver(SelfCollision);
        return;
      }
      if IsPoisonCollision(next, poison) {
        outcome := GameOver(Poisoned);
        return;
      }
      if next == food {
        snake := snake + [next];
        foodEaten := foodEaten + 1;
        food := GenerateFood(GridSize, snake, foodRnd);
        poison := GeneratePoison(GridSize, snake, food, poisonRnd);
      } else {
        snake := snake + [next];
        snake := snake[1..];
      }
      head := next;
      outcome := Continue;
    }

    /** One pass of the game loop: while paused nothing moves and nothing changes. */
    method Step(d: Direction, foodRnd: nat, poisonRnd: nat) returns (outcome: Outcome)
      requires Valid()
      modifies this
      ensures Valid()
      ensures paused == old(paused)
      ensures old(paused) ==> outcome == Continue && Snapshot() == old(Snapshot())
      ensures !old(paused) ==> TickResult(Snapshot(), outcome) == Advance(old(Snapshot()), d, foodRnd, poisonRnd)
    {
      if IsGamePaused() {
        outcome := Continue;
        return;
      }
      outcome := Tick(d, foodRnd, poisonRnd);
    }
  }

  /** The pause helpers agree: the flag reads back what was set, and toggling
      twice restores it. */
  method PauseRoundTrip(g: Game, value: bool)
    modifies g`paused
    ensures g.IsGamePaused() == value
  {
    g.SetGamePaused(value);
    assert g.IsGamePaused() == value;
    g.TogglePause();
    assert g.IsGamePaused() == !value;
    g.TogglePause();
  }
}
