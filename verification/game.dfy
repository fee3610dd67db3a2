/** The game session: one state record updated atomically by each event, i.e.
    the Start button, a movement tick, a key press or a one-second clock tick. */
module Game {
  import opened GameConfig
  import opened Tiers
  import opened Board
  import opened Engine
  import opened Options

  datatype Status = Ready | Playing | Paused | GameOver

  datatype GameState = GameState(
    snake: seq<Pos>,      // head first
    food: Pos,
    direction: Direction,
    status: Status,
    score: nat,
    time: nat,            // elapsed seconds
    reward: real          // the reward shown; the entry fee while a game runs
  )

  /** The state before the first game: the initial values of the React state hooks. */
  const Initial: GameState := GameState([Pos(10, 10)], Pos(15, 15), Right, Ready, 0, 0, 0.0)

  /** What every reachable state satisfies. */
  predicate Inv(s: GameState) {
    && |s.snake| >= 1
    && Distinct(s.snake)
    && AllInBounds(s.snake)
    && InBounds(s.food)
    && s.score % FoodPoints == 0
    && |s.snake| == 1 + s.score / FoodPoints
    && (s.status == Ready ==> s.score == 0 && s.time == 0 && s.reward == 0.0)
    && (s.status == Playing || s.status == Paused ==> s.reward == EntryFee)
    && (s.status == GameOver ==> s.reward == Reward(s.score))
  }

  lemma InitialInv()
    ensures Inv(Initial)
  {
  }

  /** `startGame`: a fresh one-segment snake heading right, score and time
      zero, the entry fee shown as the reward, and food from two random draws.
      Nothing of the previous state survives except through the draws. */
  function StartGame(s: GameState, rx: Unit, ry: Unit): (r: GameState)
    ensures r.snake == [Pos(10, 10)] && r.direction == Right && r.status == Playing
    ensures r.score == 0 && r.time == 0 && r.reward == EntryFee
    ensures r.food == GenerateFood(rx, ry)
    ensures Inv(r)
  {
    GameState([Pos(10, 10)], GenerateFood(rx, ry), Right, Playing, 0, 0, EntryFee)
  }

  /** `gameOver`: the game ends and the reward is computed from the score;
      the board is left as it is. */
  function EndGame(s: GameState): (r: GameState)
    ensures r.status == GameOver && r.reward == Reward(s.score)
    ensures r.snake == s.snake && r.food == s.food && r.score == s.score
    ensures r.direction == s.direction && r.time == s.time
  {
    s.(status := GameOver, reward := Reward(s.score))
  }

  /** `moveSnake`: one movement tick. The draws are used only when food is
      eaten and a new food cell is generated. */
  function Step(s: GameState, rx: Unit, ry: Unit): (r: GameState)
    requires |s.snake| > 0
    ensures s.status != Playing ==> r == s
    ensures r.direction == s.direction && r.time == s.time
    ensures r.score == s.score || r.score == s.score + FoodPoints
    ensures |r.snake| == |s.snake| + (r.score - s.score) / FoodPoints
    ensures s.status == Playing ==> r.status == Playing || r.status == GameOver
    ensures r.status == Playing ==> r.reward == s.reward
    ensures r.status == GameOver && s.status == Playing ==>
      r.snake == s.snake && r.score == s.score && r.reward == Reward(s.score)
  {
    if s.status != Playing then s
    else
      match Move(s.snake, s.direction, s.food)
      case Collided(_) => EndGame(s)
      case Moved(body, ate) =>
        if ate then s.(snake := body, score := s.score + FoodPoints, food := GenerateFood(rx, ry))
        else s.(snake := body)
  }

  /** The head cell the next tick moves to. */
  function NextHead(s: GameState): Pos
    requires |s.snake| > 0
  {
    Advance(s.snake[0], s.direction)
  }

  /** A head leaving the board, or landing on any current segment (the tail
      about to move away included), ends the game with the snake unchanged. */
  lemma StepCollides(s: GameState, rx: Unit, ry: Unit)
    requires |s.snake| > 0 && s.status == Playing
    requires !InBounds(NextHead(s)) || NextHead(s) in s.snake
    ensures Step(s, rx, ry) == EndGame(s)
    ensures Step(s, rx, ry).snake == s.snake && Step(s, rx, ry).status == GameOver
  {
  }

  /** Landing on food: the head is added in front of the whole old body, the
      score goes up by a flat 10 and new food appears somewhere on the board. */
  lemma StepEats(s: GameState, rx: Unit, ry: Unit)
    requires |s.snake| > 0 && s.status == Playing
    requires InBounds(NextHead(s)) && NextHead(s) !in s.snake && NextHead(s) == s.food
    ensures var r := Step(s, rx, ry);
      && r.snake == [NextHead(s)] + s.snake
      && r.score == s.score + 10
      && r.food == GenerateFood(rx, ry) && InBounds(r.food)
      && r.status == Playing && r.reward == s.reward
  {
  }

  /** Any other move: the head is added and the tail dropped; length, score
      and food stay as they were. */
  lemma StepShifts(s: GameState, rx: Unit, ry: Unit)
    requires |s.snake| > 0 && s.status == Playing
    requires InBounds(NextHead(s)) && NextHead(s) !in s.snake && NextHead(s) != s.food
    ensures var r := Step(s, rx, ry);
      && r.snake == [NextHead(s)] + s.snake[..|s.snake| - 1]
      && |r.snake| == |s.snake| && r.score == s.score && r.food == s.food
      && r.status == Playing && r.reward == s.reward
  {
  }

  datatype Key = ArrowUp | ArrowDown | ArrowLeft | ArrowRight | Space | OtherKey

  /** The heading an arrow key asks for; `None` for any other key. */
  function Heading(k: Key): Option<Direction> {
    match k
    case ArrowUp => Some(Up)
    case ArrowDown => Some(Down)
    case ArrowLeft => Some(Left)
    case ArrowRight => Some(Right)
    case _ => None
  }

  /** `handleKeyDown`. Arrow keys change the heading in every status, unless
      the new heading is the reverse of the current one. Space swaps PLAYING
      and PAUSED and leaves any other status as it is. */
  function KeyPress(s: GameState, k: Key): (r: GameState)
    ensures r.direction != Opposite(s.direction)
    ensures r.snake == s.snake && r.food == s.food && r.score == s.score
    ensures r.time == s.time && r.reward == s.reward
    ensures k != Space ==> r.status == s.status
    ensures k == Space ==> r.direction == s.direction
    ensures k == OtherKey ==> r == s
  {
    match k
    case ArrowUp => if s.direction != Down then s.(direction := Up) else s
    case ArrowDown => if s.direction != Up then s.(direction := Down) else s
    case ArrowLeft => if s.direction != Right then s.(direction := Left) else s
    case ArrowRight => if s.direction != Left then s.(direction := Right) else s
    case Space =>
      s.(status := if s.status == Playing then Paused else if s.status == Paused then Playing else s.status)
    case OtherKey => s
  }

  /** An arrow key takes effect exactly when it does not ask for the reverse heading. */
  lemma ArrowKeyTurns(s: GameState, k: Key)
    requires Heading(k).Some?
    ensures KeyPress(s, k).direction == Heading(k).value <==> Heading(k).value != Opposite(s.direction)
    ensures KeyPress(s, k).direction != Heading(k).value ==> KeyPress(s, k) == s
  {
  }

  /** Space maps PLAYING to PAUSED and back, and pressing it twice restores the state. */
  lemma SpaceToggles(s: GameState)
    ensures s.status == Playing <==> KeyPress(s, Space).status == Paused
    ensures s.status == Paused <==> KeyPress(s, Space).status == Playing
    ensures s.status == Ready || s.status == GameOver ==> KeyPress(s, Space) == s
    ensures KeyPress(KeyPress(s, Space), Space) == s
  {
  }

  /** The reversal guard compares with the heading last set, not the heading of
      the last move: Up then Left within one tick turns any right-moving snake
      around, and when its neck lies just left of its head, as after any move to
      the right, the next tick runs it into its own neck and ends the game. */
  lemma TwoKeysWithinOneTickReverse(s: GameState, rx: Unit, ry: Unit)
    requires s.direction == Right
    ensures KeyPress(KeyPress(s, ArrowUp), ArrowLeft).direction == Opposite(s.direction)
    ensures s.status == Playing && |s.snake| >= 2 && s.snake[1] == Advance(s.snake[0], Left) ==>
      Step(KeyPress(KeyPress(s, ArrowUp), ArrowLeft), rx, ry).status == GameOver
  {
    var t := KeyPress(KeyPress(s, ArrowUp), ArrowLeft);
    if s.status == Playing && |s.snake| >= 2 && s.snake[1] == Advance(s.snake[0], Left) {
      assert NextHead(t) == s.snake[1];
      StepCollides(t, rx, ry);
    }
  }

  /** The one-second timer: started by `startGame` and cleared only by
      `gameOver`, so it keeps counting while the game is paused. */
  function ClockTick(s: GameState): (r: GameState)
    ensures r == s.(time := r.time)
    ensures r.time == s.time + 1 <==> s.status == Playing || s.status == Paused
    ensures r.time == s.time || r.time == s.time + 1
  {
    if s.status == Playing || s.status == Paused then s.(time := s.time + 1) else s
  }

  /** `getStatusClass`: the CSS class of the status badge. */
  function StatusClass(st: Status): (c: string)
    ensures |c| > 7 && c[..7] == "status-"
  {
    match st
    case Playing => "status-playing"
    case Paused => "status-paused"
    case GameOver => "status-gameover"
    case Ready => "status-ready"
  }

  /** Distinct statuses get distinct badge classes. */
  lemma StatusClassInjective(a: Status, b: Status)
    ensures StatusClass(a) == StatusClass(b) <==> a == b
  {
    if a != b {
      assert StatusClass(a)[7] != StatusClass(b)[7] || StatusClass(a)[8] != StatusClass(b)[8];
    }
  }

  /** What can happen to the game between two observations. */
  datatype Event =
    | StartButton(rx: Unit, ry: Unit)   // "Start Game" / "Play Again"
    | Tick(rx: Unit, ry: Unit)          // the movement interval fires
    | KeyDown(key: Key)
    | Second                            // the one-second interval fires

  /** The Start button is shown only when the game is READY or over. */
  function Apply(s: GameState, e: Event): (r: GameState)
    requires Inv(s)
    ensures Inv(r)
  {
    match e
    case StartButton(rx, ry) =>
      if s.status == Ready || s.status == GameOver then StartGame(s, rx, ry) else s
    case Tick(rx, ry) => StepPreservesInv(s, rx, ry); Step(s, rx, ry)
    case KeyDown(k) => KeyPress(s, k)
    case Second => ClockTick(s)
  }

  lemma StepPreservesInv(s: GameState, rx: Unit, ry: Unit)
    requires Inv(s)
    ensures Inv(Step(s, rx, ry))
  {
    if s.status == Playing {
      var m := Move(s.snake, s.direction, s.food);
      if m.Moved? {
        MovePreservesBody(s.snake, s.direction, s.food);
      }
    }
  }

  /** Events applied in order. */
  function Run(s: GameState, events: seq<Event>): (r: GameState)
    requires Inv(s)
    ensures Inv(r)
    decreases |events|
  {
    if |events| == 0 then s else Run(Apply(s, events[0]), events[1..])
  }

  /** In every state reachable from the initial one, the segments are distinct
      and on the board, the food is on the board, and the snake is one segment
      longer than the number of foods eaten. */
  lemma ReachableStates(events: seq<Event>)
    ensures var r := Run(Initial, events);
      && Distinct(r.snake) && AllInBounds(r.snake) && InBounds(r.food)
      && |r.snake| == 1 + r.score / 10 && r.score % 10 == 0
      && (r.status == GameOver ==> r.reward == Reward(r.score))
  {
    InitialInv();
  }

  /** Ticks do nothing to a paused game, however many of them fire. */
  lemma {:induction false} PausedIgnoresTicks(s: GameState, events: seq<Event>)
    requires Inv(s) && s.status == Paused
    requires forall i :: 0 <= i < |events| ==> events[i].Tick?
    ensures Run(s, events) == s
    decreases |events|
  {
    if |events| > 0 {
      assert Apply(s, events[0]) == s;
      PausedIgnoresTicks(s, events[1..]);
    }
  }

  /** From the start position heading right with food just ahead, one tick
      grows the snake to two segments and scores 10. */
  lemma ScenarioFirstFood(rx: Unit, ry: Unit)
    ensures var s := GameState([Pos(10, 10)], Pos(11, 10), Right, Playing, 0, 0, EntryFee);
      var r := Step(s, rx, ry);
      r.snake == [Pos(11, 10), Pos(10, 10)] && r.score == 10 && r.status == Playing
  {
    var s := GameState([Pos(10, 10)], Pos(11, 10), Right, Playing, 0, 0, EntryFee);
    StepEats(s, rx, ry);
  }

  /** A snake at the left edge heading left hits the wall: the game ends and
      the snake stays where it was. */
  lemma ScenarioLeftWall(rx: Unit, ry: Unit)
    ensures var s := GameState([Pos(0, 0), Pos(1, 0)], Pos(15, 15), Left, Playing, 10, 7, EntryFee);
      var r := Step(s, rx, ry);
      r.status == GameOver && r.snake == s.snake && r.reward == 0.0
  {
    var s := GameState([Pos(0, 0), Pos(1, 0)], Pos(15, 15), Left, Playing, 10, 7, EntryFee);
    StepCollides(s, rx, ry);
  }

  /** Starting a game discards everything of the game before it. */
  lemma StartGameForgets(s1: GameState, s2: GameState, rx: Unit, ry: Unit)
    ensures StartGame(s1, rx, ry) == StartGame(s2, rx, ry)
  {
  }
}
