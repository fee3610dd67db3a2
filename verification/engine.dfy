/** One movement of the snake: the candidate head, the wall and self-collision
    checks against the body before the move, then growth or shift. */
module Engine {
  import opened GameConfig
  import opened Board

  datatype Collision = WallCollision | SelfCollision

  datatype MoveResult =
    | Moved(snake: seq<Pos>, ate: bool)
    | Collided(cause: Collision)

  /** The body of the `setSnake` updater in `moveSnake`. The wall check runs
      first. The self-collision check scans every current segment, the tail
      included, before the tail is dropped. */
  function Move(snake: seq<Pos>, dir: Direction, food: Pos): (r: MoveResult)
    requires |snake| > 0
    ensures r.Moved? <==> InBounds(Advance(snake[0], dir)) && Advance(snake[0], dir) !in snake
    ensures r.Moved? ==> (r.ate <==> Advance(snake[0], dir) == food)
    ensures r.Moved? ==> |r.snake| == |snake| + (if r.ate then 1 else 0)
    ensures r.Moved? ==> r.snake[0] == Advance(snake[0], dir) && r.snake[1..] <= snake
  {
    var head := Advance(snake[0], dir);
    if !InBounds(head) then Collided(WallCollision)
    else if Occupies(snake, head) then Collided(SelfCollision)
    else if head == food then Moved([head] + snake, true)
    else Moved([head] + snake[..|snake| - 1], false)
  }

  /** The cause reported is the wall whenever the head leaves the board, and
      the body only when the head stays on the board and lands on a segment. */
  lemma MoveCollisionCause(snake: seq<Pos>, dir: Direction, food: Pos)
    requires |snake| > 0
    ensures Move(snake, dir, food) == Collided(WallCollision) <==> !InBounds(Advance(snake[0], dir))
    ensures Move(snake, dir, food) == Collided(SelfCollision) <==>
      InBounds(Advance(snake[0], dir)) && Advance(snake[0], dir) in snake
  {
  }

  /** Moving into the cell the tail is about to leave is a collision: the
      check sees the body before the tail is dropped. */
  lemma MoveIntoTailCollides(snake: seq<Pos>, dir: Direction, food: Pos)
    requires |snake| >= 2
    requires InBounds(Advance(snake[0], dir)) && Advance(snake[0], dir) == snake[|snake| - 1]
    ensures Move(snake, dir, food) == Collided(SelfCollision)
  {
    MoveCollisionCause(snake, dir, food);
  }

  /** The new snake: the new head in front of the old body, which keeps its
      tail when food was eaten and loses it otherwise. */
  lemma MoveShape(snake: seq<Pos>, dir: Direction, food: Pos)
    requires |snake| > 0
    requires Move(snake, dir, food).Moved?
    ensures var r := Move(snake, dir, food);
      r.snake == [Advance(snake[0], dir)] + (if r.ate then snake else snake[..|snake| - 1])
  {
  }

  /** A move keeps the segments distinct and on the board. */
  lemma {:induction false} MovePreservesBody(snake: seq<Pos>, dir: Direction, food: Pos)
    requires |snake| > 0 && Distinct(snake) && AllInBounds(snake)
    requires Move(snake, dir, food).Moved?
    ensures Distinct(Move(snake, dir, food).snake)
    ensures AllInBounds(Move(snake, dir, food).snake)
  {
    var head := Advance(snake[0], dir);
    var r := Move(snake, dir, food);
    var body := if r.ate then snake else snake[..|snake| - 1];
    assert r.snake == [head] + body;
    assert forall k :: 0 <= k < |body| ==> body[k] == snake[k];
    forall i, j | 0 <= i < j < |r.snake|
      ensures r.snake[i] != r.snake[j]
    {
      if i == 0 {
        assert r.snake[j] == snake[j - 1];
      } else {
        assert r.snake[i] == snake[i - 1] && r.snake[j] == snake[j - 1];
      }
    }
  }
}
