/** One simulation tick of the game loop while a game is being played
    (main.cpp:339-349): move, test for a collision, then, whatever that
    test said, test whether the head reached the food. The 0.1 s clock
    gate around it is not modelled; a call of Tick is one tick. */
module GameLoop {
  import opened Grid
  import opened SnakeModel
  import opened FoodModel

  /** r1 and r2 are the two rand() draws respawn would take; they are
      used only when the snake eats. gameOver is the value the tick
      assigns to the game-over flag of the loop. */
  method Tick(snake: Snake, food: Food, r1: nat, r2: nat) returns (gameOver: bool)
    requires |snake.body| >= 1
    modifies snake, food
    ensures snake.body == Advance(old(snake.body), old(snake.direction), old(snake.hasEaten))
    ensures snake.direction == old(snake.direction)
    ensures old(snake.Valid()) ==> snake.Valid()
    ensures gameOver == Collides(snake.body)
    ensures snake.hasEaten <==> snake.body[0] == old(food.position)
    ensures food.position == if snake.body[0] == old(food.position) then SpawnCell(r1, r2) else old(food.position)
  {
    snake.Move();
    gameOver := snake.CheckCollision();
    var head := snake.GetHeadPosition();
    var meal := food.GetPosition();
    if head == meal {
      snake.Grow();
      food.Respawn(r1, r2);
    }
  }

  /** The meal test does not sit in an else of the collision test: food
      may lie on the body, and then one tick both ends the game and
      eats. Here a five-cell snake turns up into its own fourth cell,
      where the food was spawned by the draws (1, 1). */
  lemma CollisionAndMealInOneTick()
    ensures var body := [Cell(1, 2), Cell(2, 2), Cell(2, 1), Cell(1, 1), Cell(0, 1)];
      Connected(body) && !Collides(body) &&
      Collides(Advance(body, Up, false)) &&
      Advance(body, Up, false)[0] == SpawnCell(1, 1)
  {
    var body := [Cell(1, 2), Cell(2, 2), Cell(2, 1), Cell(1, 1), Cell(0, 1)];
    assert Advance(body, Up, false)[4] == Cell(1, 1);
  }
}
