/** The snake of main.cpp:14-107: a body of cells with the head at the
    front, a heading, and a one-shot flag that makes the next move keep
    the tail. */
module SnakeModel {
  import opened Grid

  /** The body the constructor lays out for n segments: the k-th cell
      is (n-1-k, 0), so the head is (n-1, 0) and the tail is (0, 0). */
  function InitialBody(n: nat): (r: seq<Cell>)
    ensures |r| == n
    ensures forall k :: 0 <= k < n ==> r[k] == Cell(n - 1 - k, 0)
  {
    if n == 0 then [] else [Cell(n - 1, 0)] + InitialBody(n - 1)
  }

  /** The body after one move along d: a new head one step beyond the
      old one, followed by the old body, whose last cell is dropped
      unless the snake has eaten. */
  function Advance(body: seq<Cell>, d: Direction, eaten: bool): (r: seq<Cell>)
    requires |body| >= 1
    ensures |r| == |body| + (if eaten then 1 else 0)
    ensures r[0] == Step(body[0], d)
    ensures forall i :: 1 <= i < |r| ==> r[i] == body[i - 1]
    ensures eaten ==> r[|r| - 1] == body[|body| - 1]
  {
    var pushed := [Step(body[0], d)] + body;
    if eaten then pushed else pushed[..|pushed| - 1]
  }

  /** A snake collides when its head is off the field, or when the head
      lies on one of the other cells of the body. */
  predicate Collides(body: seq<Cell>)
    requires |body| >= 1
  {
    !InGrid(body[0]) || exists i :: 1 <= i < |body| && body[i] == body[0]
  }

  /** Consecutive cells of the body share a side. */
  predicate Connected(body: seq<Cell>) {
    forall i :: 0 <= i < |body| - 1 ==> Adjacent(body[i], body[i + 1])
  }

  /** The reversal guard of setDirection (main.cpp:88-91), written as the
      source writes it; it accepts exactly the headings that are not the
      opposite of the current one. */
  function Accepts(current: Direction, dir: Direction): (ok: bool)
    ensures ok <==> dir != Opposite(current)
  {
    (dir == Up && current != Down) ||
    (dir == Down && current != Up) ||
    (dir == Left && current != Right) ||
    (dir == Right && current != Left)
  }

  /** The heading after setDirection(dir) from current. */
  function Turn(current: Direction, dir: Direction): (r: Direction)
    ensures r != Opposite(current)
    ensures r == dir <==> dir != Opposite(current)
    ensures r != dir ==> r == current
  {
    if Accepts(current, dir) then dir else current
  }

  class Snake {
    var body: seq<Cell>
    var direction: Direction
    var hasEaten: bool

    /** The invariant every snake built with a positive length keeps.
        Non-emptiness is what the source relies on; adjacency of
        consecutive cells is an extra invariant of this model, proved
        kept by every move but required by no member. */
    predicate Valid()
      reads this
    {
      |body| >= 1 && Connected(body)
    }

    /** main.cpp:32-37: push (i, 0) to the front for i = 0 .. n-1. A
        non-positive length leaves the body empty. */
    constructor (initialLength: int)
      ensures body == InitialBody(if initialLength > 0 then initialLength else 0)
      ensures direction == Right && !hasEaten
      ensures Valid() <==> initialLength >= 1
    {
      var cells: seq<Cell> := [];
      var i := 0;
      while i < initialLength
        invariant 0 <= i
        invariant initialLength >= 0 ==> i <= initialLength
        invariant initialLength < 0 ==> i == 0
        invariant cells == InitialBody(i)
      {
        cells := [Cell(i, 0)] + cells;
        i := i + 1;
      }
      body := cells;
      hasEaten := false;
      direction := Right;
      new;
      InitialBodyConnected(|cells|);
    }

    /** main.cpp:39-61. */
    method Move()
      requires |body| >= 1
      modifies this
      ensures body == Advance(old(body), old(direction), old(hasEaten))
      ensures |body| == |old(body)| + (if old(hasEaten) then 1 else 0)
      ensures body[0] == Step(old(body)[0], old(direction))
      ensures !hasEaten && direction == old(direction)
      ensures old(Valid()) ==> Valid()
    {
      ghost var before := body;
      var head := body[0];
      match direction {
        case Up => body := [Cell(head.x, head.y - 1)] + body;
        case Down => body := [Cell(head.x, head.y + 1)] + body;
        case Left => body := [Cell(head.x - 1, head.y)] + body;
        case Right => body := [Cell(head.x + 1, head.y)] + body;
      }

      if hasEaten {
        hasEaten := false;
      } else {
        body := body[..|body| - 1];
      }
      if Connected(before) {
        AdvanceConnected(before, direction, old(hasEaten));
      }
    }

    /** main.cpp:63-65: the growth shows only in the next move. */
    method Grow()
      modifies this
      ensures hasEaten
      ensures body == old(body) && direction == old(direction)
    {
      hasEaten := true;
    }

    /** main.cpp:71-85: bounds first, then a scan of body[1..] for the
        head. Changes nothing. */
    method CheckCollision() returns (hit: bool)
      requires |body| >= 1
      ensures hit == Collides(body)
    {
      var head := body[0];
      if head.x < 0 || head.x >= GridSize || head.y < 0 || head.y >= GridSize {
        return true;
      }
      var i := 1;
      while i < |body|
        invariant 1 <= i <= |body|
        invariant forall j :: 1 <= j < i ==> body[j] != head
      {
        if body[i] == head {
          return true;
        }
        i := i + 1;
      }
      return false;
    }

    /** main.cpp:87-94. */
    method SetDirection(dir: Direction)
      modifies this
      ensures direction == Turn(old(direction), dir)
      ensures body == old(body) && hasEaten == old(hasEaten)
    {
      if Accepts(direction, dir) {
        direction := dir;
      }
    }

    /** main.cpp:105-107. */
    method GetHeadPosition() returns (head: Cell)
      requires |body| >= 1
      ensures head == body[0]
    {
      head := body[0];
    }
  }

  /** The constructor's layout is a connected horizontal line. */
  lemma InitialBodyConnected(n: nat)
    ensures Connected(InitialBody(n))
  {
  }

  /** Moving keeps the body connected: the new head touches the old one
      and the rest is the old body, shifted by one. */
  lemma AdvanceConnected(body: seq<Cell>, d: Direction, eaten: bool)
    requires |body| >= 1 && Connected(body)
    ensures Connected(Advance(body, d, eaten))
  {
  }

  /** The layout of a snake that fits the field lies inside it and does
      not touch itself, so a fresh snake never starts in collision. */
  lemma InitialBodySafe(n: nat)
    requires 1 <= n <= GridSize
    ensures forall k :: 0 <= k < n ==> InGrid(InitialBody(n)[k])
    ensures !Collides(InitialBody(n))
  {
  }

  /** Stepping back the way the head came puts the new head on the old
      neck. With a tail that stays behind (three cells or more, or a
      meal) that is a self-collision; a two-cell snake that has not eaten
      merely swaps its two cells. */
  lemma ReversalHitsNeck(body: seq<Cell>, d: Direction, eaten: bool)
    requires |body| >= 2 && body[0] == Step(body[1], Opposite(d))
    ensures Advance(body, d, eaten)[0] == body[1]
    ensures |body| >= 3 || eaten ==> Collides(Advance(body, d, eaten))
    ensures |body| == 2 && !eaten ==> Advance(body, d, eaten) == [body[1], body[0]]
  {
    OppositeInvolutive(d);
    StepBack(body[1], Opposite(d), d);
    var r := Advance(body, d, eaten);
    if |body| >= 3 || eaten {
      assert r[2] == body[1];
    }
  }

  /** Any heading other than the reverse of the last step keeps the new
      head off the neck. */
  lemma ForwardMissesNeck(body: seq<Cell>, last: Direction, d: Direction, eaten: bool)
    requires |body| >= 2 && body[0] == Step(body[1], last)
    requires d != Opposite(last)
    ensures Advance(body, d, eaten)[0] != body[1]
  {
    StepBack(body[1], last, d);
  }

  /** The guard compares against the current heading only, so two turns
      between moves (Up, then Left, while moving Right) reverse the
      snake, and the next move of a fresh three-cell snake collides. */
  lemma TwoTurnsReverse()
    ensures Turn(Turn(Right, Up), Left) == Opposite(Right)
    ensures Collides(Advance(InitialBody(3), Turn(Turn(Right, Up), Left), false))
  {
    ReversalHitsNeck(InitialBody(3), Left, false);
  }

  /** The moves of a fresh three-cell snake: a plain move shifts it one
      cell right and keeps it clear; after a grow the tail stays. */
  lemma FirstMoves()
    ensures Advance(InitialBody(3), Right, false) == [Cell(3, 0), Cell(2, 0), Cell(1, 0)]
    ensures !Collides(Advance(InitialBody(3), Right, false))
    ensures Advance(InitialBody(3), Right, true) == [Cell(3, 0), Cell(2, 0), Cell(1, 0), Cell(0, 0)]
  {
  }

  /** A head on the last column that moves right leaves the field. */
  lemma RightWallCollision(body: seq<Cell>, eaten: bool)
    requires |body| >= 1 && body[0] == Cell(19, 10)
    ensures Advance(body, Right, eaten)[0] == Cell(20, 10)
    ensures Collides(Advance(body, Right, eaten))
  {
  }
}
