/** The Ball record of physics/include/ball.hpp. */
module Balls {
  import opened Vectors

  /** A ball's position, its position before the last integration, and its velocity. */
  datatype Ball = Ball(pos: Vec2, posPrev: Vec2, vel: Vec2)

  /** Ball(pos, vel): the previous position starts at the position. */
  function NewBall(pos: Vec2, vel: Vec2): (b: Ball)
    ensures b.pos == pos && b.vel == vel && b.posPrev == b.pos
  {
    Ball(pos, pos, vel)
  }

  /** Ball(): the three vectors default to (0, 0). */
  function DefaultBall(): (b: Ball)
    ensures b.pos == Zero && b.posPrev == Zero && b.vel == Zero
  {
    Ball(Zero, Zero, Zero)
  }

  /** A ball is one that Ball(pos, vel) builds exactly when its previous position is its position. */
  lemma NewBallCharacterised(b: Ball)
    ensures b == NewBall(b.pos, b.vel) <==> b.posPrev == b.pos
  {
  }
}
