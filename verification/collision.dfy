/** `Object2D` edges and the axis-aligned overlap test. Positions are modelled
    as non-negative integers, so `left()` and `top()` are the coordinates
    themselves; velocity and acceleration only feed the motion update and are
    kept as plain pairs of reals. */
module Collision {
  import opened Ints

  datatype Point = Point(x: nat, y: nat)

  datatype Vector2D = Vector2D(x: real, y: real)

  /** The stored fields; the accessors `position()` ... `width()` are the
      datatype's destructors. */
  datatype Object2D = Object2D(
    position: Point,
    velocity: Vector2D,
    acceleration: Vector2D,
    height: Uint32,
    width: Uint32)

  function Left(o: Object2D): nat {
    o.position.x
  }

  function Top(o: Object2D): nat {
    o.position.y
  }

  /** The right edge lies `width` past the left one. */
  function Right(o: Object2D): (r: nat)
    ensures r - Left(o) == o.width
    ensures Left(o) <= r
  {
    o.position.x + o.width
  }

  /** The bottom edge lies `height` below the top one. */
  function Bottom(o: Object2D): (r: nat)
    ensures r - Top(o) == o.height
    ensures Top(o) <= r
  {
    o.position.y + o.height
  }

  /** `areColliding`: four early exits, one per separating edge. */
  predicate AreColliding(a: Object2D, b: Object2D) {
    if Left(a) >= Right(b) then false
    else if Right(a) <= Left(b) then false
    else if Top(a) >= Bottom(b) then false
    else if Bottom(a) <= Top(b) then false
    else true
  }

  /** Two half-open intervals [lo1, hi1) and [lo2, hi2) overlap strictly. */
  predicate Overlap(lo1: int, hi1: int, lo2: int, hi2: int) {
    lo1 < hi2 && lo2 < hi1
  }

  /** Colliding means overlapping strictly on both axes; in particular either
      separating test on an axis rules a collision out. */
  lemma AreCollidingIffOverlap(a: Object2D, b: Object2D)
    ensures AreColliding(a, b) <==>
              Overlap(Left(a), Right(a), Left(b), Right(b)) && Overlap(Top(a), Bottom(a), Top(b), Bottom(b))
    ensures Left(a) >= Right(b) || Right(a) <= Left(b) ==> !AreColliding(a, b)
    ensures Top(a) >= Bottom(b) || Bottom(a) <= Top(b) ==> !AreColliding(a, b)
  {
  }

  lemma AreCollidingSymmetric(a: Object2D, b: Object2D)
    ensures AreColliding(a, b) == AreColliding(b, a)
  {
  }

  /** An object collides with itself exactly when it has positive width and height. */
  lemma SelfCollision(a: Object2D)
    ensures AreColliding(a, a) <==> a.width > 0 && a.height > 0
  {
  }

  /** The integer point (x, y) lies inside the object's box. */
  predicate Covers(o: Object2D, x: int, y: int) {
    Left(o) <= x < Right(o) && Top(o) <= y < Bottom(o)
  }

  /** For objects of positive size the test is the geometric one: the two
      boxes share a point. */
  lemma AreCollidingIffSharedPoint(a: Object2D, b: Object2D)
    requires a.width > 0 && a.height > 0 && b.width > 0 && b.height > 0
    ensures AreColliding(a, b) <==> exists x, y :: Covers(a, x, y) && Covers(b, x, y)
  {
    if AreColliding(a, b) {
      var x := Max(Left(a), Left(b));
      var y := Max(Top(a), Top(b));
      assert Covers(a, x, y) && Covers(b, x, y);
    }
  }

  /** `Object2D::isColliding`: whether this object collides with some element of
      the list, scanning from the front. */
  function IsColliding(o: Object2D, objects: seq<Object2D>): (r: bool)
    ensures r <==> exists k :: 0 <= k < |objects| && AreColliding(o, objects[k])
    ensures objects == [] ==> !r
  {
    if objects == [] then false
    else if AreColliding(o, objects[0]) then true
    else IsColliding(o, objects[1..])
  }
}
