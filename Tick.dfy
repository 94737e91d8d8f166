/*
 * The value-level meaning of one tick of the updater
 * (src/diddies/Updater.java, run()).  Every loop of run() is a recursive
 * function over the loop index that does the work still left from that
 * index on, so the imperative loops in module Simulation can keep the
 * invariant "what is left, applied to the current state, gives the
 * specified end state".
 *
 * A tick is, in this order: momentum integration of every body; when
 * gravity is on, for every pair i < j either absorption (coincident
 * centres) or mutual attraction; for every i, its wall check followed by
 * its collisions with every j > i; and finally compaction of the marked
 * bodies.  Marked bodies stay in the list, and keep interacting, until
 * compaction.
 */
module Ticks {
  import opened Motion
  import opened Bodies

  /** The double value of Math.PI. */
  const PI: real := 3.141592653589793

  /** Math.atan2, Math.cos and Math.sin, which are not part of this model. */
  datatype Trig = Trig(atan2: (real, real) -> real, cos: real -> real, sin: real -> real)

  /**
   * The list of bodies during a tick, and the indices added to the removal
   * list so far, in the order they were added (an index may occur twice).
   */
  datatype World = World(bodies: seq<Body>, marked: seq<nat>)

  /** What every body in the updater satisfies: positive mass, velocity written through setValues. */
  predicate Fit(b: Body)
  {
    b.mass > 0.0 && Settled(b.vel)
  }

  predicate Admissible(bs: seq<Body>)
  {
    forall k :: 0 <= k < |bs| ==> Fit(bs[k])
  }

  predicate MarksIn(w: World)
  {
    forall k :: 0 <= k < |w.marked| ==> w.marked[k] < |w.bodies|
  }

  // ---------------------------------------------------------------- integration

  /** The integration loop from index i on: every body from i moves by its velocity. */
  function IntegrateFrom(bs: seq<Body>, i: nat): (r: seq<Body>)
    requires i <= |bs|
    ensures |r| == |bs|
    ensures forall k :: 0 <= k < i ==> r[k] == bs[k]
    ensures forall k :: i <= k < |bs| ==> r[k] == Moved(bs[k])
    decreases |bs| - i
  {
    if i == |bs| then bs else IntegrateFrom(bs[i := Moved(bs[i])], i + 1)
  }

  // ---------------------------------------------------------------- gravity

  /** Point2D.distanceSq. */
  function DistanceSq(a: Point, b: Point): (d: real)
    ensures d >= 0.0
    ensures d == 0.0 <==> a == b
  {
    Square(b.x - a.x) + Square(b.y - a.y)
  }

  function Square(r: real): (s: real)
    ensures s >= 0.0
    ensures s == 0.0 <==> r == 0.0
  {
    var s := r * r;
    if r != 0.0 then ProductPositive(r, r, s); s else s
  }

  lemma ProductPositive(a: real, b: real, p: real)
    requires p == a * b && ((a > 0.0 && b > 0.0) || (a < 0.0 && b < 0.0))
    ensures p > 0.0
  {
    if a < 0.0 {
      assert (-a) * (-b) == a * b;
      assert (-a) * (-b) > 0.0;
    }
  }

  /**
   * The two attraction velocities of a non-coincident pair: for the first
   * body along the angle from c1 to c2, for the second along that angle
   * plus PI, each scaled by G * m1 * m2 / distanceSq and divided by the
   * receiving body's mass, and stored through setValues.
   */
  function Attraction(c1: Point, c2: Point, m1: real, m2: real, trig: Trig): (r: (Vec, Vec))
    requires m1 > 0.0 && m2 > 0.0 && c1 != c2
    ensures Settled(r.0) && Settled(r.1)
  {
    var rawForce := RawForce(c1, c2, m1, m2);
    var angle := Angle(c1, c2, trig);
    (Toward(rawForce, angle, m1, trig), Toward(rawForce, angle + PI, m2, trig))
  }

  /** G * m1 * m2 / d^2 for the centres c1 and c2, where G is GRAVITATIONAL_CONSTANT = 5e-3. */
  function RawForce(c1: Point, c2: Point, m1: real, m2: real): real
    requires c1 != c2
  {
    (0.005 * m1 * m2) / DistanceSq(c1, c2)
  }

  /** The angle of the line from c1 to c2, as atan2(dy, dx). */
  function Angle(c1: Point, c2: Point, trig: Trig): real
  {
    trig.atan2(c2.y - c1.y, c2.x - c1.x)
  }

  /** A force split along the angle theta and divided by the receiving mass, stored through setValues. */
  function Toward(force: real, theta: real, mass: real, trig: Trig): (v: Vec)
    requires mass != 0.0
    ensures Settled(v)
  {
    Clamped(force * trig.cos(theta) / mass, force * trig.sin(theta) / mass)
  }

  /** One iteration of the inner gravity loop; c1 is the centre taken at the start of row i. */
  function GravityPair(w: World, i: nat, c1: Point, j: nat, trig: Trig): (r: World)
    requires i < j < |w.bodies| && Admissible(w.bodies)
    ensures |r.bodies| == |w.bodies| && Admissible(r.bodies)
    ensures forall k :: 0 <= k < |w.bodies| && k != i && k != j ==> r.bodies[k] == w.bodies[k]
    ensures r.marked == w.marked || r.marked == w.marked + [i] || r.marked == w.marked + [j]
  {
    var p1 := w.bodies[i];
    var p2 := w.bodies[j];
    if c1 == Center(p2) then
      if p1.mass > p2.mass then
        World(w.bodies[i := Absorbed(p1, p2)], w.marked + [j])
      else
        World(w.bodies[j := Absorbed(p2, p1)], w.marked + [i])
    else
      var attraction := Attraction(c1, Center(p2), p1.mass, p2.mass, trig);
      World(w.bodies[i := Pushed(p1, attraction.0)][j := Pushed(p2, attraction.1)], w.marked)
  }

  /** The inner gravity loop of row i from j on, with the row's stale centre c1. */
  function GravityRow(w: World, i: nat, c1: Point, j: nat, trig: Trig): (r: World)
    requires i < j <= |w.bodies| && Admissible(w.bodies)
    ensures |r.bodies| == |w.bodies| && Admissible(r.bodies)
    ensures w.marked <= r.marked
    ensures forall k :: |w.marked| <= k < |r.marked| ==> i <= r.marked[k] < |w.bodies|
    decreases |w.bodies| - j
  {
    if j == |w.bodies| then w
    else GravityRow(GravityPair(w, i, c1, j, trig), i, c1, j + 1, trig)
  }

  /** The outer gravity loop from row i on; each row takes its centre once, at its start. */
  function GravityFrom(w: World, i: nat, trig: Trig): (r: World)
    requires i <= |w.bodies| && Admissible(w.bodies)
    ensures |r.bodies| == |w.bodies| && Admissible(r.bodies)
    ensures w.marked <= r.marked
    ensures forall k :: |w.marked| <= k < |r.marked| ==> i <= r.marked[k] < |w.bodies|
    decreases |w.bodies| - i
  {
    if i == |w.bodies| then w
    else GravityFrom(GravityRow(w, i, Center(w.bodies[i]), i + 1, trig), i + 1, trig)
  }

  // ---------------------------------------------------------------- walls and collisions

  /** Whether the particle touches or crosses the left or right wall. */
  predicate HitsSide(b: Body, width: int)
  {
    b.x <= 0.0 || b.x + b.diameter as real >= width as real
  }

  /** Whether the particle touches or crosses the top or bottom wall. */
  predicate HitsEnd(b: Body, height: int)
  {
    b.y <= 0.0 || b.y + b.diameter as real >= height as real
  }

  /**
   * The wall check of one particle.  The opposite and the copy of the
   * velocity are taken first; the side walls are checked first, and only a
   * particle that does not touch them has its top and bottom checked.
   */
  function WallCheck(b: Body, width: int, height: int): (r: Body)
    ensures r.mass == b.mass && r.diameter == b.diameter
    ensures Fit(b) ==> Fit(r)
  {
    var opposite := OppositeOf(b.vel);
    var change := Copy(b.vel);
    if HitsSide(b, width) then
      var fixed :=
        if b.x < 0.0 then Located(b, 1.0, b.y)
        else if b.x + b.diameter as real > width as real then Located(b, (width - b.diameter - 1) as real, b.y)
        else b;
      Pushed(Pushed(fixed, opposite), Vec(-change.x, change.y))
    else if HitsEnd(b, height) then
      var fixed :=
        if b.y < 0.0 then Located(b, b.x, 1.0)
        else if b.y + b.diameter as real > height as real then Located(b, b.x, (height - b.diameter - 1) as real)
        else b;
      Pushed(Pushed(fixed, opposite), Vec(change.x, -change.y))
    else
      b
  }

  /**
   * The collision response of an intersecting pair: both pre-collision
   * velocities are copied, then each body cancels its own velocity and
   * applies the elastic formula with the other's copy and mass.
   */
  function CollidePair(bs: seq<Body>, i: nat, j: nat): (r: seq<Body>)
    requires i < j < |bs| && Admissible(bs)
    ensures |r| == |bs| && Admissible(r)
    ensures forall k :: 0 <= k < |bs| && k != i && k != j ==> r[k] == bs[k]
    ensures forall k :: 0 <= k < |bs| ==>
      r[k].mass == bs[k].mass && r[k].diameter == bs[k].diameter && r[k].x == bs[k].x && r[k].y == bs[k].y
  {
    var v1 := Copy(bs[i].vel);
    var v2 := Copy(bs[j].vel);
    bs[i := Struck(bs[i], v1, v2, bs[j].mass)][j := Struck(bs[j], v2, v1, bs[i].mass)]
  }

  /**
   * One side of a collision: apply the opposite of the copy own of the
   * body's velocity, then the elastic formula with the other body's copy.
   */
  function Struck(b: Body, own: Vec, other: Vec, otherMass: real): (r: Body)
    requires b.mass + otherMass != 0.0
    ensures r.mass == b.mass && r.diameter == b.diameter && r.x == b.x && r.y == b.y
    ensures Settled(r.vel)
  {
    Bounced(Pushed(b, OppositeOf(own)), other, otherMass)
  }

  /** The inner collision loop of row i from j on. */
  function CollisionRow(bs: seq<Body>, i: nat, j: nat, overlap: Overlap): (r: seq<Body>)
    requires i < j <= |bs| && Admissible(bs)
    ensures |r| == |bs| && Admissible(r)
    ensures forall k :: 0 <= k < |bs| ==>
      r[k].mass == bs[k].mass && r[k].diameter == bs[k].diameter && r[k].x == bs[k].x && r[k].y == bs[k].y
    decreases |bs| - j
  {
    if j == |bs| then bs
    else
      var next := if Overlaps(overlap, bs[i], bs[j]) then CollidePair(bs, i, j) else bs;
      CollisionRow(next, i, j + 1, overlap)
  }

  /** The combined loop from row i on: the wall check of i, then i's collisions with every later j. */
  function CollideFrom(bs: seq<Body>, i: nat, width: int, height: int, overlap: Overlap): (r: seq<Body>)
    requires i <= |bs| && Admissible(bs)
    ensures |r| == |bs| && Admissible(r)
    ensures forall k :: 0 <= k < |bs| ==> r[k].mass == bs[k].mass && r[k].diameter == bs[k].diameter
    decreases |bs| - i
  {
    if i == |bs| then bs
    else CollideFrom(CollisionRow(bs[i := WallCheck(bs[i], width, height)], i, i + 1, overlap), i + 1, width, height, overlap)
  }

  // ---------------------------------------------------------------- the whole tick

  /** The state of a tick just before compaction. */
  function Resolve(bs: seq<Body>, gravity: bool, width: int, height: int, trig: Trig, overlap: Overlap): (r: World)
    requires Admissible(bs)
    ensures |r.bodies| == |bs| && Admissible(r.bodies) && MarksIn(r)
    ensures !gravity ==> r.marked == []
  {
    var moved := IntegrateFrom(bs, 0);
    var pulled := if gravity then GravityFrom(World(moved, []), 0, trig) else World(moved, []);
    World(CollideFrom(pulled.bodies, 0, width, height, overlap), pulled.marked)
  }

  /** removeAll from index k on: the bodies whose index was never marked, in order. */
  function CompactFrom(bs: seq<Body>, marked: seq<nat>, k: nat): (r: seq<Body>)
    requires k <= |bs|
    ensures |r| <= |bs| - k
    ensures forall b :: b in r ==> b in bs[k..]
    decreases |bs| - k
  {
    if k == |bs| then []
    else (if k in marked then [] else [bs[k]]) + CompactFrom(bs, marked, k + 1)
  }

  function Compact(bs: seq<Body>, marked: seq<nat>): (r: seq<Body>)
  {
    CompactFrom(bs, marked, 0)
  }
}
