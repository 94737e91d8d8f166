/*
 * A circular body (src/diddies/Particle.java): mass, integer diameter,
 * position (the corner of its bounding box, not its centre) and an owned
 * Velocity object.
 *
 * Java's `int / int` truncates toward zero; `Quot` models it, so the
 * centre offset `diameter / 2` and the absorption growth `diameter / 4`
 * are whole numbers.  In absorb the quotient is taken before Math.ceil
 * sees it, so the ceiling changes nothing: the growth is the floor of a
 * quarter of the absorbed diameter.
 */
module Bodies {
  import opened Motion

  /** A point in the plane (java.awt.geom.Point2D.Double). */
  datatype Point = Point(x: real, y: real)

  /** The value of a Particle object. */
  datatype Body = Body(mass: real, diameter: int, x: real, y: real, vel: Vec)

  /**
   * The geometric tests of java.awt.geom.Area on Ellipse2D, which are not
   * part of this model: each gets the bounding-box corner and diameter of
   * the body or bodies it tests.
   */
  type Region = (real, real, int, int, int) -> bool
  type Overlap = (real, real, int, real, real, int) -> bool

  /** Java's integer division of a by a positive b: truncation toward zero. */
  function Quot(a: int, b: int): (q: int)
    requires b > 0
    ensures a >= 0 ==> 0 <= q * b <= a < q * b + b
    ensures a < 0 ==> q * b - b < a <= q * b <= 0
  {
    if a >= 0 then
      DivisionBounds(a, b);
      a / b
    else
      DivisionBounds(-a, b);
      NegatedProduct((-a) / b, b);
      -((-a) / b)
  }

  /** Euclidean division of a non-negative n by a positive b leaves a remainder below b. */
  lemma DivisionBounds(n: int, b: int)
    requires n >= 0 && b > 0
    ensures 0 <= (n / b) * b <= n < (n / b) * b + b
  {
    var q, r := n / b, n % b;
    assert n == b * q + r && 0 <= r < b;
    assert q * b == b * q;
    NegativeMultiple(b, q);
  }

  /** A negative multiple of a positive b is at most -b. */
  lemma NegativeMultiple(b: int, q: int)
    requires b > 0
    ensures q < 0 ==> b * q <= -b
  {
  }

  lemma NegatedProduct(q: int, b: int)
    ensures (-q) * b == -(q * b)
  {
  }

  /** `this.absorb(other)`: masses add, the diameter grows by a quarter of the other's. */
  function Absorbed(b: Body, other: Body): Body
  {
    b.(mass := b.mass + other.mass, diameter := b.diameter + Quot(other.diameter, 4))
  }

  /** `applyForce(v)`: plain addition through Velocity.applyVelocity. */
  function Pushed(b: Body, v: Vec): Body
  {
    b.(vel := Clamped(b.vel.x + v.x, b.vel.y + v.y))
  }

  /**
   * `applyForce(force, sourceMass)`: the one-dimensional elastic formula per
   * axis, stored in a fresh Velocity and then added to the current velocity.
   */
  function Bounced(b: Body, force: Vec, sourceMass: real): Body
    requires b.mass + sourceMass != 0.0
  {
    var newX := Elastic(b.vel.x, b.mass, force.x, sourceMass);
    var newY := Elastic(b.vel.y, b.mass, force.y, sourceMass);
    var share := Clamped(newX, newY);
    b.(vel := Clamped(b.vel.x + share.x, b.vel.y + share.y))
  }

  /** The one-dimensional elastic-collision formula for one axis. */
  function Elastic(v: real, mass: real, otherV: real, otherMass: real): real
    requires mass + otherMass != 0.0
  {
    (v * (mass - otherMass) + 2.0 * otherMass * otherV) / (mass + otherMass)
  }

  /** `applyMomentum()`: the position moves by the velocity. */
  function Moved(b: Body): Body
  {
    b.(x := b.x + b.vel.x, y := b.y + b.vel.y)
  }

  /** `getCenterMass()`: the corner offset on both axes by the integer half-diameter. */
  function Center(b: Body): Point
  {
    var radius := Quot(b.diameter, 2) as real;
    Point(b.x + radius, b.y + radius)
  }

  /** `setLocation(x, y)`. */
  function Located(b: Body, x: real, y: real): Body
  {
    b.(x := x, y := y)
  }

  /** `a.intersects(b)`, decided by the area test on the two circles. */
  function Overlaps(overlap: Overlap, a: Body, b: Body): bool
  {
    overlap(a.x, a.y, a.diameter, b.x, b.y, b.diameter)
  }

  class Particle {
    var diameter: int
    var x: real
    var y: real
    const velocity: Velocity
    var mass: real

    function Value(): Body
      reads this, velocity
    {
      Body(mass, diameter, x, y, velocity.Value())
    }

    /** A particle at rest whose diameter is twice the given radius. */
    constructor (px: real, py: real, mass0: real, radius: int)
      ensures fresh(velocity)
      ensures mass == mass0 && diameter == 2 * radius
      ensures x == px && y == py
      ensures velocity.Value() == Vec(0.0, 0.0)
    {
      x, y := px, py;
      mass := mass0;
      velocity := new Velocity(0.0, 0.0);
      diameter := radius * 2;
    }

    /** Takes all of p's mass and a quarter (rounded down) of its diameter; p is not changed. */
    method Absorb(p: Particle)
      modifies this
      ensures mass == old(mass) + old(p.mass)
      ensures diameter == old(diameter) + Quot(old(p.diameter), 4)
      ensures x == old(x) && y == old(y)
      ensures Value() == Absorbed(old(Value()), old(p.Value()))
    {
      mass := mass + p.mass;
      diameter := diameter + Quot(p.diameter, 4);
    }

    /** Adds v to the velocity; position, mass and diameter stay as they were. */
    method ApplyForce(v: Velocity)
      modifies velocity
      ensures Value() == Pushed(old(Value()), old(v.Value()))
    {
      velocity.ApplyVelocity(v);
    }

    /** The elastic-collision update against a body of velocity force and mass sourceMass. */
    method ApplyElasticForce(force: Velocity, sourceMass: real)
      requires mass + sourceMass != 0.0
      modifies velocity
      ensures Value() == Bounced(old(Value()), old(force.Value()), sourceMass)
    {
      var newX := Elastic(velocity.x, mass, force.x, sourceMass);
      var newY := Elastic(velocity.y, mass, force.y, sourceMass);
      var kick := new Velocity(newX, newY);
      velocity.ApplyVelocity(kick);
    }

    /** Moves the position by the velocity; the velocity is not changed. */
    method ApplyMomentum()
      modifies this
      ensures x == old(x) + velocity.x && y == old(y) + velocity.y
      ensures Value() == Moved(old(Value()))
    {
      x, y := x + velocity.x, y + velocity.y;
    }

    /** The centre of mass, computed afresh from the current position and diameter. */
    function GetCenterMass(): (c: Point)
      reads this
      ensures c == Center(Body(mass, diameter, x, y, Vec(0.0, 0.0)))
    {
      var radius := Quot(diameter, 2) as real;
      Point(x + radius, y + radius)
    }

    /** Moves the particle to (px, py) and changes nothing else. */
    method SetLocation(px: real, py: real)
      modifies this
      ensures x == px && y == py
      ensures Value() == Located(old(Value()), px, py)
    {
      x, y := px, py;
    }

    /** `contains(p)`: whether the point lies in the particle's disc. */
    function Contains(region: Region, px: int, py: int): bool
      reads this
    {
      region(x, y, diameter, px, py)
    }

    /** `intersects(p)`: whether the two discs share any area. */
    function Intersects(overlap: Overlap, p: Particle): bool
      reads this, p
    {
      overlap(x, y, diameter, p.x, p.y, p.diameter)
    }
  }

  /** For a non-negative diameter the growth on absorption is the floor of a quarter. */
  lemma AbsorbGrowth(b: Body, other: Body)
    requires other.diameter >= 0
    ensures Absorbed(b, other).mass == b.mass + other.mass
    ensures Absorbed(b, other).diameter == b.diameter + other.diameter / 4
    ensures b.diameter <= Absorbed(b, other).diameter
    ensures Absorbed(b, other).vel == b.vel && Absorbed(b, other).x == b.x && Absorbed(b, other).y == b.y
  {
  }

  /** Math.ceil sees an integer already: a diameter of 6 adds 1, not 2. */
  lemma AbsorbRoundsDown(b: Body, other: Body)
    requires other.diameter == 6
    ensures Absorbed(b, other).diameter == b.diameter + 1
  {
  }

  /** Momentum integration: position += velocity, velocity kept. */
  lemma MovedByVelocity(b: Body)
    ensures Moved(b).x == b.x + b.vel.x && Moved(b).y == b.y + b.vel.y
    ensures Moved(b).vel == b.vel && Moved(b).mass == b.mass && Moved(b).diameter == b.diameter
  {
  }

  /** For a non-negative diameter the centre is the corner plus the floor of half the diameter. */
  lemma CenterOffset(b: Body)
    requires b.diameter >= 0
    ensures Center(b) == Point(b.x + (b.diameter / 2) as real, b.y + (b.diameter / 2) as real)
  {
  }

  /**
   * A body at rest hit with the elastic formula by a body of positive total
   * mass takes 2 * sourceMass * force / (mass + sourceMass) per axis, as
   * setValues stores it.
   */
  lemma BouncedFromRest(b: Body, force: Vec, sourceMass: real)
    requires b.vel == Vec(0.0, 0.0) && b.mass + sourceMass > 0.0
    ensures Bounced(b, force, sourceMass).vel == RestShare(b.mass, force, sourceMass)
    ensures Bounced(b, force, sourceMass).mass == b.mass
    ensures Bounced(b, force, sourceMass).x == b.x && Bounced(b, force, sourceMass).y == b.y
  {
    var newX := Elastic(b.vel.x, b.mass, force.x, sourceMass);
    var newY := Elastic(b.vel.y, b.mass, force.y, sourceMass);
    ElasticFromRest(b.mass, force.x, sourceMass);
    ElasticFromRest(b.mass, force.y, sourceMass);
    var share := Clamped(newX, newY);
    assert share == RestShare(b.mass, force, sourceMass);
    assert Bounced(b, force, sourceMass).vel == Clamped(share.x, share.y);
  }

  /**
   * What a body of the given mass at rest takes from an elastic collision
   * with force and sourceMass: 2 * sourceMass * force / (mass + sourceMass)
   * per axis, as setValues stores it.
   */
  function RestShare(mass: real, force: Vec, sourceMass: real): Vec
    requires mass + sourceMass != 0.0
  {
    Clamped(2.0 * sourceMass * force.x / (mass + sourceMass), 2.0 * sourceMass * force.y / (mass + sourceMass))
  }

  /** From rest the self term of the elastic formula vanishes. */
  lemma ElasticFromRest(mass: real, otherV: real, otherMass: real)
    requires mass + otherMass > 0.0
    ensures Elastic(0.0, mass, otherV, otherMass) == 2.0 * otherMass * otherV / (mass + otherMass)
  {
    assert 0.0 * (mass - otherMass) == 0.0;
  }

  /** With equal masses a body at rest takes over the incoming velocity exactly. */
  lemma BouncedEqualMassAtRest(b: Body, force: Vec)
    requires b.vel == Vec(0.0, 0.0) && b.mass > 0.0 && Unit(force)
    ensures Bounced(b, force, b.mass).vel == force
  {
    var m := b.mass;
    assert Elastic(0.0, m, force.x, m) == force.x by {
      ElasticFromRest(m, force.x, m);
      HalfShare(m, force.x);
    }
    assert Elastic(0.0, m, force.y, m) == force.y by {
      ElasticFromRest(m, force.y, m);
      HalfShare(m, force.y);
    }
  }

  /** Equal masses share the exchange evenly: 2 m v / (m + m) = v. */
  lemma HalfShare(m: real, v: real)
    requires m > 0.0
    ensures 2.0 * m * v / (m + m) == v
  {
    assert 2.0 * m * v == v * (m + m);
  }
}
