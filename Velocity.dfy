/*
 * The per-tick displacement of a particle (src/diddies/Velocity.java).
 *
 * Every write through setValues passes each component through two
 * assignments: the first caps it at 1, the second raises it to -1, and the
 * second one starts again from the ORIGINAL argument.  The stored value is
 * therefore max(c, -1); the upper bound of 1 that the class documents is
 * never enforced.  The model keeps that behaviour.
 */
module Motion {

  /** The value of a Velocity object: its two components. */
  datatype Vec = Vec(x: real, y: real)

  /** The value one component holds after a write through setValues. */
  function Stored(c: real): (r: real)
    ensures r >= -1.0 && r >= c
    ensures r == c || r == -1.0
  {
    if c < -1.0 then -1.0 else c
  }

  /** What `new Velocity(x, y)` and `setValues(x, y)` store. */
  function Clamped(x: real, y: real): Vec
  {
    Vec(Stored(x), Stored(y))
  }

  /** The value `applyVelocity(w)` gives a velocity whose value was v. */
  function Sum(v: Vec, w: Vec): Vec
  {
    Clamped(v.x + w.x, v.y + w.y)
  }

  /** The value of `Velocity.duplicate(v)`: a fresh object built from v's fields. */
  function Copy(v: Vec): Vec
  {
    Clamped(v.x, v.y)
  }

  /** The value of `v.getOpposite()`: both components multiplied by -1, then stored. */
  function OppositeOf(v: Vec): Vec
  {
    Clamped(-1.0 * v.x, -1.0 * v.y)
  }

  /** The lower bound that every write through setValues establishes. */
  predicate Settled(v: Vec)
  {
    v.x >= -1.0 && v.y >= -1.0
  }

  /** Both components inside the documented range [-1, 1]. */
  predicate Unit(v: Vec)
  {
    -1.0 <= v.x <= 1.0 && -1.0 <= v.y <= 1.0
  }

  class Velocity {
    var x: real
    var y: real

    function Value(): Vec
      reads this
    {
      Vec(x, y)
    }

    constructor (x0: real, y0: real)
      ensures Value() == Clamped(x0, y0)
      ensures Settled(Value())
    {
      new;
      SetValues(x0, y0);
    }

    /** Adds v's components to this one's, then stores the sums as setValues does. */
    method ApplyVelocity(v: Velocity)
      modifies this
      ensures Value() == Clamped(old(x) + old(v.x), old(y) + old(v.y))
      ensures Value() == Sum(old(Value()), old(v.Value()))
    {
      SetValues(x + v.x, y + v.y);
    }

    /** A fresh object with v's components, re-stored through setValues. */
    static method Duplicate(v: Velocity) returns (r: Velocity)
      ensures fresh(r)
      ensures r.Value() == Copy(v.Value())
      ensures Settled(v.Value()) ==> r.Value() == v.Value()
    {
      r := new Velocity(v.x, v.y);
    }

    /** A fresh object with both components negated, re-stored through setValues. */
    method GetOpposite() returns (r: Velocity)
      ensures fresh(r)
      ensures r.Value() == OppositeOf(Value())
      ensures Unit(Value()) ==> r.Value() == Vec(-x, -y)
    {
      r := new Velocity(-1.0 * x, -1.0 * y);
    }

    /** The four writes of setValues, the later write of each axis overwriting the earlier. */
    method SetValues(x0: real, y0: real)
      modifies this
      ensures x == (if x0 < -1.0 then -1.0 else x0)
      ensures y == (if y0 < -1.0 then -1.0 else y0)
      ensures x0 > 1.0 ==> x == x0
      ensures y0 > 1.0 ==> y == y0
      ensures Value() == Clamped(x0, y0)
    {
      SetX(if x0 > 1.0 then 1.0 else x0);
      SetX(if x0 < -1.0 then -1.0 else x0);
      SetY(if y0 > 1.0 then 1.0 else y0);
      SetY(if y0 < -1.0 then -1.0 else y0);
    }

    /** Writes the x component as given, with no clamping. */
    method SetX(x0: real)
      modifies this
      ensures x == x0 && y == old(y)
    {
      x := x0;
    }

    /** Writes the y component as given, with no clamping. */
    method SetY(y0: real)
      modifies this
      ensures y == y0 && x == old(x)
    {
      y := y0;
    }
  }

  /** A component above 1 is stored unchanged: the documented upper bound is not an invariant. */
  lemma UpperBoundNotEnforced(c: real)
    requires c > 1.0
    ensures Stored(c) == c
    ensures !Unit(Clamped(c, 0.0))
  {
  }

  /** A component already in [-1, 1] is stored exactly. */
  lemma UnitStoredExactly(v: Vec)
    requires Unit(v)
    ensures Clamped(v.x, v.y) == v
  {
  }

  /** A write through setValues is idempotent. */
  lemma StoredIdempotent(c: real)
    ensures Stored(Stored(c)) == Stored(c)
  {
  }

  /** Duplicating a settled velocity gives back its components exactly. */
  lemma CopyExact(v: Vec)
    requires Settled(v)
    ensures Copy(v) == v
  {
  }

  /** Inside [-1, 1] the opposite is the exact negation. */
  lemma OppositeExact(v: Vec)
    requires Unit(v)
    ensures OppositeOf(v) == Vec(-v.x, -v.y)
  {
  }

  /**
   * Applying a velocity's own opposite to it cancels it when both components
   * are in [-1, 1]; outside that range the opposite is cut at -1 and the
   * cancellation is incomplete.
   */
  lemma Nullify(v: Vec)
    requires Unit(v)
    ensures Sum(v, OppositeOf(v)) == Vec(0.0, 0.0)
  {
  }

  /** An example where cancellation fails: x = 3 leaves 2 behind. */
  lemma NullifyIncompleteAboveOne()
    ensures Sum(Vec(3.0, 0.0), OppositeOf(Vec(3.0, 0.0))) == Vec(2.0, 0.0)
  {
  }
}
