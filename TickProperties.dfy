/*
 * Properties of one tick of the updater (src/diddies/Updater.java, run()),
 * stated on the value-level model in module Ticks.
 */
module TickProperties {
  import opened Motion
  import opened Bodies
  import opened Ticks

  // ---------------------------------------------------------------- absorption

  /**
   * A pair with coincident centres: the strictly heavier first body absorbs
   * the second and the second's index is marked; otherwise, ties included,
   * the second absorbs the first and the first's index is marked.  No force
   * is applied: no velocity changes.
   */
  lemma AbsorptionPair(w: World, i: nat, c1: Point, j: nat, trig: Trig)
    requires i < j < |w.bodies| && Admissible(w.bodies)
    requires c1 == Center(w.bodies[j])
    ensures var r := GravityPair(w, i, c1, j, trig);
            var p1 := w.bodies[i];
            var p2 := w.bodies[j];
            (p1.mass > p2.mass ==>
               r.bodies == w.bodies[i := Absorbed(p1, p2)] && r.marked == w.marked + [j])
            && (p1.mass <= p2.mass ==>
               r.bodies == w.bodies[j := Absorbed(p2, p1)] && r.marked == w.marked + [i])
            && (forall k :: 0 <= k < |w.bodies| ==> r.bodies[k].vel == w.bodies[k].vel)
  {
  }

  /** With equal masses the later body (index j) absorbs the earlier one. */
  lemma AbsorptionTieGoesToLater(w: World, i: nat, c1: Point, j: nat, trig: Trig)
    requires i < j < |w.bodies| && Admissible(w.bodies)
    requires c1 == Center(w.bodies[j]) && w.bodies[i].mass == w.bodies[j].mass
    ensures GravityPair(w, i, c1, j, trig).marked == w.marked + [i]
    ensures GravityPair(w, i, c1, j, trig).bodies[j].mass == 2.0 * w.bodies[j].mass
  {
  }

  /**
   * A pair whose centres differ: nothing is marked, and only the two
   * velocities change, each by the attraction added through applyForce.
   */
  lemma AttractionPair(w: World, i: nat, c1: Point, j: nat, trig: Trig)
    requires i < j < |w.bodies| && Admissible(w.bodies)
    requires c1 != Center(w.bodies[j])
    ensures var r := GravityPair(w, i, c1, j, trig);
            var a := Attraction(c1, Center(w.bodies[j]), w.bodies[i].mass, w.bodies[j].mass, trig);
            r.marked == w.marked
            && r.bodies[i] == Pushed(w.bodies[i], a.0)
            && r.bodies[j] == Pushed(w.bodies[j], a.1)
            && (forall k :: 0 <= k < |w.bodies| ==>
                  r.bodies[k].mass == w.bodies[k].mass && r.bodies[k].diameter == w.bodies[k].diameter
                  && r.bodies[k].x == w.bodies[k].x && r.bodies[k].y == w.bodies[k].y)
  {
  }

  /**
   * For equal masses, when cos and sin turn the angle plus PI into the
   * negated values and the first attraction lies in (-1, 1] on both axes
   * (so setValues stored it unchanged), the two attractions are exact
   * opposites.
   */
  lemma AttractionAntiparallel(c1: Point, c2: Point, m: real, trig: Trig)
    requires m > 0.0 && c1 != c2
    requires var angle := trig.atan2(c2.y - c1.y, c2.x - c1.x);
             trig.cos(angle + PI) == -trig.cos(angle) && trig.sin(angle + PI) == -trig.sin(angle)
    requires var a := Attraction(c1, c2, m, m, trig).0;
             -1.0 < a.x <= 1.0 && -1.0 < a.y <= 1.0
    ensures Attraction(c1, c2, m, m, trig).1 == Vec(-Attraction(c1, c2, m, m, trig).0.x, -Attraction(c1, c2, m, m, trig).0.y)
  {
    var rawForce := RawForce(c1, c2, m, m);
    var angle := trig.atan2(c2.y - c1.y, c2.x - c1.x);
    NegatedShare(rawForce, trig.cos(angle), m);
    NegatedShare(rawForce, trig.sin(angle), m);
  }

  lemma NegatedShare(f: real, c: real, m: real)
    requires m != 0.0
    ensures f * (-c) / m == -(f * c / m)
  {
    assert f * (-c) == -(f * c);
  }

  // ---------------------------------------------------------------- walls

  /**
   * Side wall: the position is pushed back inside (x = 1 past the left wall,
   * x = width - diameter - 1 past the right one, unchanged when only
   * touching), y is not touched, and a velocity in [-1, 1] has its x
   * component reflected.
   */
  lemma WallSide(b: Body, width: int, height: int)
    requires HitsSide(b, width)
    ensures var r := WallCheck(b, width, height);
            r.y == b.y
            && r.x == (if b.x < 0.0 then 1.0
                       else if b.x + b.diameter as real > width as real then (width - b.diameter - 1) as real
                       else b.x)
            && (Unit(b.vel) ==> r.vel == Vec(-b.vel.x, b.vel.y))
  {
  }

  /** Top or bottom wall, for a particle clear of the side walls: the same with the axes swapped. */
  lemma WallEnd(b: Body, width: int, height: int)
    requires !HitsSide(b, width) && HitsEnd(b, height)
    ensures var r := WallCheck(b, width, height);
            r.x == b.x
            && r.y == (if b.y < 0.0 then 1.0
                       else if b.y + b.diameter as real > height as real then (height - b.diameter - 1) as real
                       else b.y)
            && (Unit(b.vel) ==> r.vel == Vec(b.vel.x, -b.vel.y))
  {
  }

  /** The branches are exclusive: a particle at a side wall never has its y handled in that check. */
  lemma WallSideExcludesEnd(b: Body, width: int, height: int)
    requires HitsSide(b, width) && HitsEnd(b, height) && Unit(b.vel)
    ensures WallCheck(b, width, height).y == b.y
    ensures WallCheck(b, width, height).vel.y == b.vel.y
  {
  }

  /** A particle clear of every wall is left as it is. */
  lemma WallClear(b: Body, width: int, height: int)
    requires !HitsSide(b, width) && !HitsEnd(b, height)
    ensures WallCheck(b, width, height) == b
  {
  }

  /** Diameter 10 at x = -1 moving (-0.3, 0.1) in a 100-wide space: x becomes 1 and vx becomes 0.3. */
  lemma WallExample(height: int)
    ensures var r := WallCheck(Body(1.0, 10, -1.0, 50.0, Vec(-0.3, 0.1)), 100, height);
            r.x == 1.0 && r.y == 50.0 && r.vel == Vec(0.3, 0.1)
  {
    WallSide(Body(1.0, 10, -1.0, 50.0, Vec(-0.3, 0.1)), 100, height);
  }

  // ---------------------------------------------------------------- collisions

  /**
   * An intersecting pair with velocities in [-1, 1]: each body's velocity is
   * cancelled first, so each ends with 2 * m_other * v_other / (m1 + m2)
   * per axis, stored through setValues, computed from the velocities taken
   * before either body changed.
   */
  lemma CollisionExchange(bs: seq<Body>, i: nat, j: nat)
    requires i < j < |bs| && Admissible(bs)
    requires Unit(bs[i].vel) && Unit(bs[j].vel)
    ensures CollidePair(bs, i, j)[i].vel
         == RestShare(bs[i].mass, bs[j].vel, bs[j].mass)
    ensures CollidePair(bs, i, j)[j].vel
         == RestShare(bs[j].mass, bs[i].vel, bs[i].mass)
  {
    CollisionFirst(bs, i, j);
    CollisionSecond(bs, i, j);
  }

  lemma CollisionFirst(bs: seq<Body>, i: nat, j: nat)
    requires i < j < |bs| && Admissible(bs)
    requires Unit(bs[i].vel)
    ensures CollidePair(bs, i, j)[i].vel
         == RestShare(bs[i].mass, bs[j].vel, bs[j].mass)
  {
    CollisionSides(bs, i, j);
    CancelThenBounce(bs[i], bs[j].vel, bs[j].mass);
  }

  lemma CollisionSecond(bs: seq<Body>, i: nat, j: nat)
    requires i < j < |bs| && Admissible(bs)
    requires Unit(bs[j].vel)
    ensures CollidePair(bs, i, j)[j].vel
         == RestShare(bs[j].mass, bs[i].vel, bs[i].mass)
  {
    CollisionSides(bs, i, j);
    CancelThenBounce(bs[j], bs[i].vel, bs[i].mass);
  }

  /** Settled velocities are copied exactly, so each side is struck with the true velocities. */
  lemma CollisionSides(bs: seq<Body>, i: nat, j: nat)
    requires i < j < |bs| && Admissible(bs)
    ensures CollidePair(bs, i, j)[i] == Struck(bs[i], bs[i].vel, bs[j].vel, bs[j].mass)
    ensures CollidePair(bs, i, j)[j] == Struck(bs[j], bs[j].vel, bs[i].vel, bs[i].mass)
  {
    CopyExact(bs[i].vel);
    CopyExact(bs[j].vel);
  }

  /** One side of a collision: cancel the own velocity, then apply the elastic formula. */
  lemma CancelThenBounce(b: Body, other: Vec, otherMass: real)
    requires Unit(b.vel) && b.mass > 0.0 && otherMass > 0.0
    ensures Struck(b, b.vel, other, otherMass).vel
         == RestShare(b.mass, other, otherMass)
  {
    Nullify(b.vel);
    var rest := Pushed(b, OppositeOf(b.vel));
    assert rest.vel == Vec(0.0, 0.0) && rest.mass == b.mass;
    BouncedFromRest(rest, other, otherMass);
  }

  /** With equal masses the two velocities are exchanged exactly. */
  lemma CollisionSwapsEqualMasses(bs: seq<Body>, i: nat, j: nat)
    requires i < j < |bs| && Admissible(bs)
    requires Unit(bs[i].vel) && Unit(bs[j].vel) && bs[i].mass == bs[j].mass
    ensures CollidePair(bs, i, j)[i].vel == bs[j].vel
    ensures CollidePair(bs, i, j)[j].vel == bs[i].vel
  {
    CollisionSides(bs, i, j);
    StruckEqualMass(bs[i], bs[j].vel);
    StruckEqualMass(bs[j], bs[i].vel);
  }

  /** One side of an equal-mass collision: the body leaves with the other's velocity. */
  lemma StruckEqualMass(b: Body, other: Vec)
    requires Unit(b.vel) && Unit(other) && b.mass > 0.0
    ensures Struck(b, b.vel, other, b.mass).vel == other
  {
    CancelThenBounce(b, other, b.mass);
    HalfShare(b.mass, other.x);
    HalfShare(b.mass, other.y);
    UnitStoredExactly(other);
  }

  /** Head-on, equal masses: (0.5, 0) and (-0.5, 0) trade places. */
  lemma CollisionExample(a: Body, b: Body)
    requires a.mass == b.mass && a.mass > 0.0
    requires a.vel == Vec(0.5, 0.0) && b.vel == Vec(-0.5, 0.0)
    ensures CollidePair([a, b], 0, 1)[0].vel == Vec(-0.5, 0.0)
    ensures CollidePair([a, b], 0, 1)[1].vel == Vec(0.5, 0.0)
  {
    CollisionSwapsEqualMasses([a, b], 0, 1);
  }

  // ---------------------------------------------------------------- compaction

  predicate NoDuplicates(m: seq<nat>)
  {
    forall a, b :: 0 <= a < b < |m| ==> m[a] != m[b]
  }

  function Elements(m: seq<nat>): set<nat>
  {
    set t | t in m
  }

  /** The marked indices in [k, n). */
  function MarkedBetween(m: seq<nat>, k: nat, n: nat): set<nat>
  {
    set t | t in m && k <= t < n
  }

  /** A sequence has as many distinct elements as entries exactly when no entry repeats. */
  lemma {:induction false} ElementsCount(m: seq<nat>)
    ensures |Elements(m)| <= |m|
    ensures |Elements(m)| == |m| <==> NoDuplicates(m)
  {
    if m == [] {
      assert Elements(m) == {};
    } else {
      var rest := m[1..];
      ElementsCount(rest);
      assert Elements(m) == {m[0]} + Elements(rest) by {
        forall t ensures t in Elements(m) <==> t in {m[0]} + Elements(rest) {
          assert t in m <==> t == m[0] || t in rest;
        }
      }
      if m[0] in rest {
        assert Elements(m) == Elements(rest);
        var b :| 0 <= b < |rest| && rest[b] == m[0];
        assert m[0] == m[b + 1];
      } else {
        assert |Elements(m)| == |Elements(rest)| + 1;
        if NoDuplicates(rest) {
          forall a, b | 0 <= a < b < |m| ensures m[a] != m[b] {
            if a == 0 {
              assert m[b] == rest[b - 1];
            } else {
              assert m[a] == rest[a - 1] && m[b] == rest[b - 1];
            }
          }
        } else {
          var a, b :| 0 <= a < b < |rest| && rest[a] == rest[b];
          assert m[a + 1] == m[b + 1];
        }
      }
    }
  }

  /** Compaction from k keeps exactly the bodies of [k, n) whose index is not marked. */
  lemma {:induction false} CompactCount(bs: seq<Body>, m: seq<nat>, k: nat)
    requires k <= |bs|
    ensures |CompactFrom(bs, m, k)| == (|bs| - k) - |MarkedBetween(m, k, |bs|)|
    decreases |bs| - k
  {
    if k == |bs| {
      assert MarkedBetween(m, k, |bs|) == {};
    } else {
      CompactCount(bs, m, k + 1);
      if k in m {
        assert MarkedBetween(m, k, |bs|) == MarkedBetween(m, k + 1, |bs|) + {k};
      } else {
        assert MarkedBetween(m, k, |bs|) == MarkedBetween(m, k + 1, |bs|);
      }
    }
  }

  /** Compaction never keeps a body whose index is marked, and keeps every other one. */
  lemma {:induction false} CompactKeeps(bs: seq<Body>, m: seq<nat>, k: nat, t: nat)
    requires k <= t < |bs|
    ensures t !in m ==> bs[t] in CompactFrom(bs, m, k)
    ensures t in m ==> |CompactFrom(bs, m, k)| < |bs| - k
    decreases t - k
  {
    var head := if k in m then [] else [bs[k]];
    var rest := CompactFrom(bs, m, k + 1);
    assert CompactFrom(bs, m, k) == head + rest;
    if k < t {
      CompactKeeps(bs, m, k + 1, t);
      assert t !in m ==> bs[t] in rest;
    } else if t !in m {
      assert bs[t] == (head + rest)[0];
    }
  }

  /**
   * After compaction the list has shrunk by exactly the length of the removal
   * list (which is what currentSize is decremented by) if and only if no
   * index was marked twice.
   */
  lemma SizeKeptIffNoDuplicates(w: World)
    requires MarksIn(w)
    ensures |Compact(w.bodies, w.marked)| == |w.bodies| - |w.marked| <==> NoDuplicates(w.marked)
  {
    CompactCount(w.bodies, w.marked, 0);
    assert MarkedBetween(w.marked, 0, |w.bodies|) == Elements(w.marked);
    ElementsCount(w.marked);
  }

  /** Nothing marked: compaction keeps the whole list. */
  lemma {:induction false} CompactUnmarked(bs: seq<Body>, k: nat)
    requires k <= |bs|
    ensures CompactFrom(bs, [], k) == bs[k..]
    decreases |bs| - k
  {
    if k < |bs| {
      CompactUnmarked(bs, k + 1);
      assert bs[k..] == [bs[k]] + bs[k + 1..];
    }
  }

  /** With gravity off nothing is marked and the tick keeps every body. */
  lemma NoGravityNoRemoval(bs: seq<Body>, width: int, height: int, trig: Trig, overlap: Overlap)
    requires Admissible(bs)
    ensures var r := Resolve(bs, false, width, height, trig, overlap);
            r.marked == [] && Compact(r.bodies, r.marked) == r.bodies
  {
    var r := Resolve(bs, false, width, height, trig, overlap);
    CompactUnmarked(r.bodies, 0);
  }

  // ---------------------------------------------------------------- marked twice

  /**
   * Three equal bodies with one common centre: in row 0 the first body is
   * absorbed by the second and then, with its unchanged mass and the row's
   * centre, by the third, so index 0 is marked twice; in row 1 the third
   * absorbs the second.  One body survives with mass 4 from a total of 3,
   * while the removal list has three entries, so currentSize falls by 3
   * and ends below the number of particles left.
   */
  lemma MarkedTwiceExample(b: Body, width: int, height: int, trig: Trig, overlap: Overlap)
    requires b.mass == 1.0 && b.diameter == 2 && b.vel == Vec(0.0, 0.0)
    ensures var r := Resolve([b, b, b], true, width, height, trig, overlap);
            r.marked == [0, 0, 1]
            && |Compact(r.bodies, r.marked)| == 1
            && Compact(r.bodies, r.marked)[0].mass == 4.0
            && |Compact(r.bodies, r.marked)| > 3 - |r.marked|
  {
    var bs := [b, b, b];
    var moved := IntegrateFrom(bs, 0);
    assert moved == bs by {
      assert Moved(b) == b;
    }
    var pulled := GravityFrom(World(moved, []), 0, trig);
    assert pulled == World([b, b.(mass := 2.0), b.(mass := 4.0)], [0, 0, 1]) by {
      ThreeCoincident(b, trig);
    }
    var hit := CollideFrom(pulled.bodies, 0, width, height, overlap);
    assert hit[2].mass == 4.0;
    assert Resolve(bs, true, width, height, trig, overlap) == World(hit, [0, 0, 1]);
    assert CompactFrom(hit, [0, 0, 1], 3) == [];
    assert CompactFrom(hit, [0, 0, 1], 2) == [hit[2]];
    assert CompactFrom(hit, [0, 0, 1], 1) == [hit[2]];
    assert Compact(hit, [0, 0, 1]) == [hit[2]];
  }

  /** The gravity pass of the example above. */
  lemma ThreeCoincident(b: Body, trig: Trig)
    requires b.mass == 1.0 && b.diameter == 2 && b.vel == Vec(0.0, 0.0)
    ensures GravityFrom(World([b, b, b], []), 0, trig) == World([b, b.(mass := 2.0), b.(mass := 4.0)], [0, 0, 1])
  {
    var b2 := b.(mass := 2.0);
    var b4 := b.(mass := 4.0);
    var c := Center(b);
    assert Center(b2) == c;
    var w0 := World([b, b, b], []);
    var w2 := World([b, b2, b2], [0, 0]);
    var w3 := World([b, b2, b4], [0, 0, 1]);
    RowZero(b, trig);
    assert GravityRow(w0, 0, Center(w0.bodies[0]), 1, trig) == w2;
    RowOne(b, trig);
    assert GravityRow(w2, 1, Center(w2.bodies[1]), 2, trig) == w3;
    assert GravityFrom(w3, 3, trig) == w3;
    assert GravityFrom(w3, 2, trig) == w3 by {
      assert GravityRow(w3, 2, Center(w3.bodies[2]), 3, trig) == w3;
    }
    assert GravityFrom(w2, 1, trig) == GravityFrom(w3, 2, trig);
  }

  /** Row 0: the first body is absorbed twice, by the second and then by the third. */
  lemma RowZero(b: Body, trig: Trig)
    requires b.mass == 1.0 && b.diameter == 2 && b.vel == Vec(0.0, 0.0)
    ensures GravityRow(World([b, b, b], []), 0, Center(b), 1, trig) == World([b, b.(mass := 2.0), b.(mass := 2.0)], [0, 0])
  {
    var b2 := b.(mass := 2.0);
    var c := Center(b);
    var w0 := World([b, b, b], []);
    var w1 := World([b, b2, b], [0]);
    var w2 := World([b, b2, b2], [0, 0]);
    assert Absorbed(b, b) == b2;
    assert GravityPair(w0, 0, c, 1, trig) == w1;
    assert GravityPair(w1, 0, c, 2, trig) == w2;
    assert GravityRow(w2, 0, c, 3, trig) == w2;
    assert GravityRow(w1, 0, c, 2, trig) == w2;
  }

  /**
   * The centre of row i is taken once, before the row: body 0 absorbs body 1
   * and grows so that its centre now coincides with body 2's, yet the pair
   * (0, 2) is still decided with the old centre, so body 2 is attracted
   * instead of absorbed and only index 1 is marked.
   */
  lemma StaleCentre(a: Body, s: Body, t: Body, trig: Trig)
    requires a.mass == 2.0 && a.diameter == 4 && a.x == 0.0 && a.y == 0.0 && a.vel == Vec(0.0, 0.0)
    requires s.mass == 1.0 && s.diameter == 8 && s.x == -2.0 && s.y == -2.0 && s.vel == Vec(0.0, 0.0)
    requires t.mass == 1.0 && t.diameter == 2 && t.x == 2.0 && t.y == 2.0 && t.vel == Vec(0.0, 0.0)
    ensures var w0 := World([a, s, t], []);
            var r := GravityRow(w0, 0, Center(a), 1, trig);
            Center(GravityPair(w0, 0, Center(a), 1, trig).bodies[0]) == Center(t)
            && r.marked == [1] && r.bodies[0].mass == 3.0 && r.bodies[2].mass == 1.0
  {
    var w0 := World([a, s, t], []);
    var c := Center(a);
    assert c == Point(2.0, 2.0) && Center(s) == c && Center(t) == Point(3.0, 3.0);
    var big := Absorbed(a, s);
    assert big.diameter == 6 && Center(big) == Center(t);
    var w1 := World([big, s, t], [1]);
    assert GravityPair(w0, 0, c, 1, trig) == w1;
    var w2 := GravityPair(w1, 0, c, 2, trig);
    assert w2.marked == [1] && w2.bodies[0].mass == 3.0 && w2.bodies[2].mass == 1.0;
    assert GravityRow(w2, 0, c, 3, trig) == w2;
    assert GravityRow(w1, 0, c, 2, trig) == w2;
  }

  /** Row 1: the third body absorbs the second, whose centre has not moved. */
  lemma RowOne(b: Body, trig: Trig)
    requires b.mass == 1.0 && b.diameter == 2 && b.vel == Vec(0.0, 0.0)
    ensures GravityRow(World([b, b.(mass := 2.0), b.(mass := 2.0)], [0, 0]), 1, Center(b.(mass := 2.0)), 2, trig)
              == World([b, b.(mass := 2.0), b.(mass := 4.0)], [0, 0, 1])
  {
    var b2 := b.(mass := 2.0);
    var b4 := b.(mass := 4.0);
    var w2 := World([b, b2, b2], [0, 0]);
    var w3 := World([b, b2, b4], [0, 0, 1]);
    assert Absorbed(b2, b2) == b4;
    assert GravityPair(w2, 1, Center(b2), 2, trig) == w3;
    assert GravityRow(w3, 1, Center(b2), 3, trig) == w3;
  }
}
