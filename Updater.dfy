/*
 * The timer task that owns the particles (src/diddies/Updater.java).
 *
 * The class keeps the list of particles, the removal list filled during a
 * tick, the gravity switch and the size counter.  run() is split into one
 * method per loop of the source; each loop is proved against the
 * recursive function of module Ticks that does the same work from the
 * loop index on, so the whole tick ends in the state that Ticks.Resolve
 * and Ticks.Compact describe.
 *
 * The removal list holds particle references, as in the source; the ghost
 * field `marked` records the list index each entry was taken from.
 */
module Simulation {
  import opened Motion
  import opened Bodies
  import opened Ticks

  /** The capacity that isFull() compares against. */
  const MAX_SIZE: int := 10

  /** No particle occurs twice, and no two particles share a Velocity object. */
  predicate Distinct(ps: seq<Particle>)
  {
    forall a, b :: 0 <= a < |ps| && 0 <= b < |ps| && a != b ==> ps[a] != ps[b] && ps[a].velocity != ps[b].velocity
  }

  /** The values of a list of particles, in order. */
  function ValuesOf(ps: seq<Particle>): (bs: seq<Body>)
    reads set p | p in ps, set p | p in ps :: p.velocity
    ensures |bs| == |ps|
    ensures forall k :: 0 <= k < |ps| ==> bs[k] == ps[k].Value()
  {
    if ps == [] then [] else [ps[0].Value()] + ValuesOf(ps[1..])
  }

  /** `List.removeAll(rm)` applied to ps[k..]: the particles not in rm, in their order. */
  function Without(ps: seq<Particle>, rm: seq<Particle>, k: nat): (r: seq<Particle>)
    requires k <= |ps|
    ensures forall t :: 0 <= t < |r| ==> r[t] in ps[k..] && r[t] !in rm
    ensures forall t :: k <= t < |ps| && ps[t] !in rm ==> ps[t] in r
    ensures |r| <= |ps| - k
    decreases |ps| - k
  {
    if k == |ps| then []
    else (if ps[k] in rm then [] else [ps[k]]) + Without(ps, rm, k + 1)
  }

  /** Entry k of the removal list rm is the particle at index m[k] of ps. */
  ghost predicate MarksOf(ps: seq<Particle>, rm: seq<Particle>, m: seq<nat>)
  {
    |rm| == |m| && forall k :: 0 <= k < |m| ==> m[k] < |ps| && rm[k] == ps[m[k]]
  }

  class Updater {
    var enableGravity: bool
    var particles: seq<Particle>
    var remove: seq<Particle>
    var currentSize: int
    /** The index in `particles` that each entry of `remove` was taken from. */
    ghost var marked: seq<nat>

    /** The particles and their velocity objects: everything a tick may change. */
    ghost function Repr(): (r: set<object>)
      reads this`particles
      ensures forall k :: 0 <= k < |particles| ==> particles[k] in r && particles[k].velocity in r
      ensures this !in r
    {
      assert forall k :: 0 <= k < |particles| ==> particles[k] in particles;
      (set p | p in particles :: p as object) + (set p | p in particles :: p.velocity as object)
    }

    function Bodies(): seq<Body>
      reads this`particles, set p | p in particles, set p | p in particles :: p.velocity
    {
      ValuesOf(particles)
    }

    /** `remove` and `marked` agree entry by entry. */
    ghost predicate Marks()
      reads this
    {
      MarksOf(particles, remove, marked)
    }

    /** The state between ticks. */
    ghost predicate Valid()
      reads this, Repr()
    {
      Distinct(particles) && Admissible(Bodies()) && remove == [] && marked == []
    }

    /** An empty updater with gravity on. */
    constructor ()
      ensures Valid()
      ensures particles == [] && currentSize == 0 && enableGravity
    {
      enableGravity := true;
      particles := [];
      remove := [];
      currentSize := 0;
      marked := [];
    }

    /** Appends p and counts it; p must be a particle of its own (a new one, as the caller creates). */
    method AddParticle(p: Particle)
      requires Valid()
      requires forall k :: 0 <= k < |particles| ==> particles[k] != p && particles[k].velocity != p.velocity
      requires Fit(p.Value())
      modifies this
      ensures Valid()
      ensures particles == old(particles) + [p] && currentSize == old(currentSize) + 1
      ensures Bodies() == old(Bodies()) + [p.Value()]
      ensures enableGravity == old(enableGravity)
    {
      particles := particles + [p];
      currentSize := currentSize + 1;
    }

    /** Whether some particle's disc contains the point (px, py). */
    method ContainedInParticles(region: Region, px: int, py: int) returns (found: bool)
      ensures found <==> exists k :: 0 <= k < |particles| && particles[k].Contains(region, px, py)
    {
      var k := 0;
      while k < |particles|
        invariant 0 <= k <= |particles|
        invariant forall t :: 0 <= t < k ==> !particles[t].Contains(region, px, py)
      {
        if particles[k].Contains(region, px, py) {
          return true;
        }
        k := k + 1;
      }
      return false;
    }

    /** Whether the counter has reached the capacity. */
    function IsFull(): (full: bool)
      reads this
      ensures full <==> currentSize >= MAX_SIZE
    {
      currentSize >= MAX_SIZE
    }

    method ToggleGravity()
      modifies this
      ensures enableGravity == !old(enableGravity)
      ensures particles == old(particles) && remove == old(remove) && currentSize == old(currentSize)
      ensures marked == old(marked)
    {
      enableGravity := !enableGravity;
    }

    function UsingGravity(): (on: bool)
      reads this
      ensures on <==> enableGravity
    {
      enableGravity
    }

    /**
     * One tick: momentum, gravity when enabled, walls and collisions, then
     * removal of every absorbed particle.  The counter drops by the number
     * of removal entries, which exceeds the number of particles removed
     * when one particle was absorbed twice.
     */
    method Run(width: int, height: int, trig: Trig, overlap: Overlap)
      requires Valid()
      modifies this, Repr()
      ensures Valid()
      ensures var r := Resolve(old(Bodies()), old(enableGravity), width, height, trig, overlap);
              Bodies() == Compact(r.bodies, r.marked)
              && currentSize == old(currentSize) - |r.marked|
              && (forall k :: 0 <= k < |old(particles)| ==> (old(particles)[k] in particles <==> k !in r.marked))
      ensures forall p :: p in particles ==> p in old(particles)
      ensures enableGravity == old(enableGravity)
    {
      Interact(width, height, trig, overlap);
      RemoveMarked();
    }

    /** The three loops of run() before the removal: momentum, gravity when enabled, walls and collisions. */
    method Interact(width: int, height: int, trig: Trig, overlap: Overlap)
      requires Valid()
      modifies this, Repr()
      ensures particles == old(particles) && enableGravity == old(enableGravity) && currentSize == old(currentSize)
      ensures Distinct(particles) && Marks() && Admissible(Bodies())
      ensures World(Bodies(), marked) == Resolve(old(Bodies()), enableGravity, width, height, trig, overlap)
    {
      IntegrationPass();
      ghost var moved := Bodies();
      if enableGravity {
        GravityPass(trig);
      }
      assert World(Bodies(), marked) == (if enableGravity then GravityFrom(World(moved, []), 0, trig) else World(moved, []));
      WallAndCollisionPass(width, height, overlap);
    }

    /** The end of run(): removeAll on the removal list, the counter lowered by its length, the list cleared. */
    method RemoveMarked()
      requires Distinct(particles) && Admissible(Bodies()) && Marks()
      modifies this
      ensures Valid()
      ensures Bodies() == Compact(old(Bodies()), old(marked))
      ensures currentSize == old(currentSize) - |old(marked)|
      ensures forall k :: 0 <= k < |old(particles)| ==> (old(particles)[k] in particles <==> k !in old(marked))
      ensures forall p :: p in particles ==> p in old(particles)
      ensures enableGravity == old(enableGravity)
    {
      ghost var before := particles;
      ghost var values := Bodies();
      ghost var removed := remove;
      ghost var m := marked;
      particles := Without(particles, remove, 0);
      currentSize := currentSize - |remove|;
      remove := [];
      marked := [];
      assert ValuesOf(before) == values;
      RemovalMatchesCompaction(before, removed, m, 0);
      RemovalKeepsDistinct(before, removed, 0);
      CompactAdmissible(values, m, 0);
      RemovalKeepsUnmarked(before, removed, m);
    }

    /** The first loop of run(): every particle moves by its velocity. */
    method IntegrationPass()
      requires Distinct(particles) && Admissible(Bodies())
      modifies Repr()
      ensures Bodies() == IntegrateFrom(old(Bodies()), 0)
      ensures Admissible(Bodies())
    {
      var i := 0;
      while i < |particles|
        invariant 0 <= i <= |particles|
        invariant Admissible(Bodies())
        invariant IntegrateFrom(Bodies(), i) == IntegrateFrom(old(Bodies()), 0)
      {
        MomentumStep(i);
        i := i + 1;
      }
    }

    /** The body of the first loop: particle i applies its momentum. */
    method MomentumStep(i: nat)
      requires i < |particles| && Distinct(particles) && Admissible(Bodies())
      modifies particles[i]
      ensures particles[i].Value() == Moved(old(particles[i].Value()))
      ensures Bodies() == old(Bodies())[i := particles[i].Value()]
      ensures IntegrateFrom(Bodies(), i + 1) == IntegrateFrom(old(Bodies()), i)
      ensures Admissible(Bodies())
    {
      particles[i].ApplyMomentum();
    }

    /** The gravity loop of run(): every row i, with its centre taken once at the row's start. */
    method GravityPass(trig: Trig)
      requires Distinct(particles) && Admissible(Bodies()) && Marks()
      modifies this`remove, this`marked, Repr()
      ensures Marks() && Admissible(Bodies())
      ensures World(Bodies(), marked) == GravityFrom(World(old(Bodies()), old(marked)), 0, trig)
    {
      var i := 0;
      while i < |particles|
        invariant 0 <= i <= |particles|
        invariant Marks() && Admissible(Bodies())
        invariant GravityFrom(World(Bodies(), marked), i, trig) == GravityFrom(World(old(Bodies()), old(marked)), 0, trig)
      {
        var c1 := particles[i].GetCenterMass();
        GravityRowPass(i, c1, trig);
        i := i + 1;
      }
    }

    /** The inner gravity loop of row i: absorption of coincident pairs, attraction of the others. */
    method GravityRowPass(i: nat, c1: Point, trig: Trig)
      requires i < |particles| && Distinct(particles) && Admissible(Bodies()) && Marks()
      requires c1 == Center(Bodies()[i])
      modifies this`remove, this`marked, Repr()
      ensures Marks() && Admissible(Bodies())
      ensures World(Bodies(), marked) == GravityRow(World(old(Bodies()), old(marked)), i, c1, i + 1, trig)
    {
      ghost var goal := GravityRow(World(Bodies(), marked), i, c1, i + 1, trig);
      var j := i + 1;
      while j < |particles|
        invariant i < j <= |particles|
        invariant Marks() && Admissible(Bodies())
        invariant GravityRow(World(Bodies(), marked), i, c1, j, trig) == goal
      {
        j := GravityRowStep(i, c1, j, trig, goal);
      }
    }

    /** One pass of the inner gravity loop: what is left of the row still leads to goal. */
    method GravityRowStep(i: nat, c1: Point, j: nat, trig: Trig, ghost goal: World) returns (next: nat)
      requires i < j < |particles| && Distinct(particles) && Admissible(Bodies()) && Marks()
      requires GravityRow(World(Bodies(), marked), i, c1, j, trig) == goal
      modifies this`remove, this`marked, particles[i], particles[j], particles[i].velocity, particles[j].velocity
      ensures next == j + 1
      ensures Marks() && Admissible(Bodies())
      ensures GravityRow(World(Bodies(), marked), i, c1, next, trig) == goal
    {
      ghost var cur := World(Bodies(), marked);
      GravityStep(i, c1, j, trig);
      next := j + 1;
      RowAdvance(cur, World(Bodies(), marked), i, c1, j, next, trig, goal);
    }

    /** The body of the inner gravity loop for the pair (i, j). */
    method GravityStep(i: nat, c1: Point, j: nat, trig: Trig)
      requires i < j < |particles| && Distinct(particles) && Admissible(Bodies()) && Marks()
      modifies this`remove, this`marked, particles[i], particles[j], particles[i].velocity, particles[j].velocity
      ensures Marks()
      ensures World(Bodies(), marked) == GravityPair(World(old(Bodies()), old(marked)), i, c1, j, trig)
    {
      ghost var before := World(Bodies(), marked);
      var c2 := particles[j].GetCenterMass();
      assert c2 == Center(before.bodies[j]);
      if c1 == c2 {
        MergeStep(i, j);
      } else {
        AttractStep(i, c1, j, c2, trig);
      }
    }

    /** A coincident pair: the heavier particle absorbs the other, which goes on the removal list; on equal masses j absorbs i. */
    method MergeStep(i: nat, j: nat)
      requires i < j < |particles| && Distinct(particles) && Marks()
      modifies this`remove, this`marked, particles[i], particles[j]
      ensures Marks()
      ensures old(Bodies())[i].mass > old(Bodies())[j].mass ==>
        Bodies() == old(Bodies())[i := Absorbed(old(Bodies())[i], old(Bodies())[j])] && marked == old(marked) + [j]
      ensures old(Bodies())[i].mass <= old(Bodies())[j].mass ==>
        Bodies() == old(Bodies())[j := Absorbed(old(Bodies())[j], old(Bodies())[i])] && marked == old(marked) + [i]
    {
      if particles[i].mass > particles[j].mass {
        AbsorbStep(i, j);
        MarkRemoved(j);
      } else {
        AbsorbStep(j, i);
        MarkRemoved(i);
      }
    }

    /** `remove.add(particles[k])`: the absorbed particle is put on the removal list. */
    method MarkRemoved(k: nat)
      requires k < |particles| && Marks()
      modifies this`remove, this`marked
      ensures remove == old(remove) + [particles[k]] && marked == old(marked) + [k]
      ensures Marks() && Bodies() == old(Bodies())
    {
      remove := remove + [particles[k]];
      marked := marked + [k];
    }

    /** Particle k absorbs particle l; l itself is not changed. */
    method AbsorbStep(k: nat, l: nat)
      requires k < |particles| && l < |particles| && k != l && Distinct(particles)
      modifies particles[k]
      ensures Bodies() == old(Bodies())[k := Absorbed(old(Bodies())[k], old(Bodies())[l])]
    {
      ghost var before := Bodies();
      particles[k].Absorb(particles[l]);
      forall t | 0 <= t < |particles| && t != k
        ensures Bodies()[t] == before[t]
      {
        assert particles[t].Value() == old(particles[t].Value());
      }
    }

    /** Mutual attraction of a non-coincident pair, with the centre c1 of i taken at the start of the row. */
    method AttractStep(i: nat, c1: Point, j: nat, c2: Point, trig: Trig)
      requires i < j < |particles| && Distinct(particles) && Admissible(Bodies())
      requires c1 != c2 && c2 == Center(Bodies()[j])
      modifies particles[i].velocity, particles[j].velocity
      ensures var a := Attraction(c1, c2, old(Bodies())[i].mass, old(Bodies())[j].mass, trig);
              Bodies() == old(Bodies())[i := Pushed(old(Bodies())[i], a.0)][j := Pushed(old(Bodies())[j], a.1)]
    {
      ghost var before := Bodies();
      var m1, m2 := particles[i].mass, particles[j].mass;
      assert m1 == before[i].mass && m2 == before[j].mass;
      var rawForce := RawForce(c1, c2, m1, m2);
      var angle := Angle(c1, c2, trig);
      var attraction1 := Pull(rawForce, angle, m1, trig);
      var attraction2 := Pull(rawForce, angle + PI, m2, trig);
      ghost var a := Attraction(c1, c2, before[i].mass, before[j].mass, trig);
      assert a == (attraction1.Value(), attraction2.Value());
      forall k | 0 <= k < |particles|
        ensures Bodies()[k] == before[k]
      {
        assert particles[k].Value() == old(particles[k].Value());
      }
      assert Bodies() == before;
      PushPair(i, j, attraction1, attraction2);
      assert Bodies() == before[i := Pushed(before[i], a.0)][j := Pushed(before[j], a.1)];
    }

    /** `p1.applyForce(f1); p2.applyForce(f2)` for the pair (i, j). */
    method PushPair(i: nat, j: nat, f1: Velocity, f2: Velocity)
      requires i < j < |particles| && Distinct(particles)
      requires f1 != particles[i].velocity && f2 != particles[i].velocity && f2 != particles[j].velocity
      modifies particles[i].velocity, particles[j].velocity
      ensures Bodies() == old(Bodies())[i := Pushed(old(Bodies())[i], old(f1.Value()))][j := Pushed(old(Bodies())[j], old(f2.Value()))]
    {
      PushOne(i, f1);
      PushOne(j, f2);
    }

    /** `particles[k].applyForce(f)`: only particle k changes. */
    method PushOne(k: nat, f: Velocity)
      requires k < |particles| && Distinct(particles) && f != particles[k].velocity
      modifies particles[k].velocity
      ensures Bodies() == old(Bodies())[k := Pushed(old(Bodies())[k], old(f.Value()))]
    {
      ghost var before := Bodies();
      particles[k].ApplyForce(f);
      forall t | 0 <= t < |particles| && t != k
        ensures Bodies()[t] == before[t]
      {
        assert particles[t].Value() == old(particles[t].Value());
      }
    }

    /** The combined loop of run(): the wall check of particle i, then its collisions with every later one. */
    method WallAndCollisionPass(width: int, height: int, overlap: Overlap)
      requires Distinct(particles) && Admissible(Bodies())
      modifies Repr()
      ensures Bodies() == CollideFrom(old(Bodies()), 0, width, height, overlap)
    {
      var i := 0;
      while i < |particles|
        invariant 0 <= i <= |particles|
        invariant Admissible(Bodies())
        invariant CollideFrom(Bodies(), i, width, height, overlap) == CollideFrom(old(Bodies()), 0, width, height, overlap)
      {
        WallPass(i, width, height);
        CollisionRowPass(i, overlap);
        i := i + 1;
      }
    }

    /** Keeps particle i inside the box: a touching particle is pushed back in and its velocity reflected. */
    method WallPass(i: nat, width: int, height: int)
      requires i < |particles| && Distinct(particles) && Admissible(Bodies())
      modifies particles[i], particles[i].velocity
      ensures Bodies() == old(Bodies())[i := WallCheck(old(Bodies())[i], width, height)]
      ensures Admissible(Bodies())
    {
      ghost var before := Bodies();
      var p1 := particles[i];
      var opposite := p1.velocity.GetOpposite();
      var change := Velocity.Duplicate(p1.velocity);
      if p1.x <= 0.0 || p1.x + p1.diameter as real >= width as real {
        SideBounce(p1, width, height, opposite, change);
      } else if p1.y <= 0.0 || p1.y + p1.diameter as real >= height as real {
        EndBounce(p1, width, height, opposite, change);
      }
      assert p1.Value() == WallCheck(before[i], width, height);
      forall k | 0 <= k < |particles| && k != i
        ensures Bodies()[k] == before[k]
      {
        assert particles[k].Value() == old(particles[k].Value());
      }
    }

    /** A hit on the left or right wall: fix a stuck position, then reverse the horizontal motion. */
    static method SideBounce(p1: Particle, width: int, height: int, opposite: Velocity, change: Velocity)
      requires HitsSide(p1.Value(), width)
      requires opposite.Value() == OppositeOf(p1.velocity.Value()) && change.Value() == Copy(p1.velocity.Value())
      requires change != p1.velocity && change != opposite
      modifies p1, p1.velocity, change
      ensures p1.Value() == WallCheck(old(p1.Value()), width, height)
    {
      ghost var b := p1.Value();
      ghost var fixed :=
        if b.x < 0.0 then Located(b, 1.0, b.y)
        else if b.x + b.diameter as real > width as real then Located(b, (width - b.diameter - 1) as real, b.y)
        else b;
      if p1.x < 0.0 {
        p1.SetLocation(1.0, p1.y);
      } else if p1.x + p1.diameter as real > width as real {
        p1.SetLocation((width - p1.diameter - 1) as real, p1.y);
      }
      assert p1.Value() == fixed;
      change.SetX(-change.x);
      assert change.Value() == Vec(-Copy(b.vel).x, Copy(b.vel).y);
      p1.ApplyForce(opposite);
      assert p1.Value() == Pushed(fixed, OppositeOf(b.vel));
      p1.ApplyForce(change);
    }

    /** A hit on the top or bottom wall: fix a stuck position, then reverse the vertical motion. */
    static method EndBounce(p1: Particle, width: int, height: int, opposite: Velocity, change: Velocity)
      requires !HitsSide(p1.Value(), width) && HitsEnd(p1.Value(), height)
      requires opposite.Value() == OppositeOf(p1.velocity.Value()) && change.Value() == Copy(p1.velocity.Value())
      requires change != p1.velocity && change != opposite
      modifies p1, p1.velocity, change
      ensures p1.Value() == WallCheck(old(p1.Value()), width, height)
    {
      ghost var b := p1.Value();
      ghost var fixed :=
        if b.y < 0.0 then Located(b, b.x, 1.0)
        else if b.y + b.diameter as real > height as real then Located(b, b.x, (height - b.diameter - 1) as real)
        else b;
      if p1.y < 0.0 {
        p1.SetLocation(p1.x, 1.0);
      } else if p1.y + p1.diameter as real > height as real {
        p1.SetLocation(p1.x, (height - p1.diameter - 1) as real);
      }
      assert p1.Value() == fixed;
      change.SetY(-change.y);
      assert change.Value() == Vec(Copy(b.vel).x, -Copy(b.vel).y);
      p1.ApplyForce(opposite);
      assert p1.Value() == Pushed(fixed, OppositeOf(b.vel));
      p1.ApplyForce(change);
    }

    /** The collision loop of row i: every later particle that intersects i exchanges momentum with it. */
    method CollisionRowPass(i: nat, overlap: Overlap)
      requires i < |particles| && Distinct(particles) && Admissible(Bodies())
      modifies Repr()
      ensures Bodies() == CollisionRow(old(Bodies()), i, i + 1, overlap)
      ensures Admissible(Bodies())
    {
      ghost var goal := CollisionRow(Bodies(), i, i + 1, overlap);
      var j := i + 1;
      while j < |particles|
        invariant i < j <= |particles|
        invariant Admissible(Bodies())
        invariant CollisionRow(Bodies(), i, j, overlap) == goal
      {
        j := ContactStep(i, j, overlap, goal);
      }
    }

    /** One pass of the inner collision loop: the pair responds only when the two discs intersect. */
    method ContactStep(i: nat, j: nat, overlap: Overlap, ghost goal: seq<Body>) returns (next: nat)
      requires i < j < |particles| && Distinct(particles) && Admissible(Bodies())
      requires CollisionRow(Bodies(), i, j, overlap) == goal
      modifies particles[i].velocity, particles[j].velocity
      ensures next == j + 1
      ensures Admissible(Bodies())
      ensures Bodies() == if Overlaps(overlap, old(Bodies())[i], old(Bodies())[j]) then CollidePair(old(Bodies()), i, j) else old(Bodies())
      ensures CollisionRow(Bodies(), i, next, overlap) == goal
    {
      ghost var before := Bodies();
      assert particles[i].Intersects(overlap, particles[j]) == Overlaps(overlap, before[i], before[j]);
      if particles[i].Intersects(overlap, particles[j]) {
        CollisionStep(i, j);
      }
      next := j + 1;
      CollisionAdvance(before, Bodies(), i, j, next, overlap, goal);
    }

    /** The response to an intersection of i and j: each cancels its velocity and takes the elastic formula. */
    method CollisionStep(i: nat, j: nat)
      requires i < j < |particles| && Distinct(particles) && Admissible(Bodies())
      modifies particles[i].velocity, particles[j].velocity
      ensures Bodies() == CollidePair(old(Bodies()), i, j)
    {
      ghost var before := Bodies();
      var p1 := particles[i];
      var p2 := particles[j];
      var v1 := Velocity.Duplicate(p1.velocity);
      var v2 := Velocity.Duplicate(p2.velocity);
      assert v1.Value() == Copy(before[i].vel) && v2.Value() == Copy(before[j].vel);
      Strike(p1, v1, v2, p2.mass);
      Strike(p2, v2, v1, p1.mass);
      assert p1.Value() == Struck(before[i], Copy(before[i].vel), Copy(before[j].vel), before[j].mass);
      assert p2.Value() == Struck(before[j], Copy(before[j].vel), Copy(before[i].vel), before[i].mass);
      forall k | 0 <= k < |particles| && k != i && k != j
        ensures Bodies()[k] == before[k]
      {
        assert particles[k].Value() == old(particles[k].Value());
      }
    }

    /** `p.applyForce(own.getOpposite()); p.applyForce(other, otherMass)`: cancel, then the elastic kick. */
    static method Strike(p: Particle, own: Velocity, other: Velocity, otherMass: real)
      requires p.mass + otherMass != 0.0
      requires own != p.velocity && other != p.velocity
      modifies p.velocity
      ensures p.Value() == Struck(old(p.Value()), old(own.Value()), old(other.Value()), otherMass)
    {
      var back := own.GetOpposite();
      p.ApplyForce(back);
      p.ApplyElasticForce(other, otherMass);
    }
  }

  /** `new Velocity(force * cos(theta) / mass, force * sin(theta) / mass)`. */
  method Pull(force: real, theta: real, mass: real, trig: Trig) returns (v: Velocity)
    requires mass != 0.0
    ensures fresh(v)
    ensures v.Value() == Toward(force, theta, mass, trig)
  {
    v := new Velocity(force * trig.cos(theta) / mass, force * trig.sin(theta) / mass);
  }

  /** One iteration of the inner gravity loop leaves the rest of the row with the same outcome. */
  lemma RowAdvance(w: World, w2: World, i: nat, c1: Point, j: nat, next: nat, trig: Trig, goal: World)
    requires i < j < |w.bodies| && Admissible(w.bodies) && next == j + 1
    requires w2 == GravityPair(w, i, c1, j, trig) && GravityRow(w, i, c1, j, trig) == goal
    ensures GravityRow(w2, i, c1, next, trig) == goal
  {
    RowUnfold(w, i, c1, j, trig);
    assert GravityRow(w, i, c1, j, trig) == GravityRow(w2, i, c1, j + 1, trig);
  }

  lemma RowUnfold(w: World, i: nat, c1: Point, j: nat, trig: Trig)
    requires i < j < |w.bodies| && Admissible(w.bodies)
    ensures GravityRow(w, i, c1, j, trig) == GravityRow(GravityPair(w, i, c1, j, trig), i, c1, j + 1, trig)
  {
  }

  /** One iteration of the inner collision loop leaves the rest of the row with the same outcome. */
  lemma CollisionAdvance(bs: seq<Body>, bs2: seq<Body>, i: nat, j: nat, next: nat, overlap: Overlap, goal: seq<Body>)
    requires i < j < |bs| && Admissible(bs) && next == j + 1
    requires bs2 == if Overlaps(overlap, bs[i], bs[j]) then CollidePair(bs, i, j) else bs
    requires CollisionRow(bs, i, j, overlap) == goal
    ensures CollisionRow(bs2, i, next, overlap) == goal
  {
    CollisionUnfold(bs, i, j, overlap);
  }

  lemma CollisionUnfold(bs: seq<Body>, i: nat, j: nat, overlap: Overlap)
    requires i < j < |bs| && Admissible(bs)
    ensures CollisionRow(bs, i, j, overlap)
         == CollisionRow(if Overlaps(overlap, bs[i], bs[j]) then CollidePair(bs, i, j) else bs, i, j + 1, overlap)
  {
  }

  /** The values of a concatenation are the concatenated values. */
  lemma ValuesOfAppend(a: seq<Particle>, b: seq<Particle>)
    ensures ValuesOf(a + b) == ValuesOf(a) + ValuesOf(b)
  {
    assert forall k :: 0 <= k < |a + b| ==> (a + b)[k] == if k < |a| then a[k] else b[k - |a|];
  }

  /** With distinct particles, index k is on the removal list exactly when it was marked. */
  lemma RemovedIffMarked(ps: seq<Particle>, rm: seq<Particle>, m: seq<nat>, k: nat)
    requires k < |ps| && Distinct(ps) && MarksOf(ps, rm, m)
    ensures ps[k] in rm <==> k in m
  {
    if k in m {
      var t :| 0 <= t < |m| && m[t] == k;
      assert rm[t] == ps[k];
    }
    if ps[k] in rm {
      var t :| 0 <= t < |rm| && rm[t] == ps[k];
      assert ps[m[t]] == ps[k];
    }
  }

  /** A particle survives removeAll exactly when its index was never marked. */
  lemma RemovalKeepsUnmarked(ps: seq<Particle>, rm: seq<Particle>, m: seq<nat>)
    requires Distinct(ps) && MarksOf(ps, rm, m)
    ensures forall k :: 0 <= k < |ps| ==> (ps[k] in Without(ps, rm, 0) <==> k !in m)
  {
    forall k | 0 <= k < |ps|
      ensures ps[k] in Without(ps, rm, 0) <==> k !in m
    {
      RemovedIffMarked(ps, rm, m, k);
      if ps[k] !in rm {
        assert ps[k] in ps[0..];
      }
    }
  }

  /** removeAll on the particles gives the compaction of their values. */
  lemma {:induction false} RemovalMatchesCompaction(ps: seq<Particle>, rm: seq<Particle>, m: seq<nat>, k: nat)
    requires k <= |ps| && Distinct(ps) && MarksOf(ps, rm, m)
    ensures ValuesOf(Without(ps, rm, k)) == CompactFrom(ValuesOf(ps), m, k)
    decreases |ps| - k
  {
    if k < |ps| {
      RemovedIffMarked(ps, rm, m, k);
      RemovalMatchesCompaction(ps, rm, m, k + 1);
      var head := if ps[k] in rm then [] else [ps[k]];
      assert Without(ps, rm, k) == head + Without(ps, rm, k + 1);
      ValuesOfAppend(head, Without(ps, rm, k + 1));
    }
  }

  /** removeAll keeps the particles distinct. */
  lemma {:induction false} RemovalKeepsDistinct(ps: seq<Particle>, rm: seq<Particle>, k: nat)
    requires k <= |ps| && Distinct(ps)
    ensures Distinct(Without(ps, rm, k))
    decreases |ps| - k
  {
    if k < |ps| {
      RemovalKeepsDistinct(ps, rm, k + 1);
      var rest := Without(ps, rm, k + 1);
      forall t | 0 <= t < |rest|
        ensures rest[t] != ps[k] && rest[t].velocity != ps[k].velocity
      {
        assert rest[t] in ps[k + 1..];
        var u :| k + 1 <= u < |ps| && ps[u] == rest[t];
      }
      var head := if ps[k] in rm then [] else [ps[k]];
      assert Without(ps, rm, k) == head + rest;
    }
  }

  /** Compaction keeps only bodies of the list, so it keeps every body fit. */
  lemma CompactAdmissible(bs: seq<Body>, m: seq<nat>, k: nat)
    requires k <= |bs| && Admissible(bs)
    ensures Admissible(CompactFrom(bs, m, k))
  {
    var r := CompactFrom(bs, m, k);
    forall t | 0 <= t < |r|
      ensures Fit(r[t])
    {
      assert r[t] in r;
    }
  }
}
