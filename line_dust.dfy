/**
 * The line-dust cursor trail (general/moveline.js): every mouse move adds a
 * particle, and every animation frame ages all particles by one step and
 * removes those whose life span has run out.
 *
 * The random velocity and colour are parameters; the particle's DOM element is
 * reduced to the opacity and horizontal scale the update writes to it.
 */
module LineDust {

  /** The number of frames a particle lives, and the denominator of its fade. */
  const LifeSpan: int := 120

  class Particle {
    var lifeSpan: int
    var x: real
    var y: real
    var vx: real
    var vy: real
    /** The `opacity` (and `scaleX`) written to the element: lifeSpan / 120. */
    var opacity: real

    /** `new Particle()`: the particle starts with its full life span. */
    constructor ()
      ensures lifeSpan == LifeSpan
    {
      lifeSpan := LifeSpan;
    }

    /** `init`: place the particle, set its velocity, and run one update. */
    method Init(x0: real, y0: real, vx0: real, vy0: real)
      modifies this
      ensures vx == vx0 && vy == vy0
      ensures x == x0 + vx0 && y == y0 + vy0
      ensures lifeSpan == old(lifeSpan) - 1
      ensures opacity == lifeSpan as real / LifeSpan as real
    {
      vx, vy := vx0, vy0;
      x, y := x0, y0;
      Update();
    }

    /** `update`: move by the velocity, age by one, fade with the age. */
    method Update()
      modifies this
      ensures vx == old(vx) && vy == old(vy)
      ensures x == old(x) + vx && y == old(y) + vy
      ensures lifeSpan == old(lifeSpan) - 1
      ensures opacity == lifeSpan as real / LifeSpan as real
    {
      x := x + vx;
      y := y + vy;
      lifeSpan := lifeSpan - 1;
      opacity := lifeSpan as real / LifeSpan as real;
    }
  }

  /** A particle is kept while its life span is not negative. */
  predicate Alive(p: Particle)
    reads p
  {
    p.lifeSpan >= 0
  }

  /** The particles that survive the removal pass, in their order. */
  function Survivors(ps: seq<Particle>): (r: seq<Particle>)
    reads set p | p in ps
    ensures |r| <= |ps|
  {
    if ps == [] then [] else (if Alive(ps[0]) then [ps[0]] else []) + Survivors(ps[1..])
  }

  /** A particle survives exactly when it was there and is alive. */
  lemma {:induction false} SurvivorsMembers(ps: seq<Particle>, p: Particle)
    ensures p in Survivors(ps) <==> p in ps && Alive(p)
  {
    if ps != [] {
      SurvivorsMembers(ps[1..], p);
      assert p in ps <==> p == ps[0] || p in ps[1..];
    }
  }

  /** The removal pass keeps the survivors' relative order. */
  lemma {:induction false} SurvivorsAppend(a: seq<Particle>, b: seq<Particle>)
    ensures Survivors(a + b) == Survivors(a) + Survivors(b)
  {
    if a != [] {
      assert (a + b)[0] == a[0];
      assert (a + b)[1..] == a[1..] + b;
      SurvivorsAppend(a[1..], b);
      var head := if Alive(a[0]) then [a[0]] else [];
      assert Survivors(a + b) == head + (Survivors(a[1..]) + Survivors(b));
      assert Survivors(a) == head + Survivors(a[1..]);
    } else {
      assert a + b == b;
    }
  }

  /** When every particle is alive the removal pass removes nothing. */
  lemma {:induction false} SurvivorsAllAlive(ps: seq<Particle>)
    requires forall k :: 0 <= k < |ps| ==> Alive(ps[k])
    ensures Survivors(ps) == ps
  {
    if ps != [] {
      SurvivorsAllAlive(ps[1..]);
    }
  }

  /** One removal step at position i of the pass that runs from the end. */
  lemma SurvivorsFrom(ps: seq<Particle>, i: nat)
    requires i < |ps|
    ensures Survivors(ps[i..]) == (if Alive(ps[i]) then [ps[i]] else []) + Survivors(ps[i + 1..])
  {
    assert ps[i..][1..] == ps[i + 1..];
  }

  class Trail {
    var particles: seq<Particle>

    /** No particle is listed twice. */
    ghost predicate Valid()
      reads this
    {
      forall a, b :: 0 <= a < b < |particles| ==> particles[a] != particles[b]
    }

    constructor ()
      ensures particles == [] && Valid()
    {
      particles := [];
    }

    /** `addParticle`: a new particle, initialised, at the end of the list. */
    method AddParticle(x: real, y: real, vx: real, vy: real)
      requires Valid()
      modifies this
      ensures Valid()
      ensures |particles| == |old(particles)| + 1 && particles[..|old(particles)|] == old(particles)
      ensures var p := particles[|particles| - 1];
              fresh(p) && p.lifeSpan == LifeSpan - 1 && p.x == x + vx && p.y == y + vy
    {
      var p := new Particle();
      p.Init(x, y, vx, vy);
      particles := particles + [p];
    }

    /**
     * `updateParticles`: every particle is updated once, then the dead ones
     * (life span below zero) are removed by a pass from the end.
     */
    method UpdateParticles()
      requires Valid()
      modifies this, particles
      ensures Valid()
      ensures forall k :: 0 <= k < |old(particles)| ==>
                old(particles)[k].lifeSpan == old(particles[k].lifeSpan) - 1 &&
                old(particles)[k].x == old(particles[k].x) + old(particles[k].vx) &&
                old(particles)[k].y == old(particles[k].y) + old(particles[k].vy)
      ensures particles == Survivors(old(particles))
    {
      AgeAll();
      RemoveDead();
    }

    /**
     * `loop`: one `updateParticles` per animation frame. A particle just added
     * (life span 119) is still in the trail after n frames iff n < 120: it
     * survives 119 frames and is removed in the 120th.
     */
    method Frames(n: nat, ghost p: Particle)
      requires Valid() && p in particles && p.lifeSpan == LifeSpan - 1
      modifies this, set q | q in particles
      ensures Valid()
      ensures p in particles <==> n < LifeSpan
      ensures p in particles ==> p.lifeSpan == LifeSpan - 1 - n
    {
      var i := 0;
      while i < n
        invariant i <= n && Valid()
        invariant forall q :: q in particles ==> q in old(particles)
        invariant p in particles <==> i < LifeSpan
        invariant p in particles ==> p.lifeSpan == LifeSpan - 1 - i
      {
        ghost var before := particles;
        UpdateParticles();
        SurvivorsMembers(before, p);
        forall q | q in particles ensures q in old(particles) {
          SurvivorsMembers(before, q);
        }
        i := i + 1;
      }
    }

    /** The first loop of `updateParticles`: `update` on every particle. */
    method AgeAll()
      requires Valid()
      modifies particles
      ensures forall k :: 0 <= k < |particles| ==>
                particles[k].lifeSpan == old(particles[k].lifeSpan) - 1 &&
                particles[k].x == old(particles[k].x) + old(particles[k].vx) &&
                particles[k].y == old(particles[k].y) + old(particles[k].vy)
    {
      var i := 0;
      while i < |particles|
        invariant 0 <= i <= |particles|
        invariant forall k :: 0 <= k < i ==>
                    particles[k].lifeSpan == old(particles[k].lifeSpan) - 1 &&
                    particles[k].x == old(particles[k].x) + old(particles[k].vx) &&
                    particles[k].y == old(particles[k].y) + old(particles[k].vy)
        invariant forall k :: i <= k < |particles| ==>
                    particles[k].lifeSpan == old(particles[k].lifeSpan) &&
                    particles[k].x == old(particles[k].x) && particles[k].y == old(particles[k].y) &&
                    particles[k].vx == old(particles[k].vx) && particles[k].vy == old(particles[k].vy)
      {
        particles[i].Update();
        i := i + 1;
      }
    }

    /** The second loop of `updateParticles`: splice out the dead, from the end. */
    method RemoveDead()
      requires Valid()
      modifies this
      ensures Valid()
      ensures particles == Survivors(old(particles))
    {
      var i := |particles|;
      while i > 0
        invariant 0 <= i <= |old(particles)|
        invariant particles == old(particles)[..i] + Survivors(old(particles)[i..])
      {
        i := i - 1;
        SpliceIfDead(i, old(particles));
      }
      assert old(particles)[0..] == old(particles);
      SurvivorsDistinct(old(particles));
    }

    /** One step of the removal pass: splice out position i if that particle is dead. */
    method SpliceIfDead(i: nat, ghost orig: seq<Particle>)
      requires i < |orig| && particles == orig[..i + 1] + Survivors(orig[i + 1..])
      modifies this`particles
      ensures particles == orig[..i] + Survivors(orig[i..])
    {
      SurvivorsFrom(orig, i);
      ghost var rest := Survivors(orig[i + 1..]);
      assert orig[..i + 1] == orig[..i] + [orig[i]];
      assert particles[i] == orig[i];
      if particles[i].lifeSpan < 0 {
        SpliceAt(orig, rest, i);
        particles := particles[..i] + particles[i + 1..];
      }
    }
  }

  /** Splicing out position i of a list whose first i + 1 items are `ps`'s. */
  lemma SpliceAt<T>(ps: seq<T>, rest: seq<T>, i: nat)
    requires i < |ps|
    ensures var s := ps[..i + 1] + rest; s[..i] + s[i + 1..] == ps[..i] + rest
  {
    var s := ps[..i + 1] + rest;
    assert s[..i] == ps[..i];
    assert s[i + 1..] == rest;
  }

  /** The removal pass never makes a particle appear twice. */
  lemma SurvivorsDistinct(ps: seq<Particle>)
    requires forall a, b :: 0 <= a < b < |ps| ==> ps[a] != ps[b]
    ensures var r := Survivors(ps); forall a, b :: 0 <= a < b < |r| ==> r[a] != r[b]
  {
    var r := Survivors(ps);
    forall a, b | 0 <= a < b < |r| ensures r[a] != r[b] {
      SurvivorsOrder(ps, a, b);
    }
  }

  /**
   * Two different positions of the survivors hold particles from two different
   * positions of the original list, in the same order.
   */
  lemma {:induction false} SurvivorsOrder(ps: seq<Particle>, a: nat, b: nat)
    requires a < b < |Survivors(ps)|
    ensures exists i, j :: 0 <= i < j < |ps| && Survivors(ps)[a] == ps[i] && Survivors(ps)[b] == ps[j]
  {
    if ps != [] {
      var rest := Survivors(ps[1..]);
      if Alive(ps[0]) {
        if a == 0 {
          SurvivorsMembers(ps[1..], Survivors(ps)[b]);
          assert Survivors(ps)[b] == rest[b - 1];
          var j :| 0 <= j < |ps[1..]| && ps[1..][j] == rest[b - 1];
          assert ps[j + 1] == Survivors(ps)[b];
        } else {
          SurvivorsOrder(ps[1..], a - 1, b - 1);
          var i, j :| 0 <= i < j < |ps[1..]| && rest[a - 1] == ps[1..][i] && rest[b - 1] == ps[1..][j];
          assert ps[i + 1] == Survivors(ps)[a] && ps[j + 1] == Survivors(ps)[b];
        }
      } else {
        SurvivorsOrder(ps[1..], a, b);
        var i, j :| 0 <= i < j < |ps[1..]| && rest[a] == ps[1..][i] && rest[b] == ps[1..][j];
        assert ps[i + 1] == Survivors(ps)[a] && ps[j + 1] == Survivors(ps)[b];
      }
    }
  }
}
