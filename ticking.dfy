/**
 * One tick of the simulation (Simulation.tick), run one particle at a time: the
 * pairwise Lennard-Jones forces, the special forces, the speed, the position, the
 * hand-off of the force accumulator, and finally the re-bucketing of the grid.
 */
module Ticking {
  import opened Options
  import opened Lists
  import opened Vectors
  import Cache
  import opened Particles
  import opened Containers
  import Grids

  /** The force accumulators of ps, as a value. */
  ghost function Forces(ps: seq<Particle>): (f: map<Particle, Vec>)
    reads ps`force
    ensures forall p :: p in f ==> p in ps
    ensures forall p :: p in ps ==> p in f
    ensures forall p :: p in ps ==> f[p] == p.force
  {
    map p | p in ps :: p.force
  }

  /** Accumulators that match g on ps, whose keys are exactly the particles of ps, are g. */
  lemma ForcesAre(ps: seq<Particle>, g: map<Particle, Vec>)
    requires forall p :: p in g <==> p in ps
    requires forall p :: p in ps ==> p.force == g[p]
    ensures Forces(ps) == g
  {
    assert Forces(ps).Keys == g.Keys;
  }

  /** The force tickForceTo moves from p1 to p2, or None when the pair is skipped. */
  ghost function PairForce(p1: Particle, p2: Particle, sqrt: real -> real): Option<Vec>
    reads p1`pos, p2`pos
    requires SqrtPositive(sqrt)
  {
    PairExchange(p1.pos, p2.pos, p1.epsilon, p2.epsilon, p1.sigma, p2.sigma, p1.sqCutoffDis, sqrt)
  }

  /** The accumulators f once tickForceTo has run on (p1, p2): a fixed side keeps its force. */
  ghost function AfterPair(f: map<Particle, Vec>, p1: Particle, p2: Particle, sqrt: real -> real): (r: map<Particle, Vec>)
    reads p1`pos, p2`pos
    requires SqrtPositive(sqrt) && p1 in f && p2 in f
    ensures r.Keys == f.Keys
  {
    var ex := PairForce(p1, p2, sqrt);
    if ex.None? then f
    else
      f[p1 := if p1.fixed then f[p1] else f[p1].Subtract(ex.value)]
       [p2 := if p2.fixed then f[p2] else f[p2].Add(ex.value)]
  }

  /** Both ends of every pair are keys of f. */
  ghost predicate Covers(f: map<Particle, Vec>, pairs: seq<(Particle, Particle)>)
  {
    forall k :: 0 <= k < |pairs| ==> pairs[k].0 in f && pairs[k].1 in f
  }

  /** The accumulators f once tickForceTo has run on every pair, in order. */
  ghost function AfterPairs(f: map<Particle, Vec>, pairs: seq<(Particle, Particle)>, sqrt: real -> real): (r: map<Particle, Vec>)
    reads f.Keys`pos
    requires SqrtPositive(sqrt) && Covers(f, pairs)
    ensures r.Keys == f.Keys
  {
    if pairs == [] then f
    else
      var n := |pairs| - 1;
      AfterPair(AfterPairs(f, pairs[..n], sqrt), pairs[n].0, pairs[n].1, sqrt)
  }

  /** Running the pairs up to i + 1 is running those up to i, then pair i. */
  lemma AfterPairsStep(f: map<Particle, Vec>, pairs: seq<(Particle, Particle)>, i: nat, sqrt: real -> real)
    requires SqrtPositive(sqrt) && Covers(f, pairs) && i < |pairs|
    ensures Covers(f, pairs[..i]) && Covers(f, pairs[..i + 1])
    ensures AfterPairs(f, pairs[..i + 1], sqrt) == AfterPair(AfterPairs(f, pairs[..i], sqrt), pairs[i].0, pairs[i].1, sqrt)
  {
    assert pairs[..i + 1][..i] == pairs[..i];
  }

  /** A fixed particle's accumulator is never changed by the pairwise phase. */
  lemma {:induction false} AfterPairsFixed(f: map<Particle, Vec>, pairs: seq<(Particle, Particle)>, sqrt: real -> real,
                                           p: Particle)
    requires SqrtPositive(sqrt) && Covers(f, pairs) && p in f && p.fixed
    ensures AfterPairs(f, pairs, sqrt)[p] == f[p]
  {
    if pairs != [] {
      AfterPairsFixed(f, pairs[..|pairs| - 1], sqrt, p);
    }
  }

  /** The sum of the accumulators f of the particles ps. */
  function Total(ps: seq<Particle>, f: map<Particle, Vec>): Vec
    requires forall p :: p in ps ==> p in f
  {
    if ps == [] then ZERO else Total(ps[..|ps| - 1], f).Add(f[ps[|ps| - 1]])
  }

  /** The sum only reads the entries of the particles summed. */
  lemma {:induction false} TotalAgree(ps: seq<Particle>, f: map<Particle, Vec>, g: map<Particle, Vec>)
    requires forall p :: p in ps ==> p in f && p in g && f[p] == g[p]
    ensures Total(ps, f) == Total(ps, g)
  {
    if ps != [] {
      TotalAgree(ps[..|ps| - 1], f, g);
    }
  }

  /** Changing the entry of a particle that is not summed leaves the sum alone. */
  lemma {:induction false} TotalOutside(ps: seq<Particle>, f: map<Particle, Vec>, p: Particle, v: Vec)
    requires forall q :: q in ps ==> q in f
    requires p !in ps
    ensures Total(ps, f[p := v]) == Total(ps, f)
  {
    if ps != [] {
      TotalOutside(ps[..|ps| - 1], f, p, v);
    }
  }

  /** Changing the entry of a particle summed once changes the sum by the same amount. */
  lemma {:induction false} TotalUpdate(ps: seq<Particle>, f: map<Particle, Vec>, p: Particle, v: Vec)
    requires forall q :: q in ps ==> q in f
    requires NoDup(ps) && p in ps
    ensures Total(ps, f[p := v]) == Total(ps, f).Add(v.Subtract(f[p]))
  {
    var n := |ps| - 1;
    NoDupSplit(ps, n);
    if ps[n] == p {
      TotalOutside(ps[..n], f, p, v);
    } else {
      assert p in ps[..n] by {
        var k :| 0 <= k < |ps| && ps[k] == p;
        assert ps[..n][k] == p;
      }
      TotalUpdate(ps[..n], f, p, v);
    }
  }

  /**
   * Newton's third law for one pair of free particles: what one loses the other gains,
   * so the sum of the accumulators over any list holding each of them once is unchanged.
   */
  lemma AfterPairTotal(ps: seq<Particle>, f: map<Particle, Vec>, p1: Particle, p2: Particle, sqrt: real -> real)
    requires SqrtPositive(sqrt) && NoDup(ps) && forall q :: q in ps ==> q in f
    requires p1 in ps && p2 in ps && !p1.fixed && !p2.fixed
    ensures Total(ps, AfterPair(f, p1, p2, sqrt)) == Total(ps, f)
  {
    var ex := PairForce(p1, p2, sqrt);
    if ex.Some? {
      assert p1 != p2;
      var f1 := f[p1 := f[p1].Subtract(ex.value)];
      TotalUpdate(ps, f, p1, f[p1].Subtract(ex.value));
      TotalUpdate(ps, f1, p2, f1[p2].Add(ex.value));
    }
  }

  /**
   * The pairwise phase as a whole conserves the total force of a list of free particles
   * that holds every particle of the pairs once.
   */
  lemma {:induction false} AfterPairsTotal(ps: seq<Particle>, f: map<Particle, Vec>, pairs: seq<(Particle, Particle)>,
                                           sqrt: real -> real)
    requires SqrtPositive(sqrt) && NoDup(ps) && forall q :: q in ps ==> q in f && !q.fixed
    requires Covers(f, pairs) && forall k :: 0 <= k < |pairs| ==> pairs[k].0 in ps && pairs[k].1 in ps
    ensures Total(ps, AfterPairs(f, pairs, sqrt)) == Total(ps, f)
  {
    if pairs != [] {
      var n := |pairs| - 1;
      AfterPairsTotal(ps, f, pairs[..n], sqrt);
      AfterPairTotal(ps, AfterPairs(f, pairs[..n], sqrt), pairs[n].0, pairs[n].1, sqrt);
    }
  }

  /**
   * forEachPair(Particle::tickForceTo), applied to the pairs forEachPair hands over:
   * every accumulator ends as AfterPairs computes it, and with free particles only,
   * each held once, the total force is what it was.
   */
  method TickPairs(pairs: seq<(Particle, Particle)>, ghost ps: seq<Particle>, cache: Cache.Cache2D<real, real, real>,
                   sqrt: real -> real)
    requires SqrtPositive(sqrt) && EpsilonCacheValid(cache, sqrt)
    requires forall k :: 0 <= k < |pairs| ==> pairs[k].0 in ps && pairs[k].1 in ps
    requires Poised(ps)
    modifies ps`force, cache
    ensures Poised(ps)
    ensures EpsilonCacheValid(cache, sqrt)
    ensures forall p :: p in ps && p.fixed ==> p.force == old(p.force)
    ensures Covers(old(Forces(ps)), pairs)
    ensures forall p :: p in ps ==> p.force == old(AfterPairs(Forces(ps), pairs, sqrt))[p]
    ensures NoDup(ps) && (forall p :: p in ps ==> !p.fixed) ==> Total(ps, Forces(ps)) == old(Total(ps, Forces(ps)))
  {
    ghost var f0 := Forces(ps);
    assert Covers(f0, pairs);
    ghost var want := AfterPairs(f0, pairs, sqrt);
    ApplyPairs(pairs, ps, f0, cache, sqrt);
    assert AfterPairs(f0, pairs, sqrt) == want;
    if NoDup(ps) && forall p :: p in ps ==> !p.fixed {
      AfterPairsTotal(ps, f0, pairs, sqrt);
      TotalAgree(ps, Forces(ps), AfterPairs(f0, pairs, sqrt));
    }
    PoisedKept(ps);
  }

  /** The loop of forEachPair(Particle::tickForceTo), from accumulators f0. */
  method ApplyPairs(pairs: seq<(Particle, Particle)>, ghost ps: seq<Particle>, ghost f0: map<Particle, Vec>,
                    cache: Cache.Cache2D<real, real, real>, sqrt: real -> real)
    requires SqrtPositive(sqrt) && EpsilonCacheValid(cache, sqrt)
    requires forall k :: 0 <= k < |pairs| ==> pairs[k].0 in ps && pairs[k].1 in ps
    requires forall p :: p in ps ==> p in f0 && p.force == f0[p]
    modifies ps`force, cache
    ensures EpsilonCacheValid(cache, sqrt)
    ensures forall p :: p in ps && p.fixed ==> p.force == old(p.force)
    ensures Covers(f0, pairs)
    ensures forall p :: p in ps ==> p.force == AfterPairs(f0, pairs, sqrt)[p]
  {
    assert Covers(f0, pairs);
    for i := 0 to |pairs|
      invariant EpsilonCacheValid(cache, sqrt)
      invariant forall p :: p in ps ==> p.force == AfterPairs(f0, pairs[..i], sqrt)[p]
    {
      ghost var f := AfterPairs(f0, pairs[..i], sqrt);
      TickPair(pairs[i].0, pairs[i].1, ps, f, cache, sqrt);
      AfterPairsStep(f0, pairs, i, sqrt);
    }
    assert pairs[..|pairs|] == pairs;
    forall p | p in ps && p.fixed ensures p.force == old(p.force) {
      AfterPairsFixed(f0, pairs, sqrt, p);
    }
  }

  /** One call tickForceTo(p1, p2), seen on accumulators that were f: they become AfterPair(f, p1, p2). */
  method TickPair(p1: Particle, p2: Particle, ghost ps: seq<Particle>, ghost f: map<Particle, Vec>,
                  cache: Cache.Cache2D<real, real, real>, sqrt: real -> real)
    requires SqrtPositive(sqrt) && EpsilonCacheValid(cache, sqrt)
    requires p1 in ps && p2 in ps && forall p :: p in ps ==> p in f && p.force == f[p]
    modifies ps`force, cache
    ensures EpsilonCacheValid(cache, sqrt)
    ensures forall p :: p in ps && p.fixed ==> p.force == old(p.force)
    ensures forall p :: p in ps ==> p.force == AfterPair(f, p1, p2, sqrt)[p]
  {
    ghost var ex := PairForce(p1, p2, sqrt);
    p1.TickForceTo(p2, cache, sqrt);
    forall p | p in ps ensures p.force == AfterPair(f, p1, p2, sqrt)[p] {
      if ex.Some? && p == p2 {
        assert p.force == if p2.fixed then f[p2] else f[p2].Add(ex.value);
      } else if ex.Some? && p == p1 {
        assert p.force == if p1.fixed then f[p1] else f[p1].Subtract(ex.value);
      }
    }
  }

  /**
   * The connection lists of ps: none holds its own particle or another twice, every
   * particle they name is in ps, and no two particles hold each other.
   */
  ghost predicate Linked(ps: seq<Particle>)
    reads ps`connections
  {
    forall p :: p in ps ==>
      && p !in p.connections
      && NoDup(p.connections)
      && forall q :: q in p.connections ==> q in ps && p !in q.connections
  }

  /** The positions of ps, as a value. */
  ghost function Positions(ps: seq<Particle>): (at: map<Particle, Vec>)
    reads ps`pos
    ensures forall p :: p in at ==> p in ps
    ensures forall p :: p in ps ==> p in at && at[p] == p.pos
  {
    map p | p in ps :: p.pos
  }

  /** The connection lists of ps, as a value. */
  ghost function Links(ps: seq<Particle>): (links: map<Particle, seq<Particle>>)
    reads ps`connections
    ensures forall p :: p in links ==> p in ps
    ensures forall p :: p in ps ==> p in links && links[p] == p.connections
  {
    map p | p in ps :: p.connections
  }

  /** at and links hold the current position and connection list of every particle of ps. */
  ghost predicate Laid(ps: seq<Particle>, at: map<Particle, Vec>, links: map<Particle, seq<Particle>>)
    reads ps`pos, ps`connections
  {
    forall p :: p in ps ==> p in at && at[p] == p.pos && p in links && links[p] == p.connections
  }

  /**
   * The accumulator that held start once the springs of a particle at pos to cs have
   * pulled it, in list order, at giving the positions: SpringsPull on values.
   */
  function Pull(start: Vec, pos: Vec, cs: seq<Particle>, at: map<Particle, Vec>, sqrt: real -> real): Vec
    requires forall c :: c in cs ==> c in at
  {
    if cs == [] then start
    else Pull(start, pos, cs[..|cs| - 1], at, sqrt).Subtract(SpringExchange(pos, at[cs[|cs| - 1]], sqrt))
  }

  /** Pull is what the particle's own SpringsPull computes, as long as at holds the positions. */
  lemma {:induction false} PullIsSpringsPull(p: Particle, start: Vec, cs: seq<Particle>, at: map<Particle, Vec>,
                                             sqrt: real -> real)
    requires forall c :: c in cs ==> c in at && at[c] == c.pos
    ensures p.SpringsPull(start, cs, sqrt) == Pull(start, p.pos, cs, at, sqrt)
  {
    if cs != [] {
      PullIsSpringsPull(p, start, cs[..|cs| - 1], at, sqrt);
    }
  }

  /** Every particle of ps is a key of f, at and links, and so is every particle it is connected to. */
  predicate Loadable(f: map<Particle, Vec>, ps: seq<Particle>, at: map<Particle, Vec>, links: map<Particle, seq<Particle>>)
  {
    forall p :: p in ps ==> p in f && p in at && p in links && forall q :: q in links[p] ==> q in at
  }

  /**
   * What tickSpecialForces leaves on the accumulator of a free particle p that held start:
   * the exchanges with its two boundary ghosts, then the pull of its springs, in list order.
   */
  function SpecialPull(p: Particle, start: Vec, at: map<Particle, Vec>, links: map<Particle, seq<Particle>>,
                       sqrt: real -> real): Vec
    requires SqrtPositive(sqrt) && p in at && p in links && forall q :: q in links[p] ==> q in at
  {
    var pos := at[p];
    var gx := GhostExchange(pos, GhostX(pos, p.domain), p.epsilon, p.sigma, p.sqCutoffDis, sqrt);
    var gy := GhostExchange(pos, GhostY(pos, p.domain), p.epsilon, p.sigma, p.sqCutoffDis, sqrt);
    Pull(Pushed(Pushed(start, gx), gy), pos, links[p], at, sqrt)
  }

  /**
   * The accumulators f once p.tickSpecialForces() has run: a free p takes its SpecialPull,
   * each free particle p is connected to gains its spring force, and every other entry stays.
   */
  function AfterSpecial(f: map<Particle, Vec>, p: Particle, at: map<Particle, Vec>, links: map<Particle, seq<Particle>>,
                        sqrt: real -> real): (r: map<Particle, Vec>)
    requires SqrtPositive(sqrt) && p in f && p in at && p in links && forall q :: q in links[p] ==> q in at
    ensures r.Keys == f.Keys
  {
    map q | q in f ::
      if q == p then (if p.fixed then f[p] else SpecialPull(p, f[p], at, links, sqrt))
      else if q in links[p] && !q.fixed then f[q].Add(SpringExchange(at[p], at[q], sqrt))
      else f[q]
  }

  /** The accumulators f once tickSpecialForces has run on every particle of ps, in order. */
  function AfterSpecials(f: map<Particle, Vec>, ps: seq<Particle>, at: map<Particle, Vec>,
                         links: map<Particle, seq<Particle>>, sqrt: real -> real): (r: map<Particle, Vec>)
    requires SqrtPositive(sqrt) && Loadable(f, ps, at, links)
    ensures r.Keys == f.Keys
  {
    if ps == [] then f
    else
      var n := |ps| - 1;
      AfterSpecial(AfterSpecials(f, ps[..n], at, links, sqrt), ps[n], at, links, sqrt)
  }

  /** Running the particles up to i + 1 is running those up to i, then particle i. */
  lemma AfterSpecialsStep(f: map<Particle, Vec>, ps: seq<Particle>, at: map<Particle, Vec>,
                          links: map<Particle, seq<Particle>>, i: nat, sqrt: real -> real)
    requires SqrtPositive(sqrt) && Loadable(f, ps, at, links) && i < |ps|
    ensures Loadable(f, ps[..i], at, links) && Loadable(f, ps[..i + 1], at, links)
    ensures AfterSpecials(f, ps[..i + 1], at, links, sqrt)
      == AfterSpecial(AfterSpecials(f, ps[..i], at, links, sqrt), ps[i], at, links, sqrt)
  {
    assert ps[..i + 1][..i] == ps[..i];
  }

  /** A fixed particle's accumulator is never changed by the special forces, its own or its neighbours'. */
  lemma {:induction false} AfterSpecialsFixed(f: map<Particle, Vec>, ps: seq<Particle>, at: map<Particle, Vec>,
                                              links: map<Particle, seq<Particle>>, sqrt: real -> real, p: Particle)
    requires SqrtPositive(sqrt) && Loadable(f, ps, at, links) && p in f && p.fixed
    ensures AfterSpecials(f, ps, at, links, sqrt)[p] == f[p]
  {
    if ps != [] {
      AfterSpecialsFixed(f, ps[..|ps| - 1], at, links, sqrt, p);
    }
  }

  /**
   * A particle that is not in ps and that no particle of ps is connected to keeps its
   * accumulator: the special forces reach only the particles ticked and their springs.
   */
  lemma {:induction false} AfterSpecialsOutside(f: map<Particle, Vec>, ps: seq<Particle>, at: map<Particle, Vec>,
                                                links: map<Particle, seq<Particle>>, sqrt: real -> real, q: Particle)
    requires SqrtPositive(sqrt) && Loadable(f, ps, at, links) && q in f && q !in ps
    requires forall p :: p in ps ==> q !in links[p]
    ensures AfterSpecials(f, ps, at, links, sqrt)[q] == f[q]
  {
    if ps != [] {
      AfterSpecialsOutside(f, ps[..|ps| - 1], at, links, sqrt, q);
    }
  }

  /**
   * forEachParallel(Particle::tickSpecialForces), one particle after the other, from
   * accumulators f, with at and links the positions and connection lists: every
   * accumulator ends as AfterSpecials computes it.
   */
  method TickSpecial(ps: seq<Particle>, ghost f: map<Particle, Vec>, ghost at: map<Particle, Vec>,
                     ghost links: map<Particle, seq<Particle>>, cache: Cache.Cache2D<real, real, real>, sqrt: real -> real)
    requires SqrtPositive(sqrt) && EpsilonCacheValid(cache, sqrt) && Linked(ps)
    requires Poised(ps) && Laid(ps, at, links)
    requires forall p :: p in ps ==> p in f && p.force == f[p]
    modifies ps`force, cache
    ensures Poised(ps)
    ensures EpsilonCacheValid(cache, sqrt)
    ensures forall p :: p in ps && p.fixed ==> p.force == old(p.force)
    ensures Loadable(f, ps, at, links) && forall p :: p in ps ==> p.force == AfterSpecials(f, ps, at, links, sqrt)[p]
  {
    ApplySpecials(ps, f, at, links, cache, sqrt);
    forall p | p in ps && p.fixed ensures p.force == old(p.force) {
      AfterSpecialsFixed(f, ps, at, links, sqrt, p);
    }
    PoisedKept(ps);
  }

  /** The loop of forEachParallel(Particle::tickSpecialForces), from accumulators f. */
  method ApplySpecials(ps: seq<Particle>, ghost f: map<Particle, Vec>, ghost at: map<Particle, Vec>,
                       ghost links: map<Particle, seq<Particle>>, cache: Cache.Cache2D<real, real, real>, sqrt: real -> real)
    requires SqrtPositive(sqrt) && EpsilonCacheValid(cache, sqrt) && Linked(ps) && Laid(ps, at, links)
    requires forall p :: p in ps ==> p in f && p.force == f[p]
    modifies ps`force, cache
    ensures EpsilonCacheValid(cache, sqrt)
    ensures Loadable(f, ps, at, links) && forall p :: p in ps ==> p.force == AfterSpecials(f, ps, at, links, sqrt)[p]
  {
    assert Loadable(f, ps, at, links);
    for i := 0 to |ps|
      invariant EpsilonCacheValid(cache, sqrt) && Linked(ps) && Laid(ps, at, links)
      invariant forall p :: p in ps ==> p.force == AfterSpecials(f, ps[..i], at, links, sqrt)[p]
    {
      AfterSpecialsStep(f, ps, at, links, i, sqrt);
      TickSpecialOne(ps[i], ps, AfterSpecials(f, ps[..i], at, links, sqrt), at, links, cache, sqrt);
    }
    assert ps[..|ps|] == ps;
  }

  /** One call p.tickSpecialForces(), seen on accumulators that were g: they become AfterSpecial(g, p). */
  method TickSpecialOne(p: Particle, ghost ps: seq<Particle>, ghost g: map<Particle, Vec>, ghost at: map<Particle, Vec>,
                        ghost links: map<Particle, seq<Particle>>, cache: Cache.Cache2D<real, real, real>, sqrt: real -> real)
    requires SqrtPositive(sqrt) && EpsilonCacheValid(cache, sqrt) && Linked(ps) && Laid(ps, at, links)
    requires p in ps && forall q :: q in ps ==> q in g && q.force == g[q]
    modifies ps`force, cache
    ensures EpsilonCacheValid(cache, sqrt) && Linked(ps) && Laid(ps, at, links)
    ensures forall q :: q in ps ==> q.force == AfterSpecial(g, p, at, links, sqrt)[q]
  {
    assert forall j :: 0 <= j < |p.connections| ==> p.connections[j] in ps;
    p.TickSpecialForces(cache, sqrt);
    PullIsSpringsPull(p, Pushed(Pushed(old(p.force), GhostExchange(p.pos, GhostX(p.pos, p.domain), p.epsilon, p.sigma, p.sqCutoffDis, sqrt)),
                                GhostExchange(p.pos, GhostY(p.pos, p.domain), p.epsilon, p.sigma, p.sqCutoffDis, sqrt)),
                      p.connections, at, sqrt);
  }


  /**
   * What tickSpeed(dt) leaves on a free particle whose accumulator and speed were force0 and
   * speed0: friction lowers the accumulator by half the speed, then the Verlet step adds
   * (oldForce + force) dt / (2 mass) to the speed.
   */
  ghost predicate SpeedTicked(p: Particle, force0: Vec, speed0: Vec, dt: real)
    reads p`force, p`speed, p`oldForce
  {
    && p.force == force0.Subtract(speed0.Scale(1.0 - FRICTION_FACTOR))
    && p.speed == speed0.Add(p.oldForce.Add(p.force).Scale(dt / (2.0 * p.mass)))
  }

  /**
   * forEachParallel(p -> p.tickSpeed(dt)): every free particle is ticked (once each when
   * ps holds no particle twice); fixed ones stay.
   */
  method TickSpeeds(ps: seq<Particle>, dt: real)
    requires Poised(ps)
    modifies ps`force, ps`speed
    ensures Poised(ps)
    ensures forall p :: p in ps && p.fixed ==> p.force == old(p.force) && p.speed == old(p.speed)
    ensures NoDup(ps) ==> forall p :: p in ps && !p.fixed ==> SpeedTicked(p, old(p.force), old(p.speed), dt)
  {
    for i := 0 to |ps|
      invariant forall p :: p in ps && p.fixed ==> p.force == old(p.force) && p.speed == old(p.speed)
      invariant NoDup(ps) ==> forall k :: 0 <= k < i && !ps[k].fixed ==> SpeedTicked(ps[k], old(ps[k].force), old(ps[k].speed), dt)
      invariant NoDup(ps) ==> forall k :: i <= k < |ps| ==> ps[k].force == old(ps[k].force) && ps[k].speed == old(ps[k].speed)
    {
      var p := ps[i];
      label Before:
      p.TickSpeed(dt);
      assert !p.fixed ==> SpeedTicked(p, old@Before(p.force), old@Before(p.speed), dt);
      if NoDup(ps) {
        forall k | 0 <= k < |ps| && k != i ensures ps[k] != p {
        }
      }
    }
    if NoDup(ps) {
      forall p | p in ps && !p.fixed ensures SpeedTicked(p, old(p.force), old(p.speed), dt) {
        var k :| 0 <= k < |ps| && ps[k] == p;
        assert !ps[k].fixed;
      }
    }
    PoisedKept(ps);
  }

  /** How far tickPos(dt) moves a free particle: speed + oldForce dt^2 / (2 mass), the speed not scaled by dt. */
  ghost function Displacement(p: Particle, dt: real): Vec
    reads p`speed, p`oldForce
  {
    p.speed.Add(p.oldForce.Scale(dt / (2.0 * p.mass)).Scale(dt))
  }

  /**
   * forEachParallel(p -> p.tickPos(dt)): every free particle moves (once each when ps
   * holds no particle twice) and drops its cached bounds; fixed ones stay.
   */
  method TickPositions(ps: seq<Particle>, dt: real)
    requires Poised(ps)
    modifies ps`pos, ps`renderBounds
    ensures Poised(ps)
    ensures forall p :: p in ps && p.fixed ==> p.pos == old(p.pos) && p.renderBounds == old(p.renderBounds)
    ensures forall p :: p in ps && !p.fixed ==> p.renderBounds == None
    ensures NoDup(ps) ==> forall p :: p in ps && !p.fixed ==>
      p.pos == old(p.pos).Add(Displacement(p, dt))
  {
    for i := 0 to |ps|
      invariant forall p :: p in ps && p.fixed ==> p.pos == old(p.pos) && p.renderBounds == old(p.renderBounds)
      invariant forall k :: 0 <= k < i && !ps[k].fixed ==> ps[k].renderBounds == None
      invariant NoDup(ps) ==> forall k :: 0 <= k < i && !ps[k].fixed ==>
        ps[k].pos == old(ps[k].pos).Add(Displacement(ps[k], dt))
      invariant NoDup(ps) ==> forall k :: i <= k < |ps| ==> ps[k].pos == old(ps[k].pos)
    {
      var p := ps[i];
      label Before:
      p.TickPos(dt);
      assert !p.fixed ==> p.pos == old@Before(p.pos).Add(Displacement(p, dt));
      if NoDup(ps) {
        forall k | 0 <= k < |ps| && k != i ensures ps[k] != p {
        }
      }
    }
    forall p | p in ps && !p.fixed ensures p.renderBounds == None {
      var k :| 0 <= k < |ps| && ps[k] == p;
    }
    if NoDup(ps) {
      forall p | p in ps && !p.fixed ensures p.pos == old(p.pos).Add(Displacement(p, dt)) {
        var k :| 0 <= k < |ps| && ps[k] == p;
        assert !ps[k].fixed;
      }
    }
    PoisedKept(ps);
  }

  /**
   * forEachParallel(Particle::tickReset): every free accumulator restarts from gravity,
   * its sum handed to oldForce (once each when ps holds no particle twice); fixed ones stay.
   */
  method TickResets(ps: seq<Particle>, gravity: Vec)
    requires Poised(ps)
    modifies ps`force, ps`oldForce
    ensures Poised(ps)
    ensures forall p :: p in ps && p.fixed ==> p.force == old(p.force) && p.oldForce == old(p.oldForce)
    ensures forall p :: p in ps && !p.fixed ==> p.force == gravity
    ensures NoDup(ps) ==> forall p :: p in ps && !p.fixed ==> p.oldForce == old(p.force)
  {
    for i := 0 to |ps|
      invariant forall p :: p in ps && p.fixed ==> p.force == old(p.force) && p.oldForce == old(p.oldForce)
      invariant forall k :: 0 <= k < i && !ps[k].fixed ==> ps[k].force == gravity
      invariant NoDup(ps) ==> forall k :: 0 <= k < i && !ps[k].fixed ==> ps[k].oldForce == old(ps[k].force)
      invariant NoDup(ps) ==> forall k :: i <= k < |ps| ==> ps[k].force == old(ps[k].force)
    {
      var p := ps[i];
      label Before:
      p.TickReset(gravity);
      assert !p.fixed ==> p.oldForce == old@Before(p.force);
      if NoDup(ps) {
        forall k | 0 <= k < |ps| && k != i ensures ps[k] != p {
        }
      }
    }
    forall p | p in ps && !p.fixed ensures p.force == gravity {
      var k :| 0 <= k < |ps| && ps[k] == p;
    }
    if NoDup(ps) {
      forall p | p in ps && !p.fixed ensures p.oldForce == old(p.force) {
        var k :| 0 <= k < |ps| && ps[k] == p;
      }
    }
    PoisedKept(ps);
  }

  /**
   * The state a tick starts from and leaves behind: the grid at rest, every particle's own
   * invariant, no particle held connected to one that is not, and no connection mirrored.
   */
  ghost predicate Ready(c: ParticleContainer)
    reads c, c.blocks, c.Members
  {
    && c.AtRest()
    && (forall p :: p in c.Members ==> p.Valid())
    && (forall p, q :: p in c.Members && q in p.connections ==> q in c.Members)
    && (forall p, q :: p in c.Members && q in p.connections ==> p !in q.connections)
  }

  /**
   * What a tick leaves on a free particle that started at pos0 with speed0 and oldForce0,
   * once the pair and special forces have brought its accumulator to loaded: tickSpeed's
   * friction and Verlet step, tickPos's move with the new speed and the old oldForce, and
   * tickReset's hand-off, with gravity as the next accumulator.
   */
  ghost predicate Advanced(p: Particle, pos0: Vec, speed0: Vec, oldForce0: Vec, loaded: Vec, dt: real, gravity: Vec)
    reads p`pos, p`speed, p`force, p`oldForce
  {
    && p.oldForce == loaded.Subtract(speed0.Scale(1.0 - FRICTION_FACTOR))
    && p.speed == speed0.Add(oldForce0.Add(p.oldForce).Scale(dt / (2.0 * p.mass)))
    && p.pos == pos0.Add(p.speed.Add(oldForce0.Scale(dt / (2.0 * p.mass)).Scale(dt)))
    && p.force == gravity
  }

  /**
   * Simulation.tick(dt): the six phases in order. Ready is kept. pairs is what forEachPair
   * walks: PairsOf the particles held (Neighbours). paired and loaded are the accumulators
   * after the pair forces and after the special forces, as ForcePhases computes them from
   * the old state. When the tick's iteration holds no particle twice, every free particle
   * is Advanced from its old state with loaded as its accumulator; exactly the particles whose new position
   * maps into the grid remain, and fixed particles neither move nor leave. gone is the
   * particles dropped: every surviving particle's connections are its old ones without them,
   * in their old order. to names the block each particle's new position maps to, and the
   * blocks are the old ones with every misplaced particle moved there (Regridded).
   */
  method Step(c: ParticleContainer, dt: real, gravity: Vec, cache: Cache.Cache2D<real, real, real>, sqrt: real -> real)
    returns (ghost pairs: seq<(Particle, Particle)>, ghost paired: map<Particle, Vec>, ghost loaded: map<Particle, Vec>,
             ghost to: Particle -> IntVec, ghost gone: set<Particle>)
    requires Ready(c) && SqrtPositive(sqrt) && EpsilonCacheValid(cache, sqrt)
    modifies c, c.blocks, c.Members, cache
    ensures Ready(c) && EpsilonCacheValid(cache, sqrt)
    ensures old(allocated(pairs)) && old(Closed(c.Particles())) && old(Neighbours(2, c, c.Particles(), pairs))
    ensures forall k :: 0 <= k < |pairs| ==> pairs[k].0 in old(c.Members) && pairs[k].1 in old(c.Members)
    ensures (paired, loaded) == old(Phases(2, c.Particles(), pairs, sqrt))
    ensures forall p :: p in old(c.Members) ==> p in loaded
    ensures forall p :: p in old(c.Members) && !p.fixed ==> p.force == gravity
    ensures NoDup(old(c.Particles())) ==> forall p :: p in old(c.Members) && !p.fixed ==>
      Advanced(p, old(p.pos), old(p.speed), old(p.oldForce), loaded[p], dt, gravity)
    ensures forall p :: p in c.Members <==> p in old(c.Members) && Grids.InGrid(c.BlockPos(p.pos), c.Width(), c.Height())
    ensures forall p :: p in old(c.Members) && p.fixed ==> p in c.Members && p.pos == old(p.pos) && p.speed == old(p.speed)
    ensures forall p :: p in gone <==> p in old(c.Members) && p !in c.Members
    ensures forall p :: p in c.Members ==> p.connections == Without(old(p.connections), gone)
    ensures forall p :: p in old(c.Members) ==> to(p) == c.BlockPos(p.pos)
    ensures Regridded(2, c, old(c.Cells), to)
  {
    forall p | p in c.Members ensures Grids.InGrid(c.BlockPos(p.pos), c.Width(), c.Height()) {
      c.MemberAtRest(p);
    }
    var ns, ps := Gather(c);
    pairs := ns;
    assert Phases(2, ps, ns, sqrt) == old(Phases(2, c.Particles(), ns, sqrt));
    paired, loaded := TickParticles(ns, ps, dt, gravity, cache, sqrt);
    to, gone := Rebucket(c, ps);
  }

  /**
   * The two walks a tick starts with: forEachPair's pairs and the particles the later
   * phases visit, every particle held, all of them closed under their connections; pairs is
   * exactly c.PairsOf(ps), the pairs of neighbouring blocks (Neighbours).
   */
  method Gather(c: ParticleContainer) returns (pairs: seq<(Particle, Particle)>, ps: seq<Particle>)
    requires Ready(c)
    ensures ps == c.Particles() && Closed(ps)
    ensures Neighbours(2, c, ps, pairs)
    ensures forall p :: p in c.Members <==> p in ps
    ensures forall k :: 0 <= k < |pairs| ==> pairs[k].0 in ps && pairs[k].1 in ps
    ensures old(allocated(pairs)) && old(Closed(c.Particles())) && old(Neighbours(2, c, c.Particles(), pairs))
    ensures forall p :: p in ps ==> unchanged(p)
  {
    c.AtRestReadable();
    pairs := c.ForEachPair();
    ps := c.IterateAll();
    c.PairsWithin(pairs, ps);
    forall k | 0 <= k < |ps| ensures ps[k] in c.Members && c.NearReadable(ps[k].pos) {
      assert ps[k] in ps;
    }
    NeighboursIs(c, ps, pairs);
  }

  /** pairs is what forEachPair hands over for the particles ps of c: c.PairsOf(ps). */
  ghost predicate PairsState(c: ParticleContainer, ps: seq<Particle>, pairs: seq<(Particle, Particle)>)
    reads c, c.blocks, c.Members`pos
  {
    && c.Valid()
    && (forall k :: 0 <= k < |ps| ==> ps[k] in c.Members && c.NearReadable(ps[k].pos))
    && pairs == c.PairsOf(ps)
  }

  /**
   * PairsState behind n layers of definition, so that a caller of Gather does not unfold
   * the pair walk at every step; n only bounds that unfolding and has no meaning of its own.
   */
  ghost predicate Neighbours(n: nat, c: ParticleContainer, ps: seq<Particle>, pairs: seq<(Particle, Particle)>)
    reads c, c.blocks, c.Members`pos
    decreases n
  {
    if n == 0 then PairsState(c, ps, pairs) else Neighbours(n - 1, c, ps, pairs)
  }

  /** Neighbours(2, ..) is PairsState: the one place where it is unfolded. */
  lemma NeighboursIs(c: ParticleContainer, ps: seq<Particle>, pairs: seq<(Particle, Particle)>)
    ensures Neighbours(2, c, ps, pairs) == PairsState(c, ps, pairs)
  {
    assert Neighbours(0, c, ps, pairs) == PairsState(c, ps, pairs);
  }

  /** Every particle of ps keeps its own invariant, and ps holds every particle it is connected to. */
  ghost predicate Closed(ps: seq<Particle>)
    reads ps
  {
    Linked(ps) && Poised(ps)
  }

  /**
   * The rest of each particle's own invariant: fixed particles are at rest with empty
   * accumulators, and cached bounds belong to the current position.
   */
  ghost predicate Poised(ps: seq<Particle>)
    reads ps`pos, ps`speed, ps`force, ps`oldForce, ps`renderBounds
  {
    forall p :: p in ps ==> p.BoundsCurrent() && (p.fixed ==> p.speed == ZERO && p.force == ZERO && p.oldForce == ZERO)
  }

  /**
   * Poised survives a phase that leaves fixed particles untouched and, on each other
   * particle, either keeps the position and cached bounds or drops the bounds.
   */
  twostate lemma PoisedKept(ps: seq<Particle>)
    requires old(Poised(ps))
    requires forall p :: p in ps && p.fixed ==> unchanged(p)
    requires forall p :: p in ps ==> unchanged(p`pos, p`renderBounds) || p.renderBounds == None
    ensures Poised(ps)
  {
    forall p | p in ps ensures p.BoundsCurrent() && (p.fixed ==> p.speed == ZERO && p.force == ZERO && p.oldForce == ZERO) {
      assert old(p.BoundsCurrent());
    }
  }

  /**
   * The five particle phases of a tick, on the pairs of forEachPair and the particles ps:
   * paired and loaded are the accumulators once the pair forces, then the special forces,
   * are in, as ForcePhases computes them from the old state. Connections stay as
   * they were, fixed particles do not change at all, and when ps holds no particle twice
   * every free particle is Advanced from its old state.
   */
  method TickParticles(pairs: seq<(Particle, Particle)>, ps: seq<Particle>, dt: real, gravity: Vec,
                       cache: Cache.Cache2D<real, real, real>, sqrt: real -> real)
    returns (ghost paired: map<Particle, Vec>, ghost loaded: map<Particle, Vec>)
    requires SqrtPositive(sqrt) && EpsilonCacheValid(cache, sqrt) && Closed(ps)
    requires forall k :: 0 <= k < |pairs| ==> pairs[k].0 in ps && pairs[k].1 in ps
    modifies ps`force, ps`speed, ps`pos, ps`renderBounds, ps`oldForce, cache
    ensures EpsilonCacheValid(cache, sqrt) && Closed(ps)
    ensures (paired, loaded) == old(Phases(2, ps, pairs, sqrt))
    ensures forall p :: p in ps ==> p in loaded
    ensures forall p :: p in ps && !p.fixed ==> p.force == gravity
    ensures forall p :: p in ps && p.fixed ==> p.pos == old(p.pos) && p.speed == old(p.speed)
    ensures NoDup(ps) ==> forall p :: p in ps && !p.fixed ==>
      Advanced(p, old(p.pos), old(p.speed), old(p.oldForce), loaded[p], dt, gravity)
  {
    paired, loaded := TickForces(pairs, ps, cache, sqrt);
    TickMotion(ps, dt, gravity);
  }

  /**
   * What the two force phases make of the accumulators of ps: AfterPairs of them over
   * pairs, then AfterSpecials of that, with the positions and connection lists of ps.
   */
  ghost function ForcePhases(ps: seq<Particle>, pairs: seq<(Particle, Particle)>, sqrt: real -> real)
    : (map<Particle, Vec>, map<Particle, Vec>)
    reads ps`force, ps`pos, ps`connections
    requires SqrtPositive(sqrt) && Linked(ps)
    requires forall k :: 0 <= k < |pairs| ==> pairs[k].0 in ps && pairs[k].1 in ps
  {
    var paired := AfterPairs(Forces(ps), pairs, sqrt);
    assert Loadable(paired, ps, Positions(ps), Links(ps));
    (paired, AfterSpecials(paired, ps, Positions(ps), Links(ps), sqrt))
  }

  /**
   * ForcePhases behind n layers of definition, so that the callers of the force phases do
   * not unfold them at every step; n only bounds that unfolding and has no meaning of its own.
   */
  ghost function Phases(n: nat, ps: seq<Particle>, pairs: seq<(Particle, Particle)>, sqrt: real -> real)
    : (map<Particle, Vec>, map<Particle, Vec>)
    reads ps`force, ps`pos, ps`connections
    requires SqrtPositive(sqrt) && Linked(ps)
    requires forall k :: 0 <= k < |pairs| ==> pairs[k].0 in ps && pairs[k].1 in ps
    decreases n
  {
    if n == 0 then ForcePhases(ps, pairs, sqrt) else Phases(n - 1, ps, pairs, sqrt)
  }

  /** Phases(2, ..) is ForcePhases: the one place where it is unfolded. */
  lemma PhasesIs(ps: seq<Particle>, pairs: seq<(Particle, Particle)>, sqrt: real -> real)
    requires SqrtPositive(sqrt) && Linked(ps)
    requires forall k :: 0 <= k < |pairs| ==> pairs[k].0 in ps && pairs[k].1 in ps
    ensures Phases(2, ps, pairs, sqrt) == ForcePhases(ps, pairs, sqrt)
  {
    assert Phases(0, ps, pairs, sqrt) == ForcePhases(ps, pairs, sqrt);
  }

  /** Phases(2, ..) spelled out on the state it is taken in, with that state's positions and connection lists. */
  lemma PhasesAt(ps: seq<Particle>, pairs: seq<(Particle, Particle)>, sqrt: real -> real)
    returns (paired: map<Particle, Vec>, loaded: map<Particle, Vec>)
    requires SqrtPositive(sqrt) && Linked(ps)
    requires forall k :: 0 <= k < |pairs| ==> pairs[k].0 in ps && pairs[k].1 in ps
    ensures (paired, loaded) == Phases(2, ps, pairs, sqrt)
    ensures Covers(Forces(ps), pairs) && paired == AfterPairs(Forces(ps), pairs, sqrt)
    ensures Laid(ps, Positions(ps), Links(ps)) && Loadable(paired, ps, Positions(ps), Links(ps))
    ensures loaded == AfterSpecials(paired, ps, Positions(ps), Links(ps), sqrt)
    ensures forall p :: p in loaded <==> p in ps
  {
    PhasesIs(ps, pairs, sqrt);
    paired := AfterPairs(Forces(ps), pairs, sqrt);
    loaded := AfterSpecials(paired, ps, Positions(ps), Links(ps), sqrt);
  }

  /**
   * forEachPair(tickForceTo) and then tickSpecialForces: only the accumulators change.
   * paired is what they hold between the two phases and loaded what they hold afterwards,
   * as ForcePhases computes them from the old state; a fixed particle's stays as it was.
   */
  method TickForces(pairs: seq<(Particle, Particle)>, ps: seq<Particle>, cache: Cache.Cache2D<real, real, real>,
                    sqrt: real -> real)
    returns (ghost paired: map<Particle, Vec>, ghost loaded: map<Particle, Vec>)
    requires SqrtPositive(sqrt) && EpsilonCacheValid(cache, sqrt) && Closed(ps)
    requires forall k :: 0 <= k < |pairs| ==> pairs[k].0 in ps && pairs[k].1 in ps
    modifies ps`force, cache
    ensures EpsilonCacheValid(cache, sqrt) && Poised(ps)
    ensures (paired, loaded) == old(Phases(2, ps, pairs, sqrt))
    ensures forall p :: p in ps ==> p in loaded && loaded[p] == p.force
    ensures forall p :: p in ps && p.fixed ==> p.force == old(p.force)
  {
    ghost var at, links := Positions(ps), Links(ps);
    paired, loaded := PhasesAt(ps, pairs, sqrt);
    TickPairs(pairs, ps, cache, sqrt);
    TickSpecial(ps, paired, at, links, cache, sqrt);
    ForcesAre(ps, loaded);
  }


  /**
   * tickSpeed, tickPos and tickReset in turn: fixed particles do not change, and when ps
   * holds no particle twice every free particle is Advanced with its accumulator as loaded.
   */
  method TickMotion(ps: seq<Particle>, dt: real, gravity: Vec)
    requires Poised(ps)
    modifies ps`force, ps`speed, ps`pos, ps`renderBounds, ps`oldForce
    ensures Poised(ps)
    ensures forall p :: p in ps && p.fixed ==> unchanged(p)
    ensures forall p :: p in ps && !p.fixed ==> p.force == gravity && p.renderBounds == None
    ensures NoDup(ps) ==> forall p :: p in ps && !p.fixed ==>
      Advanced(p, old(p.pos), old(p.speed), old(p.oldForce), old(p.force), dt, gravity)
  {
    TickSpeeds(ps, dt);
    label Sped:
    TickPositions(ps, dt);
    label Moved:
    TickResets(ps, gravity);
    if NoDup(ps) {
      forall p | p in ps && !p.fixed
        ensures Advanced(p, old(p.pos), old(p.speed), old(p.oldForce), old(p.force), dt, gravity)
      {
        ghost var force0, speed0 := old(p.force), old(p.speed);
        assert old@Sped(SpeedTicked(p, force0, speed0, dt));
        assert p.pos == old@Moved(p.pos) == old@Sped(p.pos).Add(old@Moved(Displacement(p, dt)));
      }
    }
  }

  /**
   * The blocks of c are those of g0 after updateBlocks' two passes, to naming the block
   * each particle belongs in: its misplaced particles collected, then moved in turn.
   */
  ghost predicate RegridState(c: ParticleContainer, g0: Grids.Grid<Particle>, to: Particle -> IntVec)
    reads c
  {
    && Grids.Rectangular(g0, c.Width(), c.Height())
    && c.Cells == Grids.ApplyMoves(g0, c.Width(), c.Height(), Grids.Misplaced(g0, c.Width(), c.Height(), to))
  }

  /**
   * RegridState behind n layers of definition, so that a caller of Rebucket does not unfold
   * the moves at every step; n only bounds that unfolding and has no meaning of its own.
   */
  ghost predicate Regridded(n: nat, c: ParticleContainer, g0: Grids.Grid<Particle>, to: Particle -> IntVec)
    reads c
    decreases n
  {
    if n == 0 then RegridState(c, g0, to) else Regridded(n - 1, c, g0, to)
  }

  /** Regridded(2, ..) is RegridState: the one place where it is unfolded. */
  lemma RegriddedIs(c: ParticleContainer, g0: Grids.Grid<Particle>, to: Particle -> IntVec)
    ensures Regridded(2, c, g0, to) == RegridState(c, g0, to)
  {
    assert Regridded(0, c, g0, to) == RegridState(c, g0, to);
  }

  /**
   * updateBlocks at the end of a tick: the particles ps held by c, closed under their
   * connections, are re-bucketed and those whose block is off the grid dropped. to names
   * the block each particle belongs in, and gone is the particles dropped: every connection
   * to them is severed, and every other connection kept in its order.
   */
  method Rebucket(c: ParticleContainer, ghost ps: seq<Particle>)
    returns (ghost to: Particle -> IntVec, ghost gone: set<Particle>)
    requires c.Valid() && Closed(ps) && forall p :: p in c.Members <==> p in ps
    modifies c, c.blocks, c.Members`connections
    ensures Ready(c)
    ensures forall p :: p in c.Members <==> p in ps && Grids.InGrid(c.BlockPos(p.pos), c.Width(), c.Height())
    ensures forall p :: p in gone <==> p in old(c.Members) && p !in c.Members
    ensures forall p :: p in old(c.Members) ==> to(p) == c.BlockPos(p.pos)
    ensures Regridded(2, c, old(c.Cells), to)
    ensures forall q :: q in c.Members ==> q.connections == Without(old(q.connections), gone)
  {
    to := c.Targets();
    gone := c.Departing();
    c.UpdateBlocks();
    RegriddedIs(c, old(c.Cells), to);
    forall p | p in c.Members ensures p.Valid() && forall q :: q in p.connections ==> q in c.Members {
      assert p in ps;
      ghost var cs := old(p.connections);
      WithoutNoDup(cs, gone);
      WithoutMembership(cs, gone, p);
      forall q | q in p.connections ensures q in c.Members {
        WithoutMembership(cs, gone, q);
      }
    }
    forall p, q | p in c.Members && q in p.connections ensures p !in q.connections {
      assert q in ps;
      WithoutMembership(old(p.connections), gone, q);
      WithoutMembership(old(q.connections), gone, p);
    }
  }
}
