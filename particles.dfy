/**
 * Particle.java and FixedParticle.java: a dot particle with Verlet state, a force
 * accumulator and spring connections, and its unmovable variant.
 *
 * Doubles are modelled as exact reals. Math.sqrt is a parameter `sqrt`, of which only
 * positivity on positive input is assumed (it is what keeps `sigma / d` defined).
 */
module Particles {
  import opened Options
  import opened Lists
  import opened Vectors
  import MathUtil
  import Cache

  /** Spring factor k of a connection. */
  const CONNECTION_STIFFNESS: real := 0.0001
  /** Share of the speed that friction takes away per tick. */
  const FRICTION_FACTOR: real := 0.5
  /** Radius of the circle a particle is drawn as, in px. */
  const RENDER_RADIUS: real := 10.0

  /** Masses are positive: tickSpeed and tickPos divide by twice the mass. */
  type Mass = m: real | m > 0.0 witness 1.0

  /** What a particle reads from its simulation: cutoff distance and frame size in px. */
  datatype Domain = Domain(cutoff: real, width: real, height: real)

  /**
   * java.awt.geom.Ellipse2D.Double(x, y, width, height): the ellipse inscribed in the frame
   * whose top left corner is (x, y).
   */
  datatype Ellipse = Ellipse(x: real, y: real, width: real, height: real)
  {
    /**
     * Ellipse2D.contains(x, y): false for an empty frame; otherwise the point, normalized
     * to the frame and moved by -0.5, lies strictly within distance 0.5 of the origin.
     */
    predicate Contains(v: Vec)
    {
      if width <= 0.0 then false
      else
        var nx := (v.x - x) / width - 0.5;
        if height <= 0.0 then false
        else
          var ny := (v.y - y) / height - 0.5;
          nx * nx + ny * ny < 0.25
    }
  }

  /** The frame getRenderBounds builds: the square of side 2r centred on c. */
  function CircleAround(c: Vec, r: real): Ellipse
  {
    Ellipse(c.x - r, c.y - r, r * 2.0, r * 2.0)
  }

  /** A circle of positive radius contains exactly the points closer to its centre than the radius. */
  lemma CircleContains(c: Vec, r: real, v: Vec)
    requires r > 0.0
    ensures CircleAround(c, r).Contains(v) <==> v.Subtract(c).SqLength() < r * r
  {
    var e := CircleAround(c, r);
    var dx, dy := v.x - c.x, v.y - c.y;
    var nx := (v.x - e.x) / e.width - 0.5;
    var ny := (v.y - e.y) / e.height - 0.5;
    assert nx * (2.0 * r) == dx;
    assert ny * (2.0 * r) == dy;
    assert v.Subtract(c).SqLength() == dx * dx + dy * dy;
    assert e.Contains(v) == (nx * nx + ny * ny < 0.25);
    NormalizedDistance(nx, ny, dx, dy, r);
  }

  /** Offsets normalized by the diameter 2r lie within 0.5 exactly when the offsets lie within r. */
  lemma NormalizedDistance(nx: real, ny: real, dx: real, dy: real, r: real)
    requires r > 0.0 && nx * (2.0 * r) == dx && ny * (2.0 * r) == dy
    ensures nx * nx + ny * ny < 0.25 <==> dx * dx + dy * dy < r * r
  {
    var d := 2.0 * r;
    var a := nx * nx + ny * ny;
    SquareOfProduct(nx, d);
    SquareOfProduct(ny, d);
    assert (a * d) * d == (nx * nx) * (d * d) + (ny * ny) * (d * d);
    assert (0.25 * d) * d == r * r by {
      SquareOfProduct(2.0, r);
    }
    Rescale(a, 0.25, d);
    Rescale(a * d, 0.25 * d, d);
  }

  lemma SquareOfProduct(a: real, b: real)
    ensures (a * b) * (a * b) == (a * a) * (b * b)
  {
  }

  /** Multiplying both sides by the same positive factor keeps a strict order, in both directions. */
  lemma Rescale(a: real, b: real, k: real)
    requires k > 0.0
    ensures a < b <==> a * k < b * k
  {
    if a < b {
      assert (b - a) * k > 0.0;
    } else {
      assert (a - b) * k >= 0.0;
    }
  }

  /** A circle of radius 0 or less contains nothing. */
  lemma EmptyCircle(c: Vec, r: real, v: Vec)
    requires r <= 0.0
    ensures !CircleAround(c, r).Contains(v)
  {
  }

  ghost predicate SqrtPositive(sqrt: real -> real)
  {
    forall x: real :: x > 0.0 ==> sqrt(x) > 0.0
  }

  /** The shared epsilon cache holds, for every key pair (a, b), the geometric mean sqrt(a * b). */
  ghost predicate EpsilonCacheValid(cache: Cache.Cache2D<real, real, real>, sqrt: real -> real)
    reads cache
  {
    forall a: real, b: real :: cache.Present(a, b) ==> cache.Lookup(a, b) == GeometricMean(sqrt, a, b)
  }

  /** combinedEpsilon's value: sqrt(a * b). */
  function GeometricMean(sqrt: real -> real, a: real, b: real): real
  {
    sqrt(a * b)
  }

  /** The combined epsilon does not depend on which particle comes first. */
  lemma GeometricMeanSymmetric(sqrt: real -> real, a: real, b: real)
    ensures GeometricMean(sqrt, a, b) == GeometricMean(sqrt, b, a)
  {
    assert a * b == b * a;
  }

  /**
   * The Lennard-Jones force dx * 24 eps / d^2 ((s/d)^6 - 2 (s/d)^12), as tickForceTo
   * writes it, for the difference dx, its squared length sqDis and its length d.
   */
  function LennardJonesForce(dx: Vec, sqDis: real, d: real, eps: real, sigma: real): Vec
    requires sqDis != 0.0 && d != 0.0
  {
    var s6 := MathUtil.FastPow6(sigma / d);
    var s12 := s6 * s6;
    dx.Scale(24.0 * eps / sqDis * (s6 - 2.0 * s12))
  }

  /**
   * The force tickForceTo takes from particle 1 and gives to particle 2, or None when
   * the pair is skipped: coincident positions or a squared distance beyond the cutoff.
   */
  function PairExchange(pos1: Vec, pos2: Vec, eps1: real, eps2: real, sigma1: real, sigma2: real,
                        sqCutoff: real, sqrt: real -> real): (r: Option<Vec>)
    requires SqrtPositive(sqrt)
    ensures r.None? <==> pos1.Subtract(pos2).SqLength() == 0.0 || pos1.Subtract(pos2).SqLength() > sqCutoff
    ensures pos1 == pos2 ==> r.None?
  {
    var dx := pos1.Subtract(pos2);
    var sqDis := dx.SqLength();
    if sqDis == 0.0 then None
    else if sqDis > sqCutoff then None
    else
      var d := sqrt(sqDis);
      var eps := GeometricMean(sqrt, eps1, eps2);
      var sigma := 0.5 * (sigma1 + sigma2);
      Some(LennardJonesForce(dx, sqDis, d, eps, sigma))
  }

  /** The negation of an optional force. */
  function Negated(ex: Option<Vec>): Option<Vec>
  {
    if ex.Some? then Some(ex.value.Scale(-1.0)) else None
  }

  /**
   * Newton's third law for the Lennard-Jones exchange: seen from the other particle,
   * the pair is skipped in the same cases, and otherwise the force is the opposite one.
   */
  lemma PairExchangeAntisymmetric(pos1: Vec, pos2: Vec, eps1: real, eps2: real, sigma1: real, sigma2: real,
                                  sqCutoff: real, sqrt: real -> real)
    requires SqrtPositive(sqrt)
    ensures PairExchange(pos2, pos1, eps2, eps1, sigma2, sigma1, sqCutoff, sqrt)
         == Negated(PairExchange(pos1, pos2, eps1, eps2, sigma1, sigma2, sqCutoff, sqrt))
  {
    var dx := pos1.Subtract(pos2);
    SubtractAntisymmetric(pos2, pos1);
    var sqDis := dx.SqLength();
    if sqDis != 0.0 && sqDis <= sqCutoff {
      GeometricMeanSymmetric(sqrt, eps1, eps2);
      var d, eps, sigma := sqrt(sqDis), GeometricMean(sqrt, eps1, eps2), 0.5 * (sigma1 + sigma2);
      assert 0.5 * (sigma2 + sigma1) == sigma;
      LennardJonesForceOdd(dx, sqDis, d, eps, sigma);
    }
  }

  /** Reversing the difference vector reverses the Lennard-Jones force. */
  lemma LennardJonesForceOdd(dx: Vec, sqDis: real, d: real, eps: real, sigma: real)
    requires sqDis != 0.0 && d != 0.0
    ensures LennardJonesForce(dx.Scale(-1.0), sqDis, d, eps, sigma) == LennardJonesForce(dx, sqDis, d, eps, sigma).Scale(-1.0)
  {
    var s6 := MathUtil.FastPow6(sigma / d);
    ScaleNegate(dx, 24.0 * eps / sqDis * (s6 - 2.0 * (s6 * s6)));
  }

  /** The spring force tickAttractionTo moves between two connected particles: dx * (k |dx|). */
  function SpringExchange(pos1: Vec, pos2: Vec, sqrt: real -> real): Vec
  {
    var dx := pos1.Subtract(pos2);
    dx.Scale(CONNECTION_STIFFNESS * sqrt(dx.SqLength()))
  }

  /** The spring pulls both ends with opposite forces. */
  lemma SpringExchangeAntisymmetric(pos1: Vec, pos2: Vec, sqrt: real -> real)
    ensures SpringExchange(pos2, pos1, sqrt) == SpringExchange(pos1, pos2, sqrt).Scale(-1.0)
  {
    var dx := pos1.Subtract(pos2);
    SubtractAntisymmetric(pos2, pos1);
    ScaleNegate(dx, CONNECTION_STIFFNESS * sqrt(dx.SqLength()));
  }

  /** A force accumulator after an optional exchange was subtracted from it. */
  function Pushed(force: Vec, ex: Option<Vec>): Vec
  {
    if ex.Some? then force.Subtract(ex.value) else force
  }

  /**
   * The horizontal boundary ghost of tickBoundaryForce: the position mirrored at the
   * left edge when closer than half the cutoff to it, else at the right edge when closer
   * than that to it.
   */
  function GhostX(pos: Vec, dom: Domain): (g: Option<Vec>)
    ensures g.Some? ==> g.value.y == pos.y && g.value.x + pos.x in {0.0, 2.0 * dom.width}
  {
    var r := dom.cutoff / 2.0;
    if pos.x < r then Some(Vec(-pos.x, pos.y))
    else if pos.x > dom.width - r then Some(Vec(2.0 * dom.width - pos.x, pos.y))
    else None
  }

  /** The vertical boundary ghost, by the same rule on the y axis. */
  function GhostY(pos: Vec, dom: Domain): (g: Option<Vec>)
    ensures g.Some? ==> g.value.x == pos.x && g.value.y + pos.y in {0.0, 2.0 * dom.height}
  {
    var r := dom.cutoff / 2.0;
    if pos.y < r then Some(Vec(pos.x, -pos.y))
    else if pos.y > dom.height - r then Some(Vec(pos.x, 2.0 * dom.height - pos.y))
    else None
  }

  /** A particle at least half a cutoff away from every edge gets no ghost at all. */
  lemma NoGhostInside(pos: Vec, dom: Domain)
    requires dom.cutoff / 2.0 <= pos.x <= dom.width - dom.cutoff / 2.0
    requires dom.cutoff / 2.0 <= pos.y <= dom.height - dom.cutoff / 2.0
    ensures GhostX(pos, dom) == None && GhostY(pos, dom) == None
  {
  }

  /** A particle closer than half a cutoff to the left edge is mirrored at it, whatever the width. */
  lemma GhostLeftFirst(pos: Vec, dom: Domain)
    requires pos.x < dom.cutoff / 2.0
    ensures GhostX(pos, dom) == Some(Vec(-pos.x, pos.y))
  {
  }

  /** The exchange with a ghost that copies the particle's epsilon and sigma, if there is a ghost. */
  function GhostExchange(pos: Vec, image: Option<Vec>, eps: real, sigma: real, sqCutoff: real,
                         sqrt: real -> real): Option<Vec>
    requires SqrtPositive(sqrt)
  {
    if image.Some? then PairExchange(pos, image.value, eps, eps, sigma, sigma, sqCutoff, sqrt) else None
  }

  /**
   * connectWith: p is appended unless it is the particle itself, already connected, or
   * already holding the particle among its own connections.
   */
  function Connect<T(==)>(cs: seq<T>, self: T, p: T, pcs: seq<T>): seq<T>
  {
    if p != self && p !in cs && self !in pcs then cs + [p] else cs
  }

  /** Connecting keeps a connection list irreflexive and duplicate-free. */
  lemma ConnectKeepsNoDup<T>(cs: seq<T>, self: T, p: T, pcs: seq<T>)
    requires self !in cs && NoDup(cs)
    ensures self !in Connect(cs, self, p, pcs) && NoDup(Connect(cs, self, p, pcs))
  {
    var r := Connect(cs, self, p, pcs);
    if r != cs {
      forall i, j | 0 <= i < j < |r| ensures r[i] != r[j] {
        if j == |cs| { assert r[i] == cs[i]; }
      }
    }
  }

  /**
   * p is connected afterwards exactly when it was before, or it is another particle
   * that does not hold the mirrored connection; no other particle is added.
   */
  lemma ConnectMembership<T>(cs: seq<T>, self: T, p: T, pcs: seq<T>, q: T)
    ensures q in Connect(cs, self, p, pcs) <==> q in cs || (q == p && p != self && self !in pcs)
  {
  }

  /**
   * Connecting creates no mirrored pair: if p's list holds self afterwards and self's list
   * holds p, both held each other before. Other entries are left as they were.
   */
  lemma ConnectNoMirror<T>(cs: seq<T>, self: T, p: T, pcs: seq<T>)
    ensures p in Connect(cs, self, p, pcs) && self in pcs ==> p in cs
    ensures forall q :: q != p ==> (q in Connect(cs, self, p, pcs) <==> q in cs)
  {
  }

  /** Connecting twice is connecting once. */
  lemma ConnectIdempotent<T>(cs: seq<T>, self: T, p: T, pcs: seq<T>)
    ensures Connect(Connect(cs, self, p, pcs), self, p, pcs) == Connect(cs, self, p, pcs)
  {
  }

  class Particle {
    /** Set for a FixedParticle: every mutator that would move it or load its force is a no-op. */
    const fixed: bool
    const domain: Domain
    const mass: Mass
    const epsilon: real
    const sigma: real
    const sqCutoffDis: real
    var pos: Vec
    var speed: Vec
    var force: Vec
    var oldForce: Vec
    var renderBounds: Option<Ellipse>
    var connections: seq<Particle>

    /** The circle getRenderBounds draws at the current position. */
    function Bounds(): Ellipse
      reads this`pos
    {
      CircleAround(pos, RENDER_RADIUS)
    }

    /**
     * The particle's own invariant: it is not connected to itself nor twice to another
     * particle, a fixed particle is at rest with empty accumulators, and a cached
     * bounds object is the one for the current position.
     */
    ghost predicate Valid()
      reads this
    {
      && this !in connections
      && NoDup(connections)
      && (fixed ==> speed == ZERO && force == ZERO && oldForce == ZERO)
      && BoundsCurrent()
    }

    /** A cached bounds object, if any, is the one for the current position. */
    ghost predicate BoundsCurrent()
      reads this`pos, this`renderBounds
    {
      renderBounds.Some? ==> renderBounds.value == Bounds()
    }

    /** A particle at rest: zero speed and forces, no connections, cutoff squared. */
    constructor(domain: Domain, pos: Vec, mass: Mass, epsilon: real, sigma: real)
      ensures this.domain == domain && this.pos == pos && this.mass == mass
      ensures this.epsilon == epsilon && this.sigma == sigma && !fixed
      ensures speed == ZERO && force == ZERO && oldForce == ZERO
      ensures sqCutoffDis == domain.cutoff * domain.cutoff
      ensures renderBounds == None && connections == []
      ensures Valid()
    {
      this.fixed := false;
      this.domain := domain;
      this.pos := pos;
      this.speed, this.force, this.oldForce := ZERO, ZERO, ZERO;
      this.mass := mass;
      this.epsilon := epsilon;
      this.sigma := sigma;
      this.sqCutoffDis := domain.cutoff * domain.cutoff;
      this.renderBounds := None;
      this.connections := [];
    }

    /** The FixedParticle constructor: the inherited initial state, marked fixed. */
    constructor Fixed(domain: Domain, pos: Vec, mass: Mass, epsilon: real, sigma: real)
      ensures this.domain == domain && this.pos == pos && this.mass == mass
      ensures this.epsilon == epsilon && this.sigma == sigma && fixed
      ensures speed == ZERO && force == ZERO && oldForce == ZERO
      ensures sqCutoffDis == domain.cutoff * domain.cutoff
      ensures renderBounds == None && connections == []
      ensures Valid()
    {
      this.fixed := true;
      this.domain := domain;
      this.pos := pos;
      this.speed, this.force, this.oldForce := ZERO, ZERO, ZERO;
      this.mass := mass;
      this.epsilon := epsilon;
      this.sigma := sigma;
      this.sqCutoffDis := domain.cutoff * domain.cutoff;
      this.renderBounds := None;
      this.connections := [];
    }

    /** The geometric mean of two epsilons, taken from the shared cache or computed into it. */
    static method CombinedEpsilon(e1: real, e2: real, cache: Cache.Cache2D<real, real, real>, sqrt: real -> real)
      returns (r: real)
      requires EpsilonCacheValid(cache, sqrt)
      modifies cache
      ensures r == GeometricMean(sqrt, e1, e2)
      ensures EpsilonCacheValid(cache, sqrt)
    {
      r := cache.StoreIfAbsent(e1, e2, () => sqrt(e1 * e2));
      forall a: real, b: real | cache.Present(a, b) ensures cache.Lookup(a, b) == GeometricMean(sqrt, a, b) {
        if Cache.Stored(old(cache.nested), a, b) {
          assert old(cache.Present(a, b));
        }
      }
    }

    /** Adds df to the accumulator; a fixed particle ignores it. */
    method AddForce(df: Vec)
      modifies this`force
      ensures force == if fixed then old(force) else old(force).Add(df)
    {
      if !fixed {
        force := force.Add(df);
      }
    }

    /** Subtracts df from the accumulator; a fixed particle ignores it. */
    method SubtractForce(df: Vec)
      modifies this`force
      ensures force == if fixed then old(force) else old(force).Subtract(df)
    {
      if !fixed {
        force := force.Subtract(df);
      }
    }

    /**
     * The Lennard-Jones interaction with p: the exchange is taken from this particle and
     * given to p (each side unless fixed), and nothing happens when the pair is skipped.
     */
    method TickForceTo(p: Particle, cache: Cache.Cache2D<real, real, real>, sqrt: real -> real)
      requires SqrtPositive(sqrt) && EpsilonCacheValid(cache, sqrt)
      modifies this`force, p`force, cache
      ensures EpsilonCacheValid(cache, sqrt)
      ensures var ex := PairExchange(pos, p.pos, epsilon, p.epsilon, sigma, p.sigma, sqCutoffDis, sqrt);
        && (ex.None? ==> force == old(force) && p.force == old(p.force))
        && (ex.Some? ==>
              && p != this
              && force == (if fixed then old(force) else old(force).Subtract(ex.value))
              && p.force == (if p.fixed then old(p.force) else old(p.force).Add(ex.value)))
      ensures !fixed && !p.fixed ==> force.Add(p.force) == old(force.Add(p.force))
    {
      var ex := Exchange(pos, p.pos, epsilon, p.epsilon, sigma, p.sigma, sqCutoffDis, cache, sqrt);
      if ex.Some? {
        SubtractForce(ex.value);
        p.AddForce(ex.value);
        ExchangeKeepsSum(old(force), old(p.force), ex.value);
      }
    }

    /**
     * The computing half of tickForceTo: the two skip tests on the squared distance, then
     * the combined epsilon (through the cache), the mean sigma and the force.
     */
    static method Exchange(pos1: Vec, pos2: Vec, eps1: real, eps2: real, sigma1: real, sigma2: real, sqCutoff: real,
                           cache: Cache.Cache2D<real, real, real>, sqrt: real -> real)
      returns (ex: Option<Vec>)
      requires SqrtPositive(sqrt) && EpsilonCacheValid(cache, sqrt)
      modifies cache
      ensures ex == PairExchange(pos1, pos2, eps1, eps2, sigma1, sigma2, sqCutoff, sqrt)
      ensures EpsilonCacheValid(cache, sqrt)
    {
      var dx := pos1.Subtract(pos2);
      var sqDis := dx.SqLength();
      if sqDis == 0.0 || sqDis > sqCutoff {
        return None;
      }
      var d := sqrt(sqDis);
      var eps := CombinedEpsilon(eps1, eps2, cache, sqrt);
      var sig := 0.5 * (sigma1 + sigma2);
      ex := Some(LennardJonesForce(dx, sqDis, d, eps, sig));
    }

    /**
     * One ghost of tickBoundaryForce: a fresh particle with this particle's mass, epsilon
     * and sigma at the mirrored position, to which the Lennard-Jones force is applied.
     */
    method TickGhostForce(image: Vec, cache: Cache.Cache2D<real, real, real>, sqrt: real -> real)
      requires SqrtPositive(sqrt) && EpsilonCacheValid(cache, sqrt)
      modifies this`force, cache
      ensures EpsilonCacheValid(cache, sqrt)
      ensures force == if fixed then old(force) else
        Pushed(old(force), GhostExchange(pos, Some(image), epsilon, sigma, sqCutoffDis, sqrt))
    {
      var mirror := new Particle(domain, image, mass, epsilon, sigma);
      ghost var ex := PairExchange(pos, mirror.pos, epsilon, mirror.epsilon, sigma, mirror.sigma, sqCutoffDis, sqrt);
      assert ex == GhostExchange(pos, Some(image), epsilon, sigma, sqCutoffDis, sqrt);
      TickForceTo(mirror, cache, sqrt);
      assert force == if fixed then old(force) else Pushed(old(force), ex);
    }

    /** The horizontal half of tickBoundaryForce: the force to the ghost beyond the nearer side edge, if any. */
    method TickGhostX(cache: Cache.Cache2D<real, real, real>, sqrt: real -> real)
      requires SqrtPositive(sqrt) && EpsilonCacheValid(cache, sqrt)
      modifies this`force, cache
      ensures EpsilonCacheValid(cache, sqrt)
      ensures force == if fixed then old(force) else
        Pushed(old(force), GhostExchange(pos, GhostX(pos, domain), epsilon, sigma, sqCutoffDis, sqrt))
    {
      var r := domain.cutoff / 2.0;
      if pos.x < r {
        TickGhostForce(Vec(-pos.x, pos.y), cache, sqrt);
      } else if pos.x > domain.width - r {
        TickGhostForce(Vec(2.0 * domain.width - pos.x, pos.y), cache, sqrt);
      }
    }

    /** The vertical half of tickBoundaryForce, by the same rule on the y axis. */
    method TickGhostY(cache: Cache.Cache2D<real, real, real>, sqrt: real -> real)
      requires SqrtPositive(sqrt) && EpsilonCacheValid(cache, sqrt)
      modifies this`force, cache
      ensures EpsilonCacheValid(cache, sqrt)
      ensures force == if fixed then old(force) else
        Pushed(old(force), GhostExchange(pos, GhostY(pos, domain), epsilon, sigma, sqCutoffDis, sqrt))
    {
      var r := domain.cutoff / 2.0;
      if pos.y < r {
        TickGhostForce(Vec(pos.x, -pos.y), cache, sqrt);
      } else if pos.y > domain.height - r {
        TickGhostForce(Vec(pos.x, 2.0 * domain.height - pos.y), cache, sqrt);
      }
    }

    /**
     * tickBoundaryForce: a ghost for each axis where the particle is within half a cutoff
     * of an edge, the left (top) edge taking precedence. A fixed particle skips this.
     */
    method TickBoundaryForce(cache: Cache.Cache2D<real, real, real>, sqrt: real -> real)
      requires SqrtPositive(sqrt) && EpsilonCacheValid(cache, sqrt)
      modifies this`force, cache
      ensures EpsilonCacheValid(cache, sqrt)
      ensures force == if fixed then old(force) else
        Pushed(Pushed(old(force), GhostExchange(pos, GhostX(pos, domain), epsilon, sigma, sqCutoffDis, sqrt)),
               GhostExchange(pos, GhostY(pos, domain), epsilon, sigma, sqCutoffDis, sqrt))
    {
      if fixed {
        return;
      }
      TickGhostX(cache, sqrt);
      TickGhostY(cache, sqrt);
    }

    /** The spring force to a connected particle p, taken from this particle and given to p. */
    method TickAttractionTo(p: Particle, sqrt: real -> real)
      modifies this`force, p`force
      ensures var df := SpringExchange(pos, p.pos, sqrt);
        && (p != this ==> force == (if fixed then old(force) else old(force).Subtract(df)))
        && (p != this ==> p.force == (if p.fixed then old(p.force) else old(p.force).Add(df)))
      ensures p == this ==> force == old(force)
    {
      var dx := pos.Subtract(p.pos);
      var d := sqrt(dx.SqLength());
      var f := CONNECTION_STIFFNESS * d;
      var df := dx.Scale(f);
      SubtractForce(df);
      p.AddForce(df);
      AddSubtractInverse(old(force), df);
    }

    /** The force left on this particle after the springs to cs pulled it, in list order. */
    ghost function SpringsPull(start: Vec, cs: seq<Particle>, sqrt: real -> real): Vec
      reads this`pos, cs`pos
    {
      if cs == [] then start
      else SpringsPull(start, cs[..|cs| - 1], sqrt).Subtract(SpringExchange(pos, cs[|cs| - 1].pos, sqrt))
    }

    /**
     * The spring loop of tickSpecialForces: one tickAttractionTo per connection, in list
     * order. Each connected particle receives its spring force once.
     */
    method TickSprings(sqrt: real -> real)
      requires this !in connections && NoDup(connections)
      modifies this`force, connections`force
      ensures fixed ==> force == old(force)
      ensures !fixed ==> force == SpringsPull(old(force), connections, sqrt)
      ensures forall c :: c in connections ==>
        c.force == if c.fixed then old(c.force) else old(c.force).Add(SpringExchange(pos, c.pos, sqrt))
    {
      var cs := connections;
      for i := 0 to |cs|
        invariant fixed ==> force == old(force)
        invariant !fixed ==> force == SpringsPull(old(force), cs[..i], sqrt)
        invariant forall c :: c in cs[..i] ==>
          c.force == if c.fixed then old(c.force) else old(c.force).Add(SpringExchange(pos, c.pos, sqrt))
        invariant forall c :: c in cs[i..] ==> c.force == old(c.force)
      {
        var c := cs[i];
        NoDupSplit(cs, i);
        TickAttractionTo(c, sqrt);
        PrefixSnoc(cs, i + 1);
        SuffixUncons(cs, i);
      }
      assert cs[..|cs|] == cs;
    }

    /**
     * tickSpecialForces: the boundary ghosts first, then the springs. This particle
     * (unless fixed) loses the ghost exchanges and the spring forces.
     */
    method TickSpecialForces(cache: Cache.Cache2D<real, real, real>, sqrt: real -> real)
      requires SqrtPositive(sqrt) && EpsilonCacheValid(cache, sqrt)
      requires this !in connections && NoDup(connections)
      modifies this`force, connections`force, cache
      ensures EpsilonCacheValid(cache, sqrt)
      ensures fixed ==> force == old(force)
      ensures !fixed ==> force == SpringsPull(
        Pushed(Pushed(old(force), GhostExchange(pos, GhostX(pos, domain), epsilon, sigma, sqCutoffDis, sqrt)),
               GhostExchange(pos, GhostY(pos, domain), epsilon, sigma, sqCutoffDis, sqrt)),
        connections, sqrt)
      ensures forall c :: c in connections ==>
        c.force == if c.fixed then old(c.force) else old(c.force).Add(SpringExchange(pos, c.pos, sqrt))
    {
      TickBoundaryForce(cache, sqrt);
      TickSprings(sqrt);
    }

    /**
     * tickSpeed: friction first lowers the accumulator by half the speed, then the
     * Verlet step adds (oldForce + force) dt / (2 mass) to the speed. Fixed: no-op.
     */
    method TickSpeed(dt: real)
      modifies this`force, this`speed
      ensures fixed ==> force == old(force) && speed == old(speed)
      ensures !fixed ==> force == old(force).Subtract(old(speed).Scale(1.0 - FRICTION_FACTOR))
      ensures !fixed ==> speed == old(speed).Add(oldForce.Add(force).Scale(dt / (2.0 * mass)))
      ensures old(Valid()) ==> Valid()
    {
      if fixed {
        return;
      }
      var friction := speed.Scale(1.0 - FRICTION_FACTOR);
      force := force.Subtract(friction);
      var dv := oldForce.Add(force).Scale(dt / (2.0 * mass));
      speed := speed.Add(dv);
    }

    /**
     * tickPos: moves by speed + oldForce dt^2 / (2 mass) (the speed is not scaled by dt)
     * and drops the cached bounds. Fixed: no-op.
     */
    method TickPos(dt: real)
      modifies this`pos, this`renderBounds
      ensures fixed ==> pos == old(pos) && renderBounds == old(renderBounds)
      ensures !fixed ==> pos == old(pos).Add(speed.Add(oldForce.Scale(dt / (2.0 * mass)).Scale(dt)))
      ensures !fixed ==> renderBounds == None
      ensures old(Valid()) ==> Valid()
    {
      if fixed {
        return;
      }
      var dx := speed.Add(oldForce.Scale(dt / (2.0 * mass)).Scale(dt));
      pos := pos.Add(dx);
      renderBounds := None;
    }

    /** tickReset: the accumulated force becomes the old force and gravity starts the next sum. Fixed: no-op. */
    method TickReset(gravity: Vec)
      modifies this`force, this`oldForce
      ensures fixed ==> force == old(force) && oldForce == old(oldForce)
      ensures !fixed ==> oldForce == old(force) && force == gravity
      ensures old(Valid()) ==> Valid()
    {
      if fixed {
        return;
      }
      oldForce := force;
      force := gravity;
    }

    /** The cached bounds, computed for the current position on first use. */
    method GetRenderBounds() returns (b: Ellipse)
      requires BoundsCurrent()
      modifies this`renderBounds
      ensures b == Bounds() && renderBounds == Some(b)
      ensures old(Valid()) ==> Valid()
    {
      if renderBounds.Some? {
        return renderBounds.value;
      }
      renderBounds := Some(Ellipse(pos.x - RENDER_RADIUS, pos.y - RENDER_RADIUS, RENDER_RADIUS * 2.0, RENDER_RADIUS * 2.0));
      b := renderBounds.value;
    }

    /** connectWith: appends p under the three insertion rules. */
    method ConnectWith(p: Particle)
      modifies this`connections
      ensures connections == Connect(old(connections), this, p, old(p.connections))
      ensures p in connections && this in p.connections ==> p in old(connections)
      ensures old(Valid()) ==> Valid()
    {
      if p != this && p !in connections && this !in p.connections {
        connections := connections + [p];
      }
      ConnectNoMirror(old(connections), this, p, old(p.connections));
      if old(Valid()) {
        ConnectKeepsNoDup(old(connections), this, p, old(p.connections));
      }
    }

    /** removeConnectionTo: List.remove(Object) on the connection list. */
    method RemoveConnectionTo(p: Particle)
      modifies this`connections
      ensures connections == RemoveFirst(old(connections), p)
      ensures NoDup(old(connections)) ==> p !in connections && NoDup(connections)
      ensures old(Valid()) ==> Valid()
    {
      connections := RemoveFirst(connections, p);
      if NoDup(old(connections)) {
        RemoveFirstNoDup(old(connections), p);
      }
      if this !in old(connections) {
        RemoveFirstSubset(old(connections), p, this);
      }
    }
  }
}
