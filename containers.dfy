/**
 * ParticleContainer.java: the particles of the simulation bucketed into a fixed grid of
 * square blocks. The inner Block class is folded into the container: a block is one entry
 * of a two-dimensional array of particle lists, and its add and remove change that entry
 * and the container's running size.
 */
module Containers {
  import opened Options
  import opened Lists
  import opened IntVectors
  import Vectors
  import opened Grids
  import Particles

  type Particle = Particles.Particle

  /**
   * The tie-break forEachPair applies to the offset dx = p2.pos - p1.pos: the pair is taken
   * when the offset points into the half-plane x + y > 0, or lies on its border x + y == 0
   * with x > 0.
   */
  predicate Precedes(dx: Vectors.Vec)
  {
    var sum := dx.x + dx.y;
    sum > 0.0 || (sum == 0.0 && dx.x > 0.0)
  }

  /** Of two particles at distinct positions exactly one order is taken; a zero offset never is. */
  lemma PrecedesExactlyOne(dx: Vectors.Vec)
    ensures dx != Vectors.ZERO ==> (Precedes(dx) <==> !Precedes(dx.Scale(-1.0)))
    ensures !Precedes(Vectors.ZERO)
  {
    var nx := dx.Scale(-1.0);
    assert nx.x == -dx.x && nx.y == -dx.y;
  }

  /** A coordinate less than one block from zero scales to less than one. */
  lemma WithinOneBlock(scaled: real, v: real, blockSize: real)
    requires 0.0 < blockSize && scaled * blockSize == v && -blockSize < v < blockSize
    ensures -1.0 < scaled < 1.0
  {
  }

  /** Two blocks that touch, by side or corner, or coincide. */
  predicate Adjacent(a: IntVec, b: IntVec)
  {
    -1 <= a.x - b.x <= 1 && -1 <= a.y - b.y <= 1
  }

  /** The tie-break on two positions: exactly one order when they differ, neither when they coincide. */
  lemma TieBreak(a: Vectors.Vec, b: Vectors.Vec)
    ensures a != b ==> (Precedes(b.Subtract(a)) <==> !Precedes(a.Subtract(b)))
    ensures a == b ==> !Precedes(b.Subtract(a))
  {
    Vectors.SubtractAntisymmetric(a, b);
    PrecedesExactlyOne(b.Subtract(a));
    Vectors.SubtractSelf(a);
  }

  lemma Regroup3<T>(k: seq<T>, a: seq<T>, b: seq<T>, c: seq<T>)
    ensures k + ((a + b) + c) == (k + a) + (b + c)
  {
  }

  /** The clamped 3 x 3 window around a block of the grid is non-empty and holds exactly the adjacent blocks. */
  lemma WindowAround(w: nat, h: nat, c: IntVec, x: int, y: int)
    requires InGrid(c, w, h)
    ensures Readable(w, h, c.Subtract(IntVec(1, 1)))
    ensures Clamp(c.x - 1, w) < Clamp(c.x + 2, w) && Clamp(c.y - 1, h) < Clamp(c.y + 2, h)
    ensures InRect(w, h, c.Subtract(IntVec(1, 1)), c.Add(IntVec(2, 2)), x, y) <==> InGrid(IntVec(x, y), w, h) && Adjacent(c, IntVec(x, y))
  {
  }

  /** The pairs (p1, q) for the q of ps that come after p1 under the tie-break, in the order of ps. */
  ghost function Accepted(p1: Particle, ps: seq<Particle>): seq<(Particle, Particle)>
    reads p1`pos, ps`pos
  {
    if ps == [] then []
    else
      var q := ps[|ps| - 1];
      Accepted(p1, ps[..|ps| - 1]) + if Precedes(q.pos.Subtract(p1.pos)) then [(p1, q)] else []
  }

  lemma {:induction false} AcceptedMembership(p1: Particle, ps: seq<Particle>, a: Particle, b: Particle)
    ensures (a, b) in Accepted(p1, ps) <==> a == p1 && b in ps && Precedes(b.pos.Subtract(p1.pos))
  {
    if ps != [] {
      AcceptedMembership(p1, ps[..|ps| - 1], a, b);
      assert ps == ps[..|ps| - 1] + [ps[|ps| - 1]];
    }
  }

  /** p.getRenderBounds().contains(at): the test find and removeAllAt apply. */
  predicate Hits(p: Particle, at: Vectors.Vec)
    reads p`pos
  {
    p.Bounds().Contains(at)
  }

  /** A particle is hit exactly when the point lies closer to it than the render radius. */
  lemma HitsWithinRadius(p: Particle, at: Vectors.Vec)
    ensures Hits(p, at) <==> at.Subtract(p.pos).SqLength() < Particles.RENDER_RADIUS * Particles.RENDER_RADIUS
  {
    Particles.CircleContains(p.pos, Particles.RENDER_RADIUS, at);
  }

  /** The first particle of ps that is hit at at, if any. */
  ghost function FirstHit(ps: seq<Particle>, at: Vectors.Vec): Option<Particle>
    reads ps`pos
  {
    if ps == [] then None
    else if Hits(ps[0], at) then Some(ps[0])
    else FirstHit(ps[1..], at)
  }

  /** FirstHit finds nothing exactly when no particle is hit, and otherwise the earliest one hit. */
  lemma {:induction false} FirstHitMeaning(ps: seq<Particle>, at: Vectors.Vec)
    ensures FirstHit(ps, at).None? <==> forall k :: 0 <= k < |ps| ==> !Hits(ps[k], at)
    ensures FirstHit(ps, at).Some? ==>
      exists k :: (0 <= k < |ps| && ps[k] == FirstHit(ps, at).value && Hits(ps[k], at) && forall j :: 0 <= j < k ==> !Hits(ps[j], at))
  {
    if ps != [] && !Hits(ps[0], at) {
      FirstHitMeaning(ps[1..], at);
      forall k | 0 <= k < |ps| - 1 ensures ps[1..][k] == ps[k + 1] {
      }
      if FirstHit(ps, at).Some? {
        var k :| 0 <= k < |ps[1..]| && ps[1..][k] == FirstHit(ps, at).value
          && Hits(ps[1..][k], at) && forall j :: 0 <= j < k ==> !Hits(ps[1..][j], at);
        assert ps[k + 1] == FirstHit(ps, at).value;
        forall j | 0 <= j < k + 1 ensures !Hits(ps[j], at) {
          if j > 0 {
            assert ps[j] == ps[1..][j - 1];
          }
        }
      } else {
        forall k | 0 <= k < |ps| ensures !Hits(ps[k], at) {
          if k > 0 {
            assert ps[k] == ps[1..][k - 1];
          }
        }
      }
    } else if ps != [] {
      assert ps[0] == FirstHit(ps, at).value;
    }
  }

  class ParticleContainer {
    /** blocks[y, x] is the particle list of the block in row y, column x. */
    const blocks: array2<seq<Particle>>
    /** The width and height of one block in px. */
    const blockSize: real
    /** 1 / blockSize. */
    const scaleFactor: real
    /** The running count kept by Block.add and Block.remove. */
    var size: int
    /** The block lists as one value: Cells[y][x] == blocks[y, x]. */
    ghost var Cells: Grid<Particle>
    /** Every particle held in some block. */
    ghost var Members: set<Particle>

    /** getWidth: the number of blocks in a row. */
    function Width(): nat
    {
      blocks.Length1
    }

    /** getHeight: the number of rows. */
    function Height(): nat
    {
      blocks.Length0
    }

    ghost predicate Valid()
      reads this, blocks
    {
      && 0 < Height() && 0 < Width()
      && 0.0 < blockSize && scaleFactor * blockSize == 1.0
      && Rectangular(Cells, Width(), Height())
      && (forall y, x :: 0 <= y < Height() && 0 <= x < Width() ==> blocks[y, x] == Cells[y][x])
      && Members == Held(Cells)
    }


    /** Every particle held, block by block in iterator order. */
    ghost function Particles(): (r: seq<Particle>)
      reads this, blocks
      requires Valid()
      ensures forall p :: p in r ==> p in Members
      ensures forall p :: p in Members ==> p in r
    {
      AllIsHeld(Cells, Width(), Height());
      All(Cells, Width(), Height())
    }

    /** Every particle sits in the block its position maps to (the state updateBlocks leaves). */
    ghost predicate AtRest()
      reads this, blocks, Members`pos
    {
      && Valid()
      && forall y, x, p :: 0 <= y < Height() && 0 <= x < Width() && p in Cells[y][x] ==> BlockPos(p.pos) == IntVec(x, y)
    }

    /** An empty grid of width x height blocks of blockSize px. */
    constructor(width: nat, height: nat, blockSize: real)
      requires 0 < width && 0 < height && 0.0 < blockSize
      ensures Width() == width && Height() == height
      ensures this.blockSize == blockSize && scaleFactor == 1.0 / blockSize
      ensures Cells == EmptyGrid(width, height) && size == 0
      ensures Valid() && Members == {}
      ensures fresh(blocks)
    {
      blocks := new seq<Particle>[height, width]((y, x) => []);
      this.blockSize := blockSize;
      scaleFactor := 1.0 / blockSize;
      size := 0;
      Cells := EmptyGrid(width, height);
      Members := {};
      new;
      assert forall y, x :: 0 <= y < height && 0 <= x < width ==> blocks[y, x] == Cells[y][x];
    }

    /** blockPos: the block a pixel position falls in, each coordinate truncated toward zero. */
    function BlockPos(v: Vectors.Vec): IntVec
    {
      v.Scale(scaleFactor).ToIntVec()
    }

    /** A position inside the frame of blocks maps to a block of the grid. */
    lemma BlockPosInside(v: Vectors.Vec)
      requires Valid()
      requires 0.0 <= v.x < Width() as real * blockSize && 0.0 <= v.y < Height() as real * blockSize
      ensures InGrid(BlockPos(v), Width(), Height())
    {
      var s := v.Scale(scaleFactor);
      assert 0.0 <= s.x < Width() as real by {
        assert s.x * blockSize == v.x;
      }
      assert 0.0 <= s.y < Height() as real by {
        assert s.y * blockSize == v.y;
      }
    }

    /**
     * Truncation toward zero: a position less than one block left of or above the frame
     * still maps to block column or row 0, so add keeps it.
     */
    lemma BlockPosNearEdge(v: Vectors.Vec)
      requires Valid()
      requires -blockSize < v.x < blockSize && -blockSize < v.y < blockSize
      ensures BlockPos(v) == IntVec(0, 0)
    {
      var s := v.Scale(scaleFactor);
      WithinOneBlock(s.x, v.x, blockSize);
      WithinOneBlock(s.y, v.y, blockSize);
      Vectors.TruncNearZero(s.x);
      Vectors.TruncNearZero(s.y);
    }

    /** Block.add on the block at c: appends p and counts it. */
    method BlockAdd(c: IntVec, p: Particle)
      requires Valid() && InGrid(c, Width(), Height())
      modifies this, blocks
      ensures Valid()
      ensures Cells == Update(old(Cells), Width(), Height(), c, Cell(old(Cells), Width(), Height(), c) + [p])
      ensures size == old(size) + 1
      ensures Members == old(Members) + {p}
    {
      ghost var cell := Cell(Cells, Width(), Height(), c);
      blocks[c.y, c.x] := blocks[c.y, c.x] + [p];
      Cells := Update(Cells, Width(), Height(), c, cell + [p]);
      Members := Held(Cells);
      size := size + 1;
      HeldUpdate(old(Cells), Width(), Height(), c, cell + [p]);
    }

    /** Block.remove on the block at c: List.remove(p), and the count drops even when p was not there. */
    method BlockRemove(c: IntVec, p: Particle)
      requires Valid() && InGrid(c, Width(), Height())
      modifies this, blocks
      ensures Valid()
      ensures Cells == Update(old(Cells), Width(), Height(), c, RemoveFirst(Cell(old(Cells), Width(), Height(), c), p))
      ensures size == old(size) - 1
      ensures Members <= old(Members)
      ensures forall q :: q in old(Members) && q != p ==> q in Members
    {
      ghost var cell := Cell(Cells, Width(), Height(), c);
      blocks[c.y, c.x] := RemoveFirst(blocks[c.y, c.x], p);
      Cells := Update(Cells, Width(), Height(), c, RemoveFirst(cell, p));
      Members := Held(Cells);
      size := size - 1;
      HeldUpdate(old(Cells), Width(), Height(), c, RemoveFirst(cell, p));
      forall q | q in cell && q != p ensures q in RemoveFirst(cell, p) {
        RemoveFirstOthers(cell, p, q);
      }
      forall q | q in RemoveFirst(cell, p) ensures q in cell {
        if q != p {
          RemoveFirstOthers(cell, p, q);
        }
      }
    }

    /**
     * iterator(minIncl, maxExcl): the particles of a rectangle of blocks, row by row, each
     * block front to back. The rectangle is clamped to the grid, and the first block is read
     * before anything else, so its clamped corner must lie inside the grid.
     */
    method Iterate(min: IntVec, max: IntVec) returns (r: seq<Particle>)
      requires Valid() && Readable(Width(), Height(), min)
      ensures r == Walk(Cells, Width(), Height(), min, max)
    {
      r := WalkBlocks(blocks, Cells, min, max);
    }

    /** The iterator's walk over the blocks array, whose blocks are those of g. */
    static method WalkBlocks(blocks: array2<seq<Particle>>, ghost g: Grid<Particle>, min: IntVec, max: IntVec) returns (r: seq<Particle>)
      requires Rectangular(g, blocks.Length1, blocks.Length0) && Readable(blocks.Length1, blocks.Length0, min)
      requires forall y, x :: 0 <= y < blocks.Length0 && 0 <= x < blocks.Length1 ==> blocks[y, x] == g[y][x]
      ensures r == Walk(g, blocks.Length1, blocks.Length0, min, max)
    {
      var w, h := blocks.Length1, blocks.Length0;
      var minX, minY := Clamp(min.x, w), Clamp(min.y, h);
      var maxX, maxY := Clamp(max.x, w), Clamp(max.y, h);
      ghost var xe := XEnd(minX, maxX);
      ghost var all := Walk(g, w, h, min, max);
      if minY < maxY {
        UnreadStart(g, w, h, minY, maxY, minX, xe);
      }
      var x, y := minX, minY;
      var current := blocks[y, x];
      var pos := 0;
      r := [];
      while y < maxY
        invariant minY <= y && minX <= x < xe <= w
        invariant y < maxY ==> current == g[y][x]
        invariant WalkState(all, r, g, w, h, y, x, pos, maxY, minX, xe)
        decreases maxY - y, xe - x, |current| - pos
      {
        if pos < |current| {
          WalkShift(all, r, g, w, h, y, x, pos, maxY, minX, xe);
          r := r + [current[pos]];
          pos := pos + 1;
        } else {
          WalkAdvance(all, r, g, w, h, y, x, maxY, minX, maxX, xe);
          x := x + 1;
          if x >= maxX {
            x := minX;
            y := y + 1;
          }
          if y < maxY {
            current := blocks[y, x];
          }
          pos := 0;
        }
      }
    }

    /** iterator(): every particle, by walking the whole grid. */
    method IterateAll() returns (r: seq<Particle>)
      requires Valid()
      ensures r == Particles()
    {
      WalkWhole(Cells, Width(), Height());
      r := Iterate(ZERO, IntVec(Width(), Height()));
    }

    /**
     * stream(true).forEach(cp -> cp.removeConnectionTo(p)), taken one particle at a time:
     * every particle held drops its (first) connection to p.
     */
    method SeverConnectionsTo(p: Particle)
      requires Valid()
      modifies Members`connections
      ensures forall q :: q in Members && NoDup(old(q.connections)) ==> q.connections == RemoveFirst(old(q.connections), p)
      ensures forall q :: q in Members && NoDup(old(q.connections)) ==> p !in q.connections && NoDup(q.connections)
    {
      var ps := IterateAll();
      for i := 0 to |ps|
        invariant forall q :: q in ps ==> q in Members && old(allocated(q))
        invariant forall q :: q in ps && q in ps[..i] && NoDup(old(q.connections)) ==> q.connections == RemoveFirst(old(q.connections), p)
        invariant forall q :: q in ps && q !in ps[..i] ==> q.connections == old(q.connections)
      {
        var q := ps[i];
        assert q in ps;
        q.RemoveConnectionTo(p);
        if NoDup(old(q.connections)) && q in ps[..i] {
          RemoveFirstNoDup(old(q.connections), p);
        }
        assert ps[..i + 1] == ps[..i] + [q];
      }
      assert ps[..|ps|] == ps;
      forall q | q in Members && NoDup(old(q.connections)) ensures p !in q.connections && NoDup(q.connections) {
        RemoveFirstNoDup(old(q.connections), p);
      }
    }

    /**
     * add: a particle whose block lies in the grid is appended to it and counted; any other
     * particle is dropped, and every particle held severs its connection to it.
     */
    method Add(p: Particle)
      requires Valid()
      modifies this, blocks, Members`connections
      ensures Valid()
      ensures var c := BlockPos(p.pos);
        if InGrid(c, Width(), Height()) then
          && Cells == Update(old(Cells), Width(), Height(), c, Cell(old(Cells), Width(), Height(), c) + [p])
          && size == old(size) + 1
          && forall q :: q in old(Members) ==> q.connections == old(q.connections)
        else
          && Cells == old(Cells) && size == old(size)
          && forall q :: q in Members && NoDup(old(q.connections)) ==> q.connections == RemoveFirst(old(q.connections), p)
      ensures Members == old(Members) + if InGrid(BlockPos(p.pos), Width(), Height()) then {p} else {}
    {
      var c := BlockPos(p.pos);
      if !c.IsInRange(0, 0, blocks.Length1, blocks.Length0) {
        SeverConnectionsTo(p);
        return;
      }
      BlockAdd(c, p);
    }

    /**
     * remove: List.remove(p) on the block p's position maps to (that block must be in the
     * grid), the count drops by one, and every particle still held severs its connection to p.
     */
    method Remove(p: Particle)
      requires Valid() && InGrid(BlockPos(p.pos), Width(), Height())
      modifies this, blocks, Members`connections
      ensures Valid()
      ensures var c := BlockPos(p.pos);
        Cells == Update(old(Cells), Width(), Height(), c, RemoveFirst(Cell(old(Cells), Width(), Height(), c), p))
      ensures size == old(size) - 1
      ensures Members <= old(Members)
      ensures forall q :: q in Members && NoDup(old(q.connections)) ==> q.connections == RemoveFirst(old(q.connections), p)
    {
      var c := BlockPos(p.pos);
      BlockRemove(c, p);
      SeverConnectionsTo(p);
    }

    /**
     * The corner forEachPair, find and removeAllAt start their 3 x 3 block window from lies in
     * the grid once clamped (the window's first block is read eagerly).
     */
    predicate NearReadable(v: Vectors.Vec)
    {
      Readable(Width(), Height(), BlockPos(v).Subtract(IntVec(1, 1)))
    }

    /** The particles of the 3 x 3 blocks around v's block, in iterator order. */
    ghost function Near(v: Vectors.Vec): (r: seq<Particle>)
      reads this, blocks
      requires Valid() && NearReadable(v)
      ensures forall q :: q in r ==> q in Members
    {
      var c := BlockPos(v);
      WalkHeld(Cells, Width(), Height(), c.Subtract(IntVec(1, 1)), c.Add(IntVec(2, 2)));
      Walk(Cells, Width(), Height(), c.Subtract(IntVec(1, 1)), c.Add(IntVec(2, 2)))
    }

    /** The pairs forEachPair hands to its action for the particles ps, in that order. */
    ghost function PairsOf(ps: seq<Particle>): seq<(Particle, Particle)>
      reads this, blocks, Members`pos
      requires Valid() && forall k :: 0 <= k < |ps| ==> ps[k] in Members && NearReadable(ps[k].pos)
    {
      PairsUpTo(ps, |ps|)
    }

    /** The pairs for the first n particles of ps. */
    ghost function PairsUpTo(ps: seq<Particle>, n: nat): seq<(Particle, Particle)>
      reads this, blocks, Members`pos
      requires Valid() && n <= |ps| && forall k :: 0 <= k < |ps| ==> ps[k] in Members && NearReadable(ps[k].pos)
      decreases n
    {
      if n == 0 then [] else PairsUpTo(ps, n - 1) + Accepted(ps[n - 1], Near(ps[n - 1].pos))
    }

    /**
     * forEachPair: for every particle p1 (in iterator order; the source runs them in
     * parallel), every p2 of the blocks around p1's block that comes after p1 under the
     * tie-break. The pairs are returned in the order the action would receive them.
     */
    method ForEachPair() returns (pairs: seq<(Particle, Particle)>)
      requires Valid() && forall p :: p in Members ==> NearReadable(p.pos)
      ensures pairs == PairsOf(Particles())
    {
      var ps := IterateAll();
      forall k | 0 <= k < |ps| ensures ps[k] in Members && NearReadable(ps[k].pos) {
        assert ps[k] in ps;
      }
      pairs := PairsAll(ps);
    }

    /** The loop of forEachPair over the particles ps. */
    method PairsAll(ps: seq<Particle>) returns (pairs: seq<(Particle, Particle)>)
      requires Valid() && forall k :: 0 <= k < |ps| ==> ps[k] in Members && NearReadable(ps[k].pos)
      ensures pairs == PairsOf(ps)
    {
      pairs := [];
      for i := 0 to |ps|
        invariant pairs == PairsUpTo(ps, i)
      {
        var found := PairsFrom(ps[i], ps, i, pairs);
        pairs := pairs + found;
      }
    }

    /**
     * The body of forEachPair for p1 == ps[i]: the pairs it forms with the particles around it,
     * which extend the pairs of the particles before it in ps (acc) to those up to p1.
     */
    method PairsFrom(p1: Particle, ghost ps: seq<Particle>, ghost i: nat, ghost acc: seq<(Particle, Particle)>)
      returns (found: seq<(Particle, Particle)>)
      requires Valid() && i < |ps| && ps[i] == p1 && forall k :: 0 <= k < |ps| ==> ps[k] in Members && NearReadable(ps[k].pos)
      requires acc == PairsUpTo(ps, i)
      ensures acc + found == PairsUpTo(ps, i + 1)
    {
      var c := BlockPos(p1.pos);
      var near := Iterate(c.Subtract(IntVec(1, 1)), c.Add(IntVec(2, 2)));
      assert PairsUpTo(ps, i) == acc;
      found := AcceptAll(p1, near);
      assert PairsUpTo(ps, i) == acc && Near(p1.pos) == near;
      assert PairsUpTo(ps, i + 1) == PairsUpTo(ps, i) + Accepted(p1, Near(p1.pos));
    }

    /** forEachRemaining over the window around p1: each p2 that comes after p1 under the tie-break. */
    static method AcceptAll(p1: Particle, near: seq<Particle>) returns (found: seq<(Particle, Particle)>)
      ensures found == Accepted(p1, near)
    {
      found := [];
      for j := 0 to |near|
        invariant found == Accepted(p1, near[..j])
      {
        var p2 := near[j];
        var dx := p2.pos.Subtract(p1.pos);
        var sum := dx.x + dx.y;
        if sum > 0.0 || (sum == 0.0 && dx.x > 0.0) {
          found := found + [(p1, p2)];
        }
        assert near[..j + 1][..j] == near[..j];
      }
      assert near[..|near|] == near;
    }

    /** A pair is handed over exactly when p2 lies in the blocks around p1's and comes after it. */
    lemma PairsOfMembership(ps: seq<Particle>, p1: Particle, p2: Particle)
      requires Valid() && forall k :: 0 <= k < |ps| ==> ps[k] in Members && NearReadable(ps[k].pos)
      ensures (p1, p2) in PairsOf(ps) <==> p1 in ps && p2 in Near(p1.pos) && Precedes(p2.pos.Subtract(p1.pos))
    {
      PairsUpToMembership(ps, |ps|, p1, p2);
      assert ps[..|ps|] == ps;
    }

    lemma {:induction false} PairsUpToMembership(ps: seq<Particle>, n: nat, p1: Particle, p2: Particle)
      requires Valid() && n <= |ps| && forall k :: 0 <= k < |ps| ==> ps[k] in Members && NearReadable(ps[k].pos)
      ensures (p1, p2) in PairsUpTo(ps, n) <==> p1 in ps[..n] && p2 in Near(p1.pos) && Precedes(p2.pos.Subtract(p1.pos))
      decreases n
    {
      if n > 0 {
        var last := ps[n - 1];
        var near := Near(last.pos);
        assert PairsUpTo(ps, n) == PairsUpTo(ps, n - 1) + Accepted(last, near);
        PairsUpToMembership(ps, n - 1, p1, p2);
        AcceptedMembership(last, near, p1, p2);
        PrefixSnoc(ps, n);
        assert (p1, p2) in PairsUpTo(ps, n) <==> (p1, p2) in PairsUpTo(ps, n - 1) || (p1, p2) in Accepted(last, near);
        assert p1 in ps[..n] <==> p1 in ps[..n - 1] || p1 == last;
      }
    }

    /** Both ends of every pair forEachPair hands over are particles of the grid. */
    lemma PairsWithin(pairs: seq<(Particle, Particle)>, ps: seq<Particle>)
      requires Valid() && forall p :: p in Members ==> NearReadable(p.pos)
      requires ps == Particles() && pairs == PairsOf(ps)
      ensures forall k :: 0 <= k < |pairs| ==> pairs[k].0 in ps && pairs[k].1 in ps
    {
      forall k | 0 <= k < |pairs| ensures pairs[k].0 in ps && pairs[k].1 in ps {
        assert pairs[k] in pairs;
        PairsOfMembership(ps, pairs[k].0, pairs[k].1);
      }
    }

    /** No particle is paired with itself, nor with one at the same position. */
    lemma PairsApart(p1: Particle, p2: Particle)
      requires Valid() && forall p :: p in Members ==> NearReadable(p.pos)
      requires (p1, p2) in PairsOf(Particles())
      ensures p1.pos != p2.pos && p1 != p2
    {
      PairsOfMembership(Particles(), p1, p2);
      PrecedesExactlyOne(p2.pos.Subtract(p1.pos));
      if p1.pos == p2.pos {
        Vectors.SubtractSelf(p1.pos);
      }
    }

    /** At rest, the window around p's block holds exactly the particles of the adjacent blocks. */
    lemma NearAtRest(p: Particle, q: Particle)
      requires AtRest() && InGrid(BlockPos(p.pos), Width(), Height())
      ensures NearReadable(p.pos)
      ensures q in Near(p.pos) <==> q in Members && Adjacent(BlockPos(p.pos), BlockPos(q.pos))
    {
      WindowAround(Width(), Height(), BlockPos(p.pos), 0, 0);
      if q in Near(p.pos) {
        NearAtRestFrom(p, q);
      }
      if q in Members && Adjacent(BlockPos(p.pos), BlockPos(q.pos)) {
        NearAtRestHas(p, q);
      }
    }

    /** At rest, what the window around p's block yields lies in an adjacent block. */
    lemma NearAtRestFrom(p: Particle, q: Particle)
      requires AtRest() && InGrid(BlockPos(p.pos), Width(), Height()) && NearReadable(p.pos)
      requires q in Near(p.pos)
      ensures q in Members && Adjacent(BlockPos(p.pos), BlockPos(q.pos))
    {
      var c := BlockPos(p.pos);
      var min, max := c.Subtract(IntVec(1, 1)), c.Add(IntVec(2, 2));
      WalkMembership(Cells, Width(), Height(), min, max, q);
      var y, x :| InRect(Width(), Height(), min, max, x, y) && q in Cells[y][x];
      WindowAround(Width(), Height(), c, x, y);
    }

    /** At rest, every particle of a block adjacent to p's is yielded by the window around it. */
    lemma NearAtRestHas(p: Particle, q: Particle)
      requires AtRest() && InGrid(BlockPos(p.pos), Width(), Height()) && NearReadable(p.pos)
      requires q in Members && Adjacent(BlockPos(p.pos), BlockPos(q.pos))
      ensures q in Near(p.pos)
    {
      var c := BlockPos(p.pos);
      var min, max := c.Subtract(IntVec(1, 1)), c.Add(IntVec(2, 2));
      var y, x :| 0 <= y < |Cells| && 0 <= x < |Cells[y]| && q in Cells[y][x];
      WindowAround(Width(), Height(), c, x, y);
      WalkMembership(Cells, Width(), Height(), min, max, q);
    }

    /** One order of one pair: handed over exactly when the blocks touch and p2 comes after p1. */
    lemma PairOrder(p1: Particle, p2: Particle)
      requires AtRest() && p1 in Members && p2 in Members
      ensures forall p :: p in Members ==> NearReadable(p.pos)
      ensures (p1, p2) in PairsOf(Particles()) <==> Adjacent(BlockPos(p1.pos), BlockPos(p2.pos)) && Precedes(p2.pos.Subtract(p1.pos))
    {
      AtRestReadable();
      MemberAtRest(p1);
      PairsOfMembership(Particles(), p1, p2);
      NearAtRest(p1, p2);
    }

    /**
     * forEachPair visits every unordered pair of particles in adjacent blocks at distinct
     * positions in exactly one of its two orders, and no other pair.
     */
    lemma PairsOneOrder(p1: Particle, p2: Particle)
      requires AtRest() && p1 in Members && p2 in Members
      ensures forall p :: p in Members ==> NearReadable(p.pos)
      ensures ((p1, p2) in PairsOf(Particles()) || (p2, p1) in PairsOf(Particles()))
          <==> Adjacent(BlockPos(p1.pos), BlockPos(p2.pos)) && p1.pos != p2.pos
      ensures !((p1, p2) in PairsOf(Particles()) && (p2, p1) in PairsOf(Particles()))
    {
      PairOrder(p1, p2);
      PairOrder(p2, p1);
      TieBreak(p1.pos, p2.pos);
      var b1, b2 := BlockPos(p1.pos), BlockPos(p2.pos);
      assert Adjacent(b2, b1) == Adjacent(b1, b2);
      var forward, backward := (p1, p2) in PairsOf(Particles()), (p2, p1) in PairsOf(Particles());
      assert forward <==> Adjacent(b1, b2) && Precedes(p2.pos.Subtract(p1.pos));
      assert backward <==> Adjacent(b1, b2) && Precedes(p1.pos.Subtract(p2.pos));
    }

    /** At rest, every particle's window can be walked. */
    lemma AtRestReadable()
      requires AtRest()
      ensures forall p :: p in Members ==> NearReadable(p.pos)
    {
      forall p | p in Members ensures NearReadable(p.pos) {
        MemberAtRest(p);
        WindowAround(Width(), Height(), BlockPos(p.pos), 0, 0);
      }
    }

    /** At rest, a particle held lies in the block its position maps to, which is in the grid. */
    lemma MemberAtRest(p: Particle)
      requires AtRest() && p in Members
      ensures InGrid(BlockPos(p.pos), Width(), Height())
      ensures p in Cell(Cells, Width(), Height(), BlockPos(p.pos))
    {
      var y, x :| 0 <= y < |Cells| && 0 <= x < |Cells[y]| && p in Cells[y][x];
    }

    /**
     * find: the first particle, in iterator order over the 3 x 3 blocks around at's block,
     * whose rendering bounds contain at. Asking for the bounds caches them.
     */
    method Find(at: Vectors.Vec) returns (found: Option<Particle>)
      requires Valid() && NearReadable(at) && forall p :: p in Members ==> p.BoundsCurrent()
      modifies Members`renderBounds
      ensures found == FirstHit(Near(at), at)
      ensures forall p :: p in Members ==> p.BoundsCurrent()
    {
      var c := BlockPos(at);
      var near := Iterate(c.Subtract(IntVec(1, 1)), c.Add(IntVec(2, 2)));
      assert near == Near(at);
      forall k | 0 <= k < |near| ensures near[k] in Members {
        assert near[k] in Near(at);
      }
      found := FindIn(near, at, Members);
    }

    /** The loop of find over the particles near, all of them among S: it stops at the first hit. */
    static method FindIn(near: seq<Particle>, at: Vectors.Vec, ghost S: set<Particle>) returns (found: Option<Particle>)
      requires forall k :: 0 <= k < |near| ==> near[k] in S
      requires forall p :: p in S ==> p.BoundsCurrent()
      modifies S`renderBounds
      ensures found == FirstHit(near, at)
      ensures forall p :: p in S ==> p.BoundsCurrent()
    {
      found := None;
      var i := 0;
      while i < |near| && found.None?
        invariant 0 <= i <= |near|
        invariant forall p :: p in S ==> p.BoundsCurrent()
        invariant found.None? ==> FirstHit(near, at) == FirstHit(near[i..], at)
        invariant found.Some? ==> found == FirstHit(near, at)
      {
        var p := near[i];
        assert near[i..][1..] == near[i + 1..];
        var b := p.GetRenderBounds();
        if b.Contains(at) {
          found := Some(p);
        }
        i := i + 1;
      }
    }

    /** The particles held whose rendering bounds contain at. */
    ghost function HitSet(at: Vectors.Vec): set<Particle>
      reads this, Members`pos
    {
      set p | p in Members && Hits(p, at)
    }

    /**
     * Against a snapshot c0 of the connection lists: every particle of c0 still held has lost
     * exactly the particles of d, where its list had no duplicates.
     */
    ghost predicate Severed(c0: map<Particle, seq<Particle>>, d: set<Particle>)
      reads this, c0.Keys`connections
    {
      forall q :: q in c0 && q in Members && NoDup(c0[q]) ==> q.connections == Without(c0[q], d)
    }

    /**
     * What removeAllAt relies on for the particles S held when it starts: to names the block
     * each lies in, hit is exactly those hit at at, and their cached bounds are current.
     */
    ghost predicate Probed(S: set<Particle>, to: Particle -> IntVec, hit: set<Particle>, at: Vectors.Vec)
      reads S`pos, S`renderBounds
    {
      forall p :: p in S ==> to(p) == BlockPos(p.pos) && (p in hit <==> Hits(p, at)) && p.BoundsCurrent()
    }

    /** remove, tracked against a snapshot of the connection lists. */
    method RemoveSevered(p: Particle, ghost c0: map<Particle, seq<Particle>>, ghost d: set<Particle>)
      requires Valid() && InGrid(BlockPos(p.pos), Width(), Height()) && Severed(c0, d)
      modifies this, blocks, Members`connections
      ensures Valid()
      ensures var c := BlockPos(p.pos);
        Cells == Update(old(Cells), Width(), Height(), c, RemoveFirst(Cell(old(Cells), Width(), Height(), c), p))
      ensures size == old(size) - 1
      ensures Members <= old(Members)
      ensures Severed(c0, d + {p})
    {
      label before:
      Remove(p);
      forall q | q in c0 && q in Members && NoDup(c0[q]) ensures q.connections == Without(c0[q], d + {p}) {
        assert q in old@before(Members);
        WithoutNoDup(c0[q], d);
        RemoveFirstWithout(c0[q], d, p);
      }
    }

    /**
     * The state of removeAllAt's block cursor i on block (x, y): of the list s0 the block
     * started with, gone has been removed and the rest of the sweep is still to come; every
     * other block is as in g; the count dropped once per removal; the connection lists
     * lost d and gone.
     */
    ghost predicate Sweeping(at: Vectors.Vec, y: nat, x: nat, i: nat, g: Grid<Particle>, s0: seq<Particle>, gone: seq<Particle>,
                             size0: int, to: Particle -> IntVec, hit: set<Particle>, S: set<Particle>,
                             c0: map<Particle, seq<Particle>>, d: set<Particle>)
      reads this, blocks, S`pos, S`renderBounds, c0.Keys`connections
    {
      && Valid() && y < Height() && x < Width() && Rectangular(g, Width(), Height())
      && Members <= S && Probed(S, to, hit, at)
      && Cells == Update(g, Width(), Height(), IntVec(x, y), Cells[y][x])
      && (forall q :: q in Cells[y][x] ==> q in s0)
      && (forall q :: q in s0 ==> to(q) == IntVec(x, y))
      && Sweep(Cells[y][x], i, hit) == Sweep(s0, 0, hit)
      && gone + Swept(Cells[y][x], i, hit) == Swept(s0, 0, hit)
      && size == size0 - |gone|
      && Severed(c0, d + set q | q in gone)
    }

    /**
     * removeAllAt on block (x, y): the block iterator's cursor reads the next particle and
     * advances; a particle hit is removed, so the one that slides into its place is skipped.
     */
    method SweepBlock(at: Vectors.Vec, y: nat, x: nat, ghost to: Particle -> IntVec, ghost hit: set<Particle>,
                      ghost S: set<Particle>, ghost c0: map<Particle, seq<Particle>>, ghost d: set<Particle>)
      requires Valid() && y < Height() && x < Width() && Consistent(Cells, Width(), Height(), to)
      requires Members <= S && Probed(S, to, hit, at) && Severed(c0, d)
      modifies this, blocks, S`connections, S`renderBounds
      ensures Valid() && Members <= S && Probed(S, to, hit, at)
      ensures Cells == Update(old(Cells), Width(), Height(), IntVec(x, y), Sweep(old(Cells)[y][x], 0, hit))
      ensures size == old(size) - |Swept(old(Cells)[y][x], 0, hit)|
      ensures Severed(c0, d + set q | q in Swept(old(Cells)[y][x], 0, hit))
    {
      ghost var g := Cells;
      ghost var s0 := Cells[y][x];
      ghost var gone: seq<Particle> := [];
      UpdateSame(g, Width(), Height(), IntVec(x, y));
      assert d + (set q | q in gone) == d;
      var i := 0;
      while i < |blocks[y, x]|
        invariant Sweeping(at, y, x, i, g, s0, gone, old(size), to, hit, S, c0, d)
        decreases |Cells[y][x]| - i
      {
        i, gone := SweepStep(at, y, x, i, g, s0, gone, old(size), to, hit, S, c0, d);
      }
      assert Sweep(Cells[y][x], i, hit) == Cells[y][x] && Swept(Cells[y][x], i, hit) == [];
      assert gone == Swept(s0, 0, hit);
    }

    /** One step of the block cursor: read the particle under it, advance, and remove the particle if it is hit. */
    method SweepStep(at: Vectors.Vec, y: nat, x: nat, i: nat, ghost g: Grid<Particle>, ghost s0: seq<Particle>,
                     ghost gone: seq<Particle>, ghost size0: int, ghost to: Particle -> IntVec, ghost hit: set<Particle>,
                     ghost S: set<Particle>, ghost c0: map<Particle, seq<Particle>>, ghost d: set<Particle>)
      returns (i': nat, ghost gone': seq<Particle>)
      requires Sweeping(at, y, x, i, g, s0, gone, size0, to, hit, S, c0, d) && i < |Cells[y][x]|
      modifies this, blocks, S`connections, S`renderBounds
      ensures Sweeping(at, y, x, i', g, s0, gone', size0, to, hit, S, c0, d)
      ensures i' == i + 1 && |Cells[y][x]| <= old(|Cells[y][x]|)
    {
      var p := blocks[y, x][i];
      CellHeld(y, x, p);
      var b := p.GetRenderBounds();
      i' := i + 1;
      if b.Contains(at) {
        gone' := SweepHit(at, p, y, x, i, g, s0, gone, size0, to, hit, S, c0, d);
      } else {
        gone' := gone;
      }
    }

    /** The cursor's particle p = Cells[y][x][i] is hit: remove it. */
    method SweepHit(at: Vectors.Vec, p: Particle, y: nat, x: nat, i: nat, ghost g: Grid<Particle>, ghost s0: seq<Particle>,
                    ghost gone: seq<Particle>, ghost size0: int, ghost to: Particle -> IntVec, ghost hit: set<Particle>,
                    ghost S: set<Particle>, ghost c0: map<Particle, seq<Particle>>, ghost d: set<Particle>)
      returns (ghost gone': seq<Particle>)
      requires Sweeping(at, y, x, i, g, s0, gone, size0, to, hit, S, c0, d)
      modifies this, blocks, S`connections
      requires i < |Cells[y][x]| && p == Cells[y][x][i] && p in hit
      ensures Sweeping(at, y, x, i + 1, g, s0, gone', size0, to, hit, S, c0, d)
      ensures |Cells[y][x]| < old(|Cells[y][x]|)
    {
      var c := IntVec(x, y);
      ghost var cur := Cells[y][x];
      assert p in s0;
      CellHeld(y, x, p);
      assert BlockPos(p.pos) == c;
      HitStep(g, Width(), Height(), c, cur, i, hit, s0, gone, d);
      RemoveSevered(p, c0, d + set q | q in gone);
      gone' := gone + [p];
    }

    /**
     * removeAllAt: remove every particle whose rendering bounds contain at, walking the 3 x 3
     * blocks around at's block with the iterator. Each block is swept with the cursor skip of
     * Sweep; the count drops once per removal and every remaining particle loses its
     * connections to the removed ones. The grid must be at rest, so that remove finds each
     * particle in the block the walk is in.
     */
    method RemoveAllAt(at: Vectors.Vec)
      requires AtRest() && NearReadable(at) && forall p :: p in Members ==> p.BoundsCurrent()
      modifies this, blocks, Members`connections, Members`renderBounds
      ensures AtRest()
      ensures Cells == old(SweptAround(at))
      ensures size == old(size) - old(|All(RemovedAround(at), Width(), Height())|)
      ensures Members <= old(Members)
      ensures forall q :: q in Members && NoDup(old(q.connections)) ==>
        q.connections == Without(old(q.connections), old(Held(RemovedAround(at))))
      ensures forall p :: p in Members ==> p.BoundsCurrent()
    {
      var c := BlockPos(at);
      var min, max := c.Subtract(IntVec(1, 1)), c.Add(IntVec(2, 2));
      ghost var g0, S, to, hit := Cells, Members, Targets(), HitSet(at);
      ghost var c0 := map q | q in Members :: q.connections;
      SweepStart(at, min, max, g0, to, hit, c0);
      WalkingIs(at, Clamp(min.y, Height()), Clamp(min.x, Width()), g0, min, max, old(size), to, hit, S, c0);
      ghost var y := SweepRows(at, g0, min, max, old(size), to, hit, S, c0);
      WalkingIs(at, y, Clamp(min.x, Width()), g0, min, max, old(size), to, hit, S, c0);
      SweepDone(at, y, g0, min, max, old(size), to, hit, S, c0);
      forall q | q in Members ensures q in c0 && c0[q] == old(q.connections) {
        assert q in S;
      }
    }

    /** removeAllAt's walk over the rows of the window min to max, top to bottom. */
    method SweepRows(at: Vectors.Vec, ghost g0: Grid<Particle>, min: IntVec, max: IntVec, ghost size0: int,
                     ghost to: Particle -> IntVec, ghost hit: set<Particle>, ghost S: set<Particle>, ghost c0: map<Particle, seq<Particle>>)
      returns (ghost y: int)
      requires Walking(2, at, Clamp(min.y, Height()), Clamp(min.x, Width()), g0, min, max, size0, to, hit, S, c0) == true
      requires Readable(Width(), Height(), min)
      modifies this, blocks, S`connections, S`renderBounds
      ensures Clamp(max.y, Height()) <= y
      ensures Walking(2, at, y, Clamp(min.x, Width()), g0, min, max, size0, to, hit, S, c0) == true
    {
      var minY, maxY := Clamp(min.y, Height()), Clamp(max.y, Height());
      var row: int := minY;
      while row < maxY
        invariant minY <= row
        invariant Walking(2, at, row, Clamp(min.x, Width()), g0, min, max, size0, to, hit, S, c0) == true
        decreases maxY - row
      {
        SweepRow(at, row, g0, min, max, size0, to, hit, S, c0);
        NextRow(at, row, g0, min, max, size0, to, hit, S, c0);
        row := row + 1;
      }
      y := row;
    }

    /** Before the walk of removeAllAt nothing is swept: the state is the one the walk starts from. */
    lemma SweepStart(at: Vectors.Vec, min: IntVec, max: IntVec, g0: Grid<Particle>, to: Particle -> IntVec,
                     hit: set<Particle>, c0: map<Particle, seq<Particle>>)
      requires AtRest() && forall p :: p in Members ==> p.BoundsCurrent()
      requires g0 == Cells && to == Targets() && hit == HitSet(at) && c0 == map q | q in Members :: q.connections
      ensures SweepingWindow(at, Clamp(min.y, Height()), Clamp(min.x, Width()), g0, min, max, size, to, hit, Members, c0)
    {
      forall q | q in c0 ensures Without(c0[q], {}) == c0[q] {
        WithoutNothing(c0[q]);
      }
      AtRestConsistent(to);
      SweepToStart(g0, Width(), Height(), min, max, hit);
    }

    /** After the last walked row every walked block is swept, and the grid is at rest again. */
    lemma SweepDone(at: Vectors.Vec, y: int, g0: Grid<Particle>, min: IntVec, max: IntVec, size0: int,
                    to: Particle -> IntVec, hit: set<Particle>, S: set<Particle>, c0: map<Particle, seq<Particle>>)
      requires SweepingWindow(at, y, Clamp(min.x, Width()), g0, min, max, size0, to, hit, S, c0)
      requires Clamp(max.y, Height()) <= y
      ensures AtRest()
      ensures Cells == SweepWindow(g0, Width(), Height(), min, max, hit)
      ensures size == size0 - |All(SweptWindow(g0, Width(), Height(), min, max, hit), Width(), Height())|
      ensures Severed(c0, Held(SweptWindow(g0, Width(), Height(), min, max, hit)))
    {
      SweepToEnd(g0, Width(), Height(), min, max, hit, y);
      SweepToConsistent(g0, Width(), Height(), min, max, hit, y, Clamp(min.x, Width()), to);
      ConsistentAtRest(to);
    }

    /** The grid once every block of the 3 x 3 around at's block is swept of the particles hit at at. */
    ghost function SweptAround(at: Vectors.Vec): (r: Grid<Particle>)
      reads this, blocks, Members`pos
      requires Valid()
      ensures Rectangular(r, Width(), Height())
    {
      var c := BlockPos(at);
      SweepWindow(Cells, Width(), Height(), c.Subtract(IntVec(1, 1)), c.Add(IntVec(2, 2)), HitSet(at))
    }

    /** What sweeping the 3 x 3 blocks around at's block removes, block by block. */
    ghost function RemovedAround(at: Vectors.Vec): (r: Grid<Particle>)
      reads this, blocks, Members`pos
      requires Valid()
      ensures Rectangular(r, Width(), Height())
    {
      var c := BlockPos(at);
      SweptWindow(Cells, Width(), Height(), c.Subtract(IntVec(1, 1)), c.Add(IntVec(2, 2)), HitSet(at))
    }

    /** At rest, the grid is consistent with the targets the particles' positions give. */
    lemma AtRestConsistent(to: Particle -> IntVec)
      requires AtRest() && forall p :: p in Members ==> to(p) == BlockPos(p.pos)
      ensures Consistent(Cells, Width(), Height(), to)
    {
      forall y, x, p | 0 <= y < Height() && 0 <= x < Width() && p in Cells[y][x] ensures to(p) == IntVec(x, y) {
        CellHeld(y, x, p);
      }
    }

    /**
     * The state of removeAllAt's walk before block (x, y) of the window min to max: the grid is
     * g0 with every block walked so far swept, the count dropped by what those sweeps removed,
     * and every connection list lost the removed particles.
     */
    ghost predicate SweepingWindow(at: Vectors.Vec, y: int, x: int, g0: Grid<Particle>, min: IntVec, max: IntVec,
                                   size0: int, to: Particle -> IntVec, hit: set<Particle>, S: set<Particle>,
                                   c0: map<Particle, seq<Particle>>)
      reads this, blocks, S`pos, S`renderBounds, c0.Keys`connections
    {
      && Valid() && Rectangular(g0, Width(), Height()) && Consistent(g0, Width(), Height(), to)
      && Members <= S && Probed(S, to, hit, at)
      && Cells == SweepTo(g0, Width(), Height(), min, max, hit, y, x)
      && size == size0 - |All(SweptTo(g0, Width(), Height(), min, max, hit, y, x), Width(), Height())|
      && Severed(c0, Held(SweptTo(g0, Width(), Height(), min, max, hit, y, x)))
    }

    /** removeAllAt over walked row y of the window: every walked block of the row is swept, left to right, up to XEnd. */
    method SweepRow(at: Vectors.Vec, y: nat, ghost g0: Grid<Particle>, min: IntVec, max: IntVec, ghost size0: int,
                    ghost to: Particle -> IntVec, ghost hit: set<Particle>, ghost S: set<Particle>, ghost c0: map<Particle, seq<Particle>>)
      requires Walking(2, at, y, Clamp(min.x, Width()), g0, min, max, size0, to, hit, S, c0) == true
      requires Readable(Width(), Height(), min) && Clamp(min.y, Height()) <= y < Clamp(max.y, Height())
      modifies this, blocks, S`connections, S`renderBounds
      ensures Walking(2, at, y, XEnd(Clamp(min.x, Width()), Clamp(max.x, Width())), g0, min, max, size0, to, hit, S, c0) == true
    {
      var minX := Clamp(min.x, Width());
      var xe := XEnd(minX, Clamp(max.x, Width()));
      var x := minX;
      assert xe <= Width();
      while x < xe
        invariant minX <= x <= xe
        invariant Walking(2, at, y, x, g0, min, max, size0, to, hit, S, c0) == true
      {
        SweepNext(at, y, x, g0, min, max, size0, to, hit, S, c0);
        x := x + 1;
      }
    }

    /** removeAllAt on the walked block (x, y): sweep it and account for what it removes. */
    method SweepNext(at: Vectors.Vec, y: nat, x: nat, ghost g0: Grid<Particle>, min: IntVec, max: IntVec, ghost size0: int,
                     ghost to: Particle -> IntVec, ghost hit: set<Particle>, ghost S: set<Particle>, ghost c0: map<Particle, seq<Particle>>)
      requires Walking(2, at, y, x, g0, min, max, size0, to, hit, S, c0) == true
      requires Readable(Width(), Height(), min) && Clamp(min.y, Height()) <= y < Clamp(max.y, Height())
      requires Clamp(min.x, Width()) <= x < XEnd(Clamp(min.x, Width()), Clamp(max.x, Width()))
      modifies this, blocks, S`connections, S`renderBounds
      ensures Walking(2, at, y, x + 1, g0, min, max, size0, to, hit, S, c0) == true
    {
      assert y < Height() && x < Width() && Walked(Width(), Height(), min, max, x, y);
      ghost var gb, sb := Cells, size;
      EnterBlock(at, y, x, g0, min, max, size0, to, hit, S, c0);
      SweepBlock(at, y, x, to, hit, S, c0, Held(SweptTo(g0, Width(), Height(), min, max, hit, y, x)));
      LeaveBlock(at, y, x, g0, min, max, size0, to, hit, S, c0, gb, sb);
    }

    /** Entering walked block (x, y): the state is what sweeping the block needs. */
    lemma EnterBlock(at: Vectors.Vec, y: nat, x: nat, g0: Grid<Particle>, min: IntVec, max: IntVec, size0: int,
                     to: Particle -> IntVec, hit: set<Particle>, S: set<Particle>, c0: map<Particle, seq<Particle>>)
      requires Walking(2, at, y, x, g0, min, max, size0, to, hit, S, c0) == true
      ensures Valid() && Rectangular(g0, Width(), Height()) && Consistent(g0, Width(), Height(), to)
      ensures Consistent(Cells, Width(), Height(), to) && Members <= S && Probed(S, to, hit, at)
      ensures Cells == SweepTo(g0, Width(), Height(), min, max, hit, y, x)
      ensures size == size0 - |All(SweptTo(g0, Width(), Height(), min, max, hit, y, x), Width(), Height())|
      ensures Severed(c0, Held(SweptTo(g0, Width(), Height(), min, max, hit, y, x)))
    {
      WalkingIs(at, y, x, g0, min, max, size0, to, hit, S, c0);
      SweepToConsistent(g0, Width(), Height(), min, max, hit, y, x, to);
    }

    /** Leaving walked block (x, y) once it is swept: the walk state is the one at block (x + 1, y). */
    lemma LeaveBlock(at: Vectors.Vec, y: nat, x: nat, g0: Grid<Particle>, min: IntVec, max: IntVec, size0: int,
                     to: Particle -> IntVec, hit: set<Particle>, S: set<Particle>, c0: map<Particle, seq<Particle>>,
                     gb: Grid<Particle>, sb: int)
      requires Valid() && Rectangular(g0, Width(), Height()) && Consistent(g0, Width(), Height(), to)
      requires Members <= S && Probed(S, to, hit, at)
      requires y < Height() && x < Width() && Walked(Width(), Height(), min, max, x, y)
      requires gb == SweepTo(g0, Width(), Height(), min, max, hit, y, x)
      requires sb == size0 - |All(SweptTo(g0, Width(), Height(), min, max, hit, y, x), Width(), Height())|
      requires Cells == Update(gb, Width(), Height(), IntVec(x, y), Sweep(gb[y][x], 0, hit))
      requires size == sb - |Swept(gb[y][x], 0, hit)|
      requires Severed(c0, Held(SweptTo(g0, Width(), Height(), min, max, hit, y, x)) + set q | q in Swept(gb[y][x], 0, hit))
      ensures Walking(2, at, y, x + 1, g0, min, max, size0, to, hit, S, c0) == true
    {
      SweepToAdvance(g0, Width(), Height(), min, max, hit, y, x, gb);
      WalkingFrom(at, y, x + 1, g0, min, max, size0, to, hit, S, c0);
    }

    /** The walk state at block (x, y) from its parts. */
    lemma WalkingFrom(at: Vectors.Vec, y: int, x: int, g0: Grid<Particle>, min: IntVec, max: IntVec, size0: int,
                      to: Particle -> IntVec, hit: set<Particle>, S: set<Particle>, c0: map<Particle, seq<Particle>>)
      requires Valid() && Rectangular(g0, Width(), Height()) && Consistent(g0, Width(), Height(), to)
      requires Members <= S && Probed(S, to, hit, at)
      requires Cells == SweepTo(g0, Width(), Height(), min, max, hit, y, x)
      requires size == size0 - |All(SweptTo(g0, Width(), Height(), min, max, hit, y, x), Width(), Height())|
      requires Severed(c0, Held(SweptTo(g0, Width(), Height(), min, max, hit, y, x)))
      ensures Walking(2, at, y, x, g0, min, max, size0, to, hit, S, c0) == true
    {
      WalkingIs(at, y, x, g0, min, max, size0, to, hit, S, c0);
    }

    /**
     * SweepingWindow behind n layers of definition. The loops of the sweep carry Walking(2, ..)
     * rather than SweepingWindow itself, so that the verifier does not unfold the whole walk
     * state at every step; n only bounds that unfolding and has no meaning of its own.
     */
    ghost predicate Walking(n: nat, at: Vectors.Vec, y: int, x: int, g0: Grid<Particle>, min: IntVec, max: IntVec,
                            size0: int, to: Particle -> IntVec, hit: set<Particle>, S: set<Particle>,
                            c0: map<Particle, seq<Particle>>)
      reads this, blocks, S`pos, S`renderBounds, c0.Keys`connections
      decreases n
    {
      if n == 0 then SweepingWindow(at, y, x, g0, min, max, size0, to, hit, S, c0)
      else Walking(n - 1, at, y, x, g0, min, max, size0, to, hit, S, c0)
    }

    /** Walking(2, ..) is the walk state SweepingWindow: the one place where it is unfolded. */
    lemma WalkingIs(at: Vectors.Vec, y: int, x: int, g0: Grid<Particle>, min: IntVec, max: IntVec,
                    size0: int, to: Particle -> IntVec, hit: set<Particle>, S: set<Particle>,
                    c0: map<Particle, seq<Particle>>)
      ensures Walking(2, at, y, x, g0, min, max, size0, to, hit, S, c0) == SweepingWindow(at, y, x, g0, min, max, size0, to, hit, S, c0)
    {
      assert Walking(0, at, y, x, g0, min, max, size0, to, hit, S, c0) == SweepingWindow(at, y, x, g0, min, max, size0, to, hit, S, c0);
    }

    /** At the end of a walked row the walk goes on at column minX of the next row. */
    lemma NextRow(at: Vectors.Vec, y: int, g0: Grid<Particle>, min: IntVec, max: IntVec,
                  size0: int, to: Particle -> IntVec, hit: set<Particle>, S: set<Particle>,
                  c0: map<Particle, seq<Particle>>)
      requires 0 <= y
      requires Walking(2, at, y, XEnd(Clamp(min.x, Width()), Clamp(max.x, Width())), g0, min, max, size0, to, hit, S, c0) == true
      ensures Walking(2, at, y + 1, Clamp(min.x, Width()), g0, min, max, size0, to, hit, S, c0) == true
    {
      WalkingIs(at, y, XEnd(Clamp(min.x, Width()), Clamp(max.x, Width())), g0, min, max, size0, to, hit, S, c0);
      WalkingIs(at, y + 1, Clamp(min.x, Width()), g0, min, max, size0, to, hit, S, c0);
      SweepToNextRow(g0, Width(), Height(), min, max, hit, y);
    }

    /** The block each particle held belongs in by its current position; a particle not held is sent to (0, 0). */
    ghost function Targets(): (to: Particle -> IntVec)
      reads this, Members`pos
      ensures forall p :: p in Members ==> to(p) == BlockPos(p.pos)
    {
      var m := map p | p in Members :: BlockPos(p.pos);
      p => if p in m then m[p] else IntVec(0, 0)
    }

    /** Every particle in a block is held. */
    lemma CellHeld(y: nat, x: nat, p: Particle)
      requires Valid() && y < Height() && x < Width() && p in Cells[y][x]
      ensures p in Members
    {
      assert p in Held(Cells);
    }

    /** The particles held whose position maps off the grid: updateBlocks drops them. */
    ghost function Departing(): set<Particle>
      reads this, Members`pos
    {
      set p | p in Members && !InGrid(BlockPos(p.pos), Width(), Height())
    }

    /** The inner loop of updateBlocks' collect pass: the misplaced particles of block (x, y), in list order. */
    method CellMisplaced(y: nat, x: nat, ghost to: Particle -> IntVec) returns (found: seq<Move<Particle>>)
      requires Valid() && y < Height() && x < Width() && to == Targets()
      ensures found == CellMoves(Cells[y][x], IntVec(x, y), to)
    {
      var block := blocks[y, x];
      found := [];
      for i := 0 to |block|
        invariant found + CellMoves(block[i..], IntVec(x, y), to) == CellMoves(block, IntVec(x, y), to)
      {
        var p := block[i];
        var c := BlockPos(p.pos);
        CellHeld(y, x, p);
        CellMovesNext(found, block, i, IntVec(x, y), to);
        if c.x != x || c.y != y {
          found := found + [Move(p, IntVec(x, y), c)];
        }
      }
    }

    /** updateBlocks' collect pass: every misplaced particle with the block it was found in, block by block. */
    method CollectMisplaced() returns (wrong: seq<Move<Particle>>)
      requires Valid()
      ensures wrong == Misplaced(Cells, Width(), Height(), Targets())
    {
      ghost var to := Targets();
      var w, h := blocks.Length1, blocks.Length0;
      wrong := [];
      for y := 0 to h
        invariant wrong + GridMoves(Cells, w, h, y, to) == GridMoves(Cells, w, h, 0, to)
      {
        var row := RowMisplaced(y, to);
        ghost var rest := GridMoves(Cells, w, h, y + 1, to);
        assert GridMoves(Cells, w, h, y, to) == row + rest;
        assert wrong + (row + rest) == (wrong + row) + rest;
        wrong := wrong + row;
      }
    }

    /** The x loop of the collect pass over row y: the misplaced particles of the row, block by block. */
    method RowMisplaced(y: nat, ghost to: Particle -> IntVec) returns (found: seq<Move<Particle>>)
      requires Valid() && y < Height() && to == Targets()
      ensures found == RowMoves(Cells, Width(), Height(), y, 0, to)
    {
      var w, h := blocks.Length1, blocks.Length0;
      found := [];
      for x := 0 to w
        invariant found + RowMoves(Cells, w, h, y, x, to) == RowMoves(Cells, w, h, y, 0, to)
      {
        var cell := CellMisplaced(y, x, to);
        ghost var rest := RowMoves(Cells, w, h, y, x + 1, to);
        assert RowMoves(Cells, w, h, y, x, to) == cell + rest;
        assert found + (cell + rest) == (found + cell) + rest;
        found := found + cell;
      }
    }

    /**
     * updateBlocks' apply step for one collected entry: Block.remove on the block the
     * particle was found in, then add, which re-files it or drops it.
     */
    method Relocate(m: Move<Particle>)
      requires Valid() && InGrid(m.from, Width(), Height()) && m.target == BlockPos(m.item.pos)
      modifies this, blocks, Members`connections
      ensures Valid()
      ensures Cells == ApplyMove(old(Cells), Width(), Height(), m)
      ensures size == old(size) - if InGrid(m.target, Width(), Height()) then 0 else 1
      ensures InGrid(m.target, Width(), Height()) ==> forall q :: q in old(Members) ==> q.connections == old(q.connections)
      ensures !InGrid(m.target, Width(), Height()) ==>
        forall q :: q in Members && NoDup(old(q.connections)) ==> q.connections == RemoveFirst(old(q.connections), m.item)
      ensures Members <= old(Members) + {m.item}
      ensures forall q :: q in old(Members) && q != m.item ==> q in Members
      ensures InGrid(m.target, Width(), Height()) ==> m.item in Members
    {
      BlockRemove(m.from, m.item);
      Add(m.item);
    }

    /**
     * Against a snapshot c0 of the connection lists: every particle of c0 outside d is still
     * held and, where its list had no duplicates, has lost exactly the particles of d.
     */
    ghost predicate Linked(c0: map<Particle, seq<Particle>>, d: set<Particle>)
      reads this, c0.Keys
    {
      forall q :: q in c0 && q !in d ==> q in Members && (NoDup(c0[q]) ==> q.connections == Without(c0[q], d))
    }

    /** Relocate, tracked against a snapshot of the connection lists. */
    method RelocateLinked(m: Move<Particle>, ghost c0: map<Particle, seq<Particle>>, ghost d: set<Particle>)
      requires Valid() && InGrid(m.from, Width(), Height()) && m.target == BlockPos(m.item.pos)
      requires Linked(c0, d)
      modifies this, blocks, Members`connections
      ensures Valid()
      ensures Cells == ApplyMove(old(Cells), Width(), Height(), m)
      ensures size == old(size) - if InGrid(m.target, Width(), Height()) then 0 else 1
      ensures Members <= old(Members) + {m.item}
      ensures Linked(c0, d + if InGrid(m.target, Width(), Height()) then {} else {m.item})
    {
      ghost var d' := d + if InGrid(m.target, Width(), Height()) then {} else {m.item};
      label before:
      Relocate(m);
      forall q | q in c0 && q !in d' ensures q in Members {
        assert q in old@before(Members);
        if q != m.item {
          assert q in old@before(Members) && q != m.item;
        } else {
          assert InGrid(m.target, Width(), Height());
        }
      }
      forall q | q in c0 && q !in d' && NoDup(c0[q]) ensures q.connections == Without(c0[q], d') {
        assert q in old@before(Members);
        ghost var before := old@before(q.connections);
        assert before == Without(c0[q], d);
        if InGrid(m.target, Width(), Height()) {
          assert d' == d;
          assert q.connections == before;
        } else {
          assert d' == d + {m.item};
          WithoutNoDup(c0[q], d);
          assert q in Members && NoDup(before);
          assert q.connections == RemoveFirst(before, m.item);
          RemoveFirstWithout(c0[q], d, m.item);
        }
      }
    }

    /**
     * updateBlocks' apply pass over the collected entries wrong (the moves Misplaced finds for
     * the targets to): Relocate for each in turn. Afterwards every particle sits in the block
     * its position maps to; the particles carried off the grid (gone) are no longer held,
     * are dropped from the count and are severed from every particle still held.
     */
    method RelocateAll(wrong: seq<Move<Particle>>, ghost to: Particle -> IntVec, ghost gone: set<Particle>)
      requires Valid() && wrong == Misplaced(Cells, Width(), Height(), to) && gone == Dropped(wrong, Width(), Height())
      requires forall p :: p in Members ==> to(p) == BlockPos(p.pos)
      requires forall j :: 0 <= j < |wrong| ==> wrong[j].item in Members && wrong[j].target == BlockPos(wrong[j].item.pos)
      modifies this, blocks, Members`connections
      ensures Valid() && AtRest()
      ensures Cells == ApplyMoves(old(Cells), Width(), Height(), wrong)
      ensures size == old(size) - Departures(wrong, Width(), Height())
      ensures Members == old(Members) - gone
      ensures forall q :: (q in Members && NoDup(old(q.connections))
        ==> q.connections == Without(old(q.connections), gone))
    {
      ghost var g0, m0 := Cells, Members;
      ghost var c0 := map q | q in Members :: q.connections;
      forall q | q in c0 ensures Without(c0[q], {}) == c0[q] {
        WithoutNothing(c0[q]);
      }
      RelocateEach(wrong, c0);
      forall p | p in m0 - gone ensures p in Members {
        assert p in c0;
      }
      forall p | p in Members ensures to(p) == BlockPos(p.pos) {
        assert p in m0 && p.pos == old(p.pos);
      }
      Settled(g0, m0, to, gone);
    }

    /** After the apply pass: the grid is at rest and holds exactly the particles not carried off. */
    lemma Settled(g0: Grid<Particle>, m0: set<Particle>, to: Particle -> IntVec, gone: set<Particle>)
      requires Valid() && Rectangular(g0, Width(), Height()) && m0 == Held(g0)
      requires Cells == ApplyMoves(g0, Width(), Height(), Misplaced(g0, Width(), Height(), to))
      requires gone == Dropped(Misplaced(g0, Width(), Height(), to), Width(), Height())
      requires Members <= m0 && forall p :: p in m0 - gone ==> p in Members
      requires forall p :: p in Members ==> to(p) == BlockPos(p.pos)
      ensures AtRest() && Members == m0 - gone
    {
      RebucketedHeld(g0, Width(), Height(), to);
      forall p | p in Members ensures p in m0 - gone {
        MisplacedDropped(g0, Width(), Height(), to, p);
      }
      assert Members == m0 - gone;
      RebucketedConsistent(g0, Width(), Height(), to);
      ConsistentAtRest(to);
    }

    /** The loop of RelocateAll, with the connections before it as c0: Linked holds throughout. */
    method RelocateEach(wrong: seq<Move<Particle>>, ghost c0: map<Particle, seq<Particle>>)
      requires Valid() && FromInGrid(wrong, Width(), Height())
      requires forall j :: 0 <= j < |wrong| ==> wrong[j].item in Members && wrong[j].target == BlockPos(wrong[j].item.pos)
      requires Linked(c0, {})
      modifies this, blocks, Members`connections
      ensures Valid()
      ensures Cells == ApplyMoves(old(Cells), Width(), Height(), wrong)
      ensures size == old(size) - Departures(wrong, Width(), Height())
      ensures Members <= old(Members)
      ensures Linked(c0, Dropped(wrong, Width(), Height()))
    {
      assert wrong[..0] == [];
      for k := 0 to |wrong|
        invariant Valid()
        invariant Cells == ApplyMoves(old(Cells), Width(), Height(), wrong[..k])
        invariant size == old(size) - Departures(wrong[..k], Width(), Height())
        invariant Members <= old(Members)
        invariant Linked(c0, Dropped(wrong[..k], Width(), Height()))
      {
        PrefixStep(old(Cells), Width(), Height(), wrong, k);
        RelocateLinked(wrong[k], c0, Dropped(wrong[..k], Width(), Height()));
      }
      assert wrong[..|wrong|] == wrong;
    }

    /**
     * updateBlocks: collects every misplaced particle, then moves each in turn. Afterwards
     * every particle held sits in the block of its position (see Grids.Rebucketed for the
     * contents of each block); those whose block is off the grid are dropped, with the
     * count lowered by one each and every remaining connection to them severed.
     */
    method UpdateBlocks()
      requires Valid()
      modifies this, blocks, Members`connections
      ensures Valid() && AtRest()
      ensures Cells == ApplyMoves(old(Cells), Width(), Height(), Misplaced(old(Cells), Width(), Height(), old(Targets())))
      ensures size == old(size) - Departures(Misplaced(old(Cells), Width(), Height(), old(Targets())), Width(), Height())
      ensures Members == old(Members) - old(Departing())
      ensures forall q :: q in Members && NoDup(old(q.connections)) ==> q.connections == Without(old(q.connections), old(Departing()))
    {
      ghost var to := Targets();
      ghost var gone := Departing();
      var wrong := CollectMisplaced();
      DroppedDeparting(Cells, to, wrong);
      MisplacedTargets(Cells, to, wrong);
      RelocateAll(wrong, to, gone);
    }

    /** A grid consistent with targets that name each member's own block is at rest. */
    lemma ConsistentAtRest(to: Particle -> IntVec)
      requires Valid() && Consistent(Cells, Width(), Height(), to)
      requires forall p :: p in Members ==> to(p) == BlockPos(p.pos)
      ensures AtRest()
    {
      forall y, x, p | 0 <= y < Height() && 0 <= x < Width() && p in Cells[y][x] ensures BlockPos(p.pos) == IntVec(x, y) {
        CellHeld(y, x, p);
      }
    }

    /** The particles the collected moves carry off the grid are exactly the departing ones. */
    lemma DroppedDeparting(g0: Grid<Particle>, to: Particle -> IntVec, wrong: seq<Move<Particle>>)
      requires Valid() && g0 == Cells && to == Targets()
      requires wrong == Misplaced(g0, Width(), Height(), to)
      ensures Dropped(wrong, Width(), Height()) == Departing()
    {
      forall p | p in Dropped(wrong, Width(), Height()) ensures p in Departing() {
        MisplacedDropped(g0, Width(), Height(), to, p);
      }
      forall p | p in Departing() ensures p in Dropped(wrong, Width(), Height()) {
        MisplacedDropped(g0, Width(), Height(), to, p);
      }
    }

    /** Each collected move carries a particle held to the block its position maps to. */
    lemma MisplacedTargets(g0: Grid<Particle>, to: Particle -> IntVec, wrong: seq<Move<Particle>>)
      requires Valid() && g0 == Cells && to == Targets()
      requires wrong == Misplaced(g0, Width(), Height(), to)
      ensures forall j :: 0 <= j < |wrong| ==> wrong[j].item in Members && wrong[j].target == BlockPos(wrong[j].item.pos)
    {
    }
  }
}
