/**
 * The block grid of ParticleContainer.java as a value. blocks[y][x] becomes g[y][x], the
 * particle list of the Block in row y and column x. Everything here is generic in the
 * element type; the container instantiates it with particles.
 */
module Grids {
  import opened Lists
  import opened IntVectors

  /** g[y][x] is the list of the block in row y, column x. */
  type Grid<T> = seq<seq<seq<T>>>

  /** h rows of w blocks each. */
  predicate Rectangular<T>(g: Grid<T>, w: nat, h: nat)
  {
    |g| == h && forall y :: 0 <= y < h ==> |g[y]| == w
  }

  /** A block position inside the grid: the test add makes with isInRange(0, 0, w, h). */
  predicate InGrid(c: IntVec, w: nat, h: nat)
  {
    c.IsInRange(0, 0, w, h)
  }

  /** The list of the block at c. */
  function Cell<T>(g: Grid<T>, w: nat, h: nat, c: IntVec): seq<T>
    requires Rectangular(g, w, h) && InGrid(c, w, h)
  {
    g[c.y][c.x]
  }

  /** g[y][x] where it exists, and an empty list outside the grid. */
  function BlockAt<T>(g: Grid<T>, y: int, x: int): seq<T>
  {
    if 0 <= y < |g| && 0 <= x < |g[y]| then g[y][x] else []
  }

  /** The grid with the list of block c replaced by s. */
  function Update<T>(g: Grid<T>, w: nat, h: nat, c: IntVec, s: seq<T>): (r: Grid<T>)
    requires Rectangular(g, w, h) && InGrid(c, w, h)
    ensures Rectangular(r, w, h)
    ensures forall y, x :: 0 <= y < h && 0 <= x < w ==> r[y][x] == if y == c.y && x == c.x then s else g[y][x]
  {
    g[c.y := g[c.y][c.x := s]]
  }

  /** h rows of w empty blocks: the grid of a new container. */
  function EmptyGrid<T>(w: nat, h: nat): (r: Grid<T>)
    ensures Rectangular(r, w, h)
    ensures forall y, x :: 0 <= y < h && 0 <= x < w ==> r[y][x] == []
  {
    seq(h, _ => seq(w, _ => []))
  }

  /** Math.max(0, Math.min(hi, v)): the clamping iterator(min, max) applies to each corner. */
  function Clamp(v: int, hi: nat): (r: nat)
    ensures r <= hi
    ensures 0 <= v <= hi ==> r == v
    ensures v < 0 ==> r == 0
    ensures v > hi ==> r == hi
  {
    if v < 0 then 0 else if v > hi then hi else v
  }

  /**
   * The column bound the iterator really uses. It resets x to minX only once ++x >= maxX,
   * after reading block (y, minX); so when maxX <= minX it still visits column minX.
   */
  function XEnd(minX: nat, maxX: nat): (r: nat)
    ensures minX < r
    ensures minX < maxX ==> r == maxX
  {
    if maxX <= minX then minX + 1 else maxX
  }

  /** The concatenated lists of row y, columns x up to xe (exclusive). */
  function RowRun<T>(g: Grid<T>, y: nat, x: nat, xe: nat): seq<T>
    requires y < |g| && x <= xe <= |g[y]|
    decreases xe - x
  {
    if x == xe then [] else g[y][x] + RowRun(g, y, x + 1, xe)
  }

  /** Rows y up to ye of columns x0 up to xe, in row-major order: y outer, x inner. */
  function Rows<T>(g: Grid<T>, w: nat, h: nat, y: nat, ye: nat, x0: nat, xe: nat): seq<T>
    requires Rectangular(g, w, h) && y <= ye <= h && x0 <= xe <= w
    decreases ye - y
  {
    if y == ye then [] else RowRun(g, y, x0, xe) + Rows(g, w, h, y + 1, ye, x0, xe)
  }

  /** Every particle of the grid, row by row. */
  function All<T>(g: Grid<T>, w: nat, h: nat): seq<T>
    requires Rectangular(g, w, h)
  {
    Rows(g, w, h, 0, h, 0, w)
  }

  /** An element lies in a run of a row exactly when it lies in one of its blocks. */
  lemma {:induction false} RowRunMembership<T>(g: Grid<T>, y: nat, x: nat, xe: nat, p: T)
    requires y < |g| && x <= xe <= |g[y]|
    ensures p in RowRun(g, y, x, xe) <==> exists i :: x <= i < xe && p in g[y][i]
    decreases xe - x
  {
    if x < xe {
      assert RowRun(g, y, x, xe) == g[y][x] + RowRun(g, y, x + 1, xe);
      RowRunMembership(g, y, x + 1, xe, p);
      if p in RowRun(g, y, x + 1, xe) {
        var i :| x + 1 <= i < xe && p in g[y][i];
        assert x <= i < xe && p in g[y][i];
      }
      if exists i :: x <= i < xe && p in g[y][i] {
        var i :| x <= i < xe && p in g[y][i];
        if i != x {
          assert x + 1 <= i < xe && p in g[y][i];
        }
      }
    }
  }

  /** An element lies in a rectangle of rows exactly when it lies in one of its blocks. */
  lemma RowsMembership<T>(g: Grid<T>, w: nat, h: nat, y: nat, ye: nat, x0: nat, xe: nat, p: T)
    requires Rectangular(g, w, h) && y <= ye <= h && x0 <= xe <= w
    ensures p in Rows(g, w, h, y, ye, x0, xe) <==> exists j, i :: y <= j < ye && x0 <= i < xe && p in g[j][i]
  {
    if !exists j, i :: y <= j < ye && x0 <= i < xe && p in g[j][i] {
      forall j | y <= j < ye
        ensures RunLacks(g, j, x0, xe, p)
      {
        RowRunMembership(g, j, x0, xe, p);
      }
      RowsMissing(g, w, h, y, ye, x0, xe, p);
    }
    if exists j, i :: y <= j < ye && x0 <= i < xe && p in g[j][i] {
      var j, i :| y <= j < ye && x0 <= i < xe && p in g[j][i];
      RowsHas(g, w, h, y, ye, x0, xe, j, i, p);
    }
  }

  /** What block (i, j) lists lies in every rectangle of rows that covers the block. */
  lemma {:induction false} RowsHas<T>(g: Grid<T>, w: nat, h: nat, y: nat, ye: nat, x0: nat, xe: nat, j: nat, i: nat, p: T)
    requires Rectangular(g, w, h) && y <= j < ye <= h && x0 <= i < xe <= w && p in g[j][i]
    ensures p in Rows(g, w, h, y, ye, x0, xe)
    decreases ye - y
  {
    assert Rows(g, w, h, y, ye, x0, xe) == RowRun(g, y, x0, xe) + Rows(g, w, h, y + 1, ye, x0, xe);
    if j == y {
      RowRunMembership(g, y, x0, xe, p);
    } else {
      RowsHas(g, w, h, y + 1, ye, x0, xe, j, i, p);
    }
  }

  /** Whether the run of row y from column x0 up to xe lacks element p. */
  ghost predicate RunLacks<T>(g: Grid<T>, y: nat, x0: nat, xe: nat, p: T)
    requires y < |g| && x0 <= xe <= |g[y]|
  {
    p !in RowRun(g, y, x0, xe)
  }

  /** What no run of a rectangle of rows holds is not in the rectangle's rows. */
  lemma {:induction false} RowsMissing<T>(g: Grid<T>, w: nat, h: nat, y: nat, ye: nat, x0: nat, xe: nat, p: T)
    requires Rectangular(g, w, h) && y <= ye <= h && x0 <= xe <= w
    requires forall j :: y <= j < ye ==> RunLacks(g, j, x0, xe, p)
    ensures p !in Rows(g, w, h, y, ye, x0, xe)
    decreases ye - y
  {
    if y < ye {
      RowsMissing(g, w, h, y + 1, ye, x0, xe, p);
      RowsJoin(g, w, h, y, ye, x0, xe, p);
    }
  }

  /** What neither the first row's run nor the rest holds, a rectangle of rows does not hold. */
  lemma RowsJoin<T>(g: Grid<T>, w: nat, h: nat, y: nat, ye: nat, x0: nat, xe: nat, p: T)
    requires Rectangular(g, w, h) && y < ye <= h && x0 <= xe <= w
    requires RunLacks(g, y, x0, xe, p) && p !in Rows(g, w, h, y + 1, ye, x0, xe)
    ensures p !in Rows(g, w, h, y, ye, x0, xe)
  {
    assert Rows(g, w, h, y, ye, x0, xe) == RowRun(g, y, x0, xe) + Rows(g, w, h, y + 1, ye, x0, xe);
  }


  /** An element is held by the grid exactly when some block lists it. */
  lemma AllMembership<T>(g: Grid<T>, w: nat, h: nat, p: T)
    requires Rectangular(g, w, h)
    ensures p in All(g, w, h) <==> exists y, x :: 0 <= y < h && 0 <= x < w && p in g[y][x]
  {
    RowsMembership(g, w, h, 0, h, 0, w, p);
  }

  /**
   * Whether iterator(min, max) can be created: it reads block (minY, minX) eagerly, which
   * exists only when both clamped minima stay below the grid's width and height.
   */
  predicate Readable(w: nat, h: nat, min: IntVec)
  {
    Clamp(min.x, w) < w && Clamp(min.y, h) < h
  }

  /**
   * What iterator(min, max) yields: the rows from the clamped min.y to the clamped max.y,
   * each over the columns from the clamped min.x to XEnd.
   */
  function Walk<T>(g: Grid<T>, w: nat, h: nat, min: IntVec, max: IntVec): seq<T>
    requires Rectangular(g, w, h) && Readable(w, h, min)
  {
    var minX, minY, maxX, maxY := Clamp(min.x, w), Clamp(min.y, h), Clamp(max.x, w), Clamp(max.y, h);
    if maxY <= minY then [] else Rows(g, w, h, minY, maxY, minX, XEnd(minX, maxX))
  }

  /** Whether block (x, y) lies in the clamped rectangle [min, max). */
  predicate InRect(w: nat, h: nat, min: IntVec, max: IntVec, x: int, y: int)
  {
    Clamp(min.x, w) <= x < Clamp(max.x, w) && Clamp(min.y, h) <= y < Clamp(max.y, h)
  }

  /**
   * On a non-empty clamped rectangle the iterator yields exactly the particles of its
   * blocks.
   */
  lemma WalkMembership<T>(g: Grid<T>, w: nat, h: nat, min: IntVec, max: IntVec, p: T)
    requires Rectangular(g, w, h) && Readable(w, h, min)
    requires Clamp(min.x, w) < Clamp(max.x, w) && Clamp(min.y, h) < Clamp(max.y, h)
    ensures p in Walk(g, w, h, min, max) <==> exists y, x :: InRect(w, h, min, max, x, y) && p in g[y][x]
  {
    var minX, minY, maxX, maxY := Clamp(min.x, w), Clamp(min.y, h), Clamp(max.x, w), Clamp(max.y, h);
    RowsMembership(g, w, h, minY, maxY, minX, maxX, p);
  }

  /** iterator() walks the whole grid: iterator(ZERO, (w, h)) yields every particle in row-major order. */
  lemma WalkWhole<T>(g: Grid<T>, w: nat, h: nat)
    requires Rectangular(g, w, h) && 0 < w && 0 < h
    ensures Walk(g, w, h, ZERO, IntVec(w, h)) == All(g, w, h)
  {
  }

  /**
   * The iterator does not stop at an empty column range: on a one-row grid of two blocks,
   * the rectangle from column 1 to column 0 yields the particles of block (0, 1).
   */
  lemma WalkEmptyColumns<T>(a: T, b: T)
    ensures Walk([[[a], [b]]], 2, 1, IntVec(1, 0), IntVec(0, 1)) == [b]
  {
    var g: Grid<T> := [[[a], [b]]];
    assert RowRun(g, 0, 1, 2) == [b];
  }

  /**
   * One entry of updateBlocks' wrongParticles list: item sits in block from but belongs
   * to block target (which may lie outside the grid).
   */
  datatype Move<T> = Move(item: T, from: IntVec, target: IntVec)

  /** Block.remove on the source block, then add: appended to the target block if that is in the grid. */
  function ApplyMove<T(==)>(g: Grid<T>, w: nat, h: nat, m: Move<T>): (r: Grid<T>)
    requires Rectangular(g, w, h) && InGrid(m.from, w, h)
    ensures Rectangular(r, w, h)
  {
    var g1 := Update(g, w, h, m.from, RemoveFirst(Cell(g, w, h, m.from), m.item));
    if InGrid(m.target, w, h) then Update(g1, w, h, m.target, Cell(g1, w, h, m.target) + [m.item]) else g1
  }

  /** Every move starts from a block of the grid. */
  predicate FromInGrid<T>(ms: seq<Move<T>>, w: nat, h: nat)
  {
    forall i :: 0 <= i < |ms| ==> InGrid(ms[i].from, w, h)
  }

  /** The moves applied one after the other, in list order. */
  function ApplyMoves<T(==)>(g: Grid<T>, w: nat, h: nat, ms: seq<Move<T>>): (r: Grid<T>)
    requires Rectangular(g, w, h) && FromInGrid(ms, w, h)
    ensures Rectangular(r, w, h)
    decreases |ms|
  {
    if ms == [] then g else ApplyMoves(ApplyMove(g, w, h, ms[0]), w, h, ms[1..])
  }

  /** Applying one more move at the end. */
  lemma {:induction false} ApplyMovesSnoc<T>(g: Grid<T>, w: nat, h: nat, ms: seq<Move<T>>, m: Move<T>)
    requires Rectangular(g, w, h) && FromInGrid(ms, w, h) && InGrid(m.from, w, h)
    ensures FromInGrid(ms + [m], w, h)
    ensures ApplyMoves(g, w, h, ms + [m]) == ApplyMove(ApplyMoves(g, w, h, ms), w, h, m)
    decreases |ms|
  {
    if ms != [] {
      assert (ms + [m])[1..] == ms[1..] + [m];
      ApplyMovesSnoc(ApplyMove(g, w, h, ms[0]), w, h, ms[1..], m);
    }
  }

  /** What one move does to the list of block c. */
  function CellStep<T(==)>(s: seq<T>, m: Move<T>, c: IntVec): seq<T>
  {
    (if m.from == c then RemoveFirst(s, m.item) else s) + (if m.target == c then [m.item] else [])
  }

  /** What a list of moves does to the list of block c. */
  function CellAfter<T(==)>(s: seq<T>, ms: seq<Move<T>>, c: IntVec): seq<T>
    decreases |ms|
  {
    if ms == [] then s else CellAfter(CellStep(s, ms[0], c), ms[1..], c)
  }

  /** A move changes each block as CellStep says. */
  lemma ApplyMoveCell<T>(g: Grid<T>, w: nat, h: nat, m: Move<T>, c: IntVec)
    requires Rectangular(g, w, h) && InGrid(m.from, w, h) && InGrid(c, w, h)
    ensures Cell(ApplyMove(g, w, h, m), w, h, c) == CellStep(Cell(g, w, h, c), m, c)
  {
  }

  /** The grid after the moves is, block by block, CellAfter. */
  lemma {:induction false} ApplyMovesCell<T>(g: Grid<T>, w: nat, h: nat, ms: seq<Move<T>>, c: IntVec)
    requires Rectangular(g, w, h) && FromInGrid(ms, w, h) && InGrid(c, w, h)
    ensures Cell(ApplyMoves(g, w, h, ms), w, h, c) == CellAfter(Cell(g, w, h, c), ms, c)
    decreases |ms|
  {
    if ms != [] {
      ApplyMoveCell(g, w, h, ms[0], c);
      ApplyMovesCell(ApplyMove(g, w, h, ms[0]), w, h, ms[1..], c);
    }
  }

  /** Moves in two parts: the second part starts from where the first left the block. */
  lemma {:induction false} CellAfterAppend<T>(s: seq<T>, a: seq<Move<T>>, b: seq<Move<T>>, c: IntVec)
    ensures CellAfter(s, a + b, c) == CellAfter(CellAfter(s, a, c), b, c)
    decreases |a|
  {
    if a == [] {
      assert a + b == b;
    } else {
      assert (a + b)[0] == a[0] && (a + b)[1..] == a[1..] + b;
      CellAfterAppend(CellStep(s, a[0], c), a[1..], b, c);
    }
  }

  /** The items of the moves whose target is c, in list order: what block c receives. */
  function Arrivals<T(==)>(ms: seq<Move<T>>, c: IntVec): seq<T>
  {
    if ms == [] then [] else (if ms[0].target == c then [ms[0].item] else []) + Arrivals(ms[1..], c)
  }

  lemma {:induction false} ArrivalsAppend<T>(a: seq<Move<T>>, b: seq<Move<T>>, c: IntVec)
    ensures Arrivals(a + b, c) == Arrivals(a, c) + Arrivals(b, c)
    decreases |a|
  {
    if a == [] {
      assert a + b == b;
    } else {
      assert (a + b)[0] == a[0] && (a + b)[1..] == a[1..] + b;
      ArrivalsAppend(a[1..], b, c);
    }
  }

  /** Moves that do not leave block c only append their items to it. */
  lemma {:induction false} CellAfterElsewhere<T>(s: seq<T>, ms: seq<Move<T>>, c: IntVec)
    requires forall i :: 0 <= i < |ms| ==> ms[i].from != c
    ensures CellAfter(s, ms, c) == s + Arrivals(ms, c)
    decreases |ms|
  {
    if ms != [] {
      CellAfterElsewhere(CellStep(s, ms[0], c), ms[1..], c);
    }
  }

  /** A move as updateBlocks records it: from its block to the one its target names, which differs. */
  predicate Misplacement<T(==)>(m: Move<T>, to: T -> IntVec)
  {
    m.target == to(m.item) && m.target != m.from
  }

  /** The moves of block c: its misplaced particles in list order. */
  function CellMoves<T(==)>(s: seq<T>, c: IntVec, to: T -> IntVec): (r: seq<Move<T>>)
    ensures forall i :: 0 <= i < |r| ==> r[i].from == c && r[i].item in s && Misplacement(r[i], to)
  {
    if s == [] then []
    else
      var rest := CellMoves(s[1..], c, to);
      if to(s[0]) != c then [Move(s[0], c, to(s[0]))] + rest else rest
  }

  /** Reading the block on from position i: the element there is a move exactly when it is misplaced. */
  lemma CellMovesNext<T>(found: seq<Move<T>>, s: seq<T>, i: nat, c: IntVec, to: T -> IntVec)
    requires i < |s|
    ensures to(s[i]) != c ==>
      found + CellMoves(s[i..], c, to) == (found + [Move(s[i], c, to(s[i]))]) + CellMoves(s[i + 1..], c, to)
    ensures to(s[i]) == c ==> found + CellMoves(s[i..], c, to) == found + CellMoves(s[i + 1..], c, to)
  {
    assert s[i..][1..] == s[i + 1..];
  }

  /** The moves of row y from column x on. */
  function RowMoves<T(==)>(g: Grid<T>, w: nat, h: nat, y: nat, x: nat, to: T -> IntVec): seq<Move<T>>
    requires Rectangular(g, w, h) && y < h && x <= w
    decreases w - x
  {
    if x == w then [] else CellMoves(g[y][x], IntVec(x, y), to) + RowMoves(g, w, h, y, x + 1, to)
  }

  /** The moves of rows y and below. */
  function GridMoves<T(==)>(g: Grid<T>, w: nat, h: nat, y: nat, to: T -> IntVec): seq<Move<T>>
    requires Rectangular(g, w, h) && y <= h
    decreases h - y
  {
    if y == h then [] else RowMoves(g, w, h, y, 0, to) + GridMoves(g, w, h, y + 1, to)
  }

  /**
   * updateBlocks' wrongParticles list: every particle whose target differs from its block,
   * blocks in row-major order, each block in list order.
   */
  function Misplaced<T(==)>(g: Grid<T>, w: nat, h: nat, to: T -> IntVec): (r: seq<Move<T>>)
    requires Rectangular(g, w, h)
    ensures FromInGrid(r, w, h)
    ensures forall i :: 0 <= i < |r| ==> Misplacement(r[i], to) && r[i].item in BlockAt(g, r[i].from.y, r[i].from.x)
    ensures forall i :: 0 <= i < |r| ==> r[i].item in Held(g)
  {
    GridMovesShape(g, w, h, 0, to);
    GridMovesOrigin(g, w, h, 0, to);
    OriginHeld(g, GridMoves(g, w, h, 0, to));
    GridMoves(g, w, h, 0, to)
  }

  /** Every move's particle is listed in the block the move starts from. */
  ghost predicate FromOrigin<T>(g: Grid<T>, ms: seq<Move<T>>)
  {
    forall i :: 0 <= i < |ms| ==> ms[i].item in BlockAt(g, ms[i].from.y, ms[i].from.x)
  }

  lemma FromOriginAppend<T>(g: Grid<T>, a: seq<Move<T>>, b: seq<Move<T>>)
    requires FromOrigin(g, a) && FromOrigin(g, b)
    ensures FromOrigin(g, a + b)
  {
    forall i | 0 <= i < |a + b| ensures (a + b)[i].item in BlockAt(g, (a + b)[i].from.y, (a + b)[i].from.x) {
      if i >= |a| { assert (a + b)[i] == b[i - |a|]; }
    }
  }

  /** A particle listed in a move's origin block is held by the grid. */
  lemma OriginHeld<T>(g: Grid<T>, ms: seq<Move<T>>)
    requires FromOrigin(g, ms)
    ensures forall i :: 0 <= i < |ms| ==> ms[i].item in Held(g)
  {
    forall i | 0 <= i < |ms| ensures ms[i].item in Held(g) {
      var y, x := ms[i].from.y, ms[i].from.x;
      assert 0 <= y < |g| && 0 <= x < |g[y]| && ms[i].item in g[y][x];
    }
  }

  /** Every move of row y from column x on carries a particle of the block it starts from. */
  lemma {:induction false} RowMovesOrigin<T>(g: Grid<T>, w: nat, h: nat, y: nat, x: nat, to: T -> IntVec)
    requires Rectangular(g, w, h) && y < h && x <= w
    ensures FromOrigin(g, RowMoves(g, w, h, y, x, to))
    decreases w - x
  {
    if x < w {
      var own, rest := CellMoves(g[y][x], IntVec(x, y), to), RowMoves(g, w, h, y, x + 1, to);
      RowMovesOrigin(g, w, h, y, x + 1, to);
      assert FromOrigin(g, own);
      FromOriginAppend(g, own, rest);
    }
  }

  /** Every move of rows y and below carries a particle of the block it starts from. */
  lemma {:induction false} GridMovesOrigin<T>(g: Grid<T>, w: nat, h: nat, y: nat, to: T -> IntVec)
    requires Rectangular(g, w, h) && y <= h
    ensures FromOrigin(g, GridMoves(g, w, h, y, to))
    decreases h - y
  {
    if y < h {
      RowMovesOrigin(g, w, h, y, 0, to);
      GridMovesOrigin(g, w, h, y + 1, to);
      FromOriginAppend(g, RowMoves(g, w, h, y, 0, to), GridMoves(g, w, h, y + 1, to));
    }
  }

  /** Every move starts in rows y0 to y1 and columns x0 to x1 (exclusive) and is a misplacement. */
  predicate MovesWithin<T(==)>(ms: seq<Move<T>>, x0: int, x1: int, y0: int, y1: int, to: T -> IntVec)
  {
    forall i :: 0 <= i < |ms| ==> x0 <= ms[i].from.x < x1 && y0 <= ms[i].from.y < y1 && Misplacement(ms[i], to)
  }

  lemma MovesWithinAppend<T>(a: seq<Move<T>>, b: seq<Move<T>>, x0: int, x1: int, y0: int, y1: int, to: T -> IntVec)
    requires MovesWithin(a, x0, x1, y0, y1, to) && MovesWithin(b, x0, x1, y0, y1, to)
    ensures MovesWithin(a + b, x0, x1, y0, y1, to)
  {
    forall i | 0 <= i < |a + b| ensures x0 <= (a + b)[i].from.x < x1 && y0 <= (a + b)[i].from.y < y1 && Misplacement((a + b)[i], to) {
      if i >= |a| { assert (a + b)[i] == b[i - |a|]; }
    }
  }

  /** Row y's moves start in row y, from column x on, and are misplacements. */
  lemma {:induction false} RowMovesShape<T>(g: Grid<T>, w: nat, h: nat, y: nat, x: nat, to: T -> IntVec)
    requires Rectangular(g, w, h) && y < h && x <= w
    ensures MovesWithin(RowMoves(g, w, h, y, x, to), x, w, y, y + 1, to)
    decreases w - x
  {
    if x < w {
      RowMovesShape(g, w, h, y, x + 1, to);
      var own, rest := CellMoves(g[y][x], IntVec(x, y), to), RowMoves(g, w, h, y, x + 1, to);
      MovesWithinAppend(own, rest, x, w, y, y + 1, to);
    }
  }

  /** The moves of rows y and below start there, inside the grid, and are misplacements. */
  lemma {:induction false} GridMovesShape<T>(g: Grid<T>, w: nat, h: nat, y: nat, to: T -> IntVec)
    requires Rectangular(g, w, h) && y <= h
    ensures MovesWithin(GridMoves(g, w, h, y, to), 0, w, y, h, to)
    decreases h - y
  {
    if y < h {
      GridMovesShape(g, w, h, y + 1, to);
      RowMovesShape(g, w, h, y, 0, to);
      var row, rest := RowMoves(g, w, h, y, 0, to), GridMoves(g, w, h, y + 1, to);
      MovesWithinAppend(row, rest, 0, w, y, h, to);
    }
  }

  /** The particles of s that belong to block c, in order: what the block keeps. */
  function Keep<T(==)>(s: seq<T>, c: IntVec, to: T -> IntVec): seq<T>
  {
    if s == [] then [] else (if to(s[0]) == c then [s[0]] else []) + Keep(s[1..], c, to)
  }

  /** s after the first n of its misplaced particles were taken out. */
  function DropWrong<T(==)>(s: seq<T>, n: nat, c: IntVec, to: T -> IntVec): seq<T>
  {
    if s == [] then []
    else if to(s[0]) != c && n > 0 then DropWrong(s[1..], n - 1, c, to)
    else [s[0]] + DropWrong(s[1..], n, c, to)
  }

  lemma {:induction false} DropWrongNone<T>(s: seq<T>, c: IntVec, to: T -> IntVec)
    ensures DropWrong(s, 0, c, to) == s
  {
    if s != [] {
      DropWrongNone(s[1..], c, to);
    }
  }

  lemma {:induction false} DropWrongAll<T>(s: seq<T>, c: IntVec, to: T -> IntVec)
    ensures DropWrong(s, |CellMoves(s, c, to)|, c, to) == Keep(s, c, to)
  {
    if s != [] {
      DropWrongAll(s[1..], c, to);
    }
  }

  /**
   * Block.remove of the n-th misplaced particle finds it at its place: everything before
   * it in the list belongs to the block and so differs from it.
   */
  lemma {:induction false} DropWrongStep<T>(s: seq<T>, n: nat, c: IntVec, to: T -> IntVec)
    requires n < |CellMoves(s, c, to)|
    ensures CellMoves(s, c, to)[n].item in DropWrong(s, n, c, to)
    ensures RemoveFirst(DropWrong(s, n, c, to), CellMoves(s, c, to)[n].item) == DropWrong(s, n + 1, c, to)
  {
    var t := s[1..];
    var w := CellMoves(s, c, to)[n].item;
    if to(s[0]) != c {
      if n > 0 {
        assert CellMoves(s, c, to)[n] == CellMoves(t, c, to)[n - 1];
        DropWrongStep(t, n - 1, c, to);
      } else {
        assert w == s[0];
      }
    } else {
      assert CellMoves(s, c, to)[n] == CellMoves(t, c, to)[n];
      assert to(w) != c;
      DropWrongStep(t, n, c, to);
      RemoveFirstCons(s[0], DropWrong(t, n, c, to), w);
    }
  }

  /**
   * Block c's own moves, from the n-th on, take its remaining misplaced particles out and
   * leave the arrivals A (which all belong to c) behind them untouched.
   */
  lemma {:induction false} OwnMoves<T>(s: seq<T>, n: nat, a: seq<T>, c: IntVec, to: T -> IntVec)
    requires n <= |CellMoves(s, c, to)|
    requires forall p :: p in a ==> to(p) == c
    ensures CellAfter(DropWrong(s, n, c, to) + a, CellMoves(s, c, to)[n..], c) == Keep(s, c, to) + a
    decreases |CellMoves(s, c, to)| - n
  {
    var ms := CellMoves(s, c, to);
    if n == |ms| {
      DropWrongAll(s, c, to);
    } else {
      var m := ms[n];
      DropWrongStep(s, n, c, to);
      assert m.item !in a;
      RemoveFirstAppend(DropWrong(s, n, c, to), a, m.item);
      assert CellStep(DropWrong(s, n, c, to) + a, m, c) == DropWrong(s, n + 1, c, to) + a;
      assert ms[n..][1..] == ms[n + 1..];
      OwnMoves(s, n + 1, a, c, to);
    }
  }

  /** The arrivals of moves recorded as updateBlocks records them belong to their block. */
  lemma {:induction false} ArrivalsBelong<T>(ms: seq<Move<T>>, c: IntVec, to: T -> IntVec)
    requires forall i :: 0 <= i < |ms| ==> Misplacement(ms[i], to)
    ensures forall p :: p in Arrivals(ms, c) ==> to(p) == c
    decreases |ms|
  {
    if ms != [] {
      ArrivalsBelong(ms[1..], c, to);
    }
  }

  /** Arrivals at c appended to a list bound for c leave it bound for c. */
  lemma ExtendArrivals<T>(a: seq<T>, ms: seq<Move<T>>, c: IntVec, to: T -> IntVec)
    requires forall p :: p in a ==> to(p) == c
    requires forall i :: 0 <= i < |ms| ==> Misplacement(ms[i], to)
    ensures forall p :: p in a + Arrivals(ms, c) ==> to(p) == c
  {
    ArrivalsBelong(ms, c, to);
  }

  /** Row y's moves from column x on, where they do not leave block c: only arrivals. */
  lemma RowElsewhere<T>(g: Grid<T>, w: nat, h: nat, y: nat, x: nat, to: T -> IntVec, c: IntVec, a: seq<T>)
    requires Rectangular(g, w, h) && y < h && x <= w
    requires y != c.y || c.x < x
    ensures CellAfter(a, RowMoves(g, w, h, y, x, to), c) == a + Arrivals(RowMoves(g, w, h, y, x, to), c)
  {
    RowMovesShape(g, w, h, y, x, to);
    CellAfterElsewhere(a, RowMoves(g, w, h, y, x, to), c);
  }

  /** Row c.y's moves from column x <= c.x on: block c keeps what belongs to it, then the arrivals. */
  lemma {:induction false} RowOwn<T>(g: Grid<T>, w: nat, h: nat, x: nat, to: T -> IntVec, c: IntVec, a: seq<T>)
    requires Rectangular(g, w, h) && InGrid(c, w, h) && x <= c.x
    requires forall p :: p in a ==> to(p) == c
    ensures CellAfter(g[c.y][c.x] + a, RowMoves(g, w, h, c.y, x, to), c)
         == Keep(g[c.y][c.x], c, to) + a + Arrivals(RowMoves(g, w, h, c.y, x, to), c)
    decreases w - x, 1
  {
    var s := g[c.y][c.x];
    var own := CellMoves(g[c.y][x], IntVec(x, c.y), to);
    var rest := RowMoves(g, w, h, c.y, x + 1, to);
    assert RowMoves(g, w, h, c.y, x, to) == own + rest;
    CellAfterAppend(s + a, own, rest, c);
    ArrivalsAppend(own, rest, c);
    if x < c.x {
      RowOwnBefore(g, w, h, x, to, c, a);
    } else {
      CellOwn(s, c, to, a);
      ArrivalsNone(own, c);
      assert CellAfter(s + a, own, c) == Keep(s, c, to) + a;
      RowElsewhere(g, w, h, c.y, x + 1, to, c, Keep(s, c, to) + a);
      assert Arrivals(own, c) + Arrivals(rest, c) == Arrivals(rest, c);
    }
  }

  /** RowOwn for a column left of c: the block's own moves all go elsewhere or arrive at c. */
  lemma {:induction false} RowOwnBefore<T>(g: Grid<T>, w: nat, h: nat, x: nat, to: T -> IntVec, c: IntVec, a: seq<T>)
    requires Rectangular(g, w, h) && InGrid(c, w, h) && x < c.x
    requires forall p :: p in a ==> to(p) == c
    ensures var own, rest := CellMoves(g[c.y][x], IntVec(x, c.y), to), RowMoves(g, w, h, c.y, x + 1, to);
      CellAfter(CellAfter(g[c.y][c.x] + a, own, c), rest, c)
        == Keep(g[c.y][c.x], c, to) + a + (Arrivals(own, c) + Arrivals(rest, c))
    decreases w - x, 0
  {
    var s := g[c.y][c.x];
    var own := CellMoves(g[c.y][x], IntVec(x, c.y), to);
    var rest := RowMoves(g, w, h, c.y, x + 1, to);
    CellAfterElsewhere(s + a, own, c);
    var a' := a + Arrivals(own, c);
    ExtendArrivals(a, own, c, to);
    assert s + a + Arrivals(own, c) == s + a';
    RowOwn(g, w, h, x + 1, to, c, a');
    Regroup(Keep(s, c, to), a, Arrivals(own, c), Arrivals(rest, c));
  }


  /** Block c's own moves take out its misplaced particles and leave the arrivals a behind. */
  lemma CellOwn<T>(s: seq<T>, c: IntVec, to: T -> IntVec, a: seq<T>)
    requires forall p :: p in a ==> to(p) == c
    ensures CellAfter(s + a, CellMoves(s, c, to), c) == Keep(s, c, to) + a
  {
    var own := CellMoves(s, c, to);
    DropWrongNone(s, c, to);
    assert own[0..] == own;
    OwnMoves(s, 0, a, c, to);
  }

  /** No move targets c: c receives nothing. */
  lemma {:induction false} ArrivalsNone<T>(ms: seq<Move<T>>, c: IntVec)
    requires forall i :: 0 <= i < |ms| ==> ms[i].target != c
    ensures Arrivals(ms, c) == []
    decreases |ms|
  {
    if ms != [] {
      ArrivalsNone(ms[1..], c);
    }
  }

  /** The moves of the rows from y on, all below block c: only arrivals. */
  lemma GridBelow<T>(g: Grid<T>, w: nat, h: nat, y: nat, to: T -> IntVec, c: IntVec, a: seq<T>)
    requires Rectangular(g, w, h) && y <= h && c.y < y
    ensures CellAfter(a, GridMoves(g, w, h, y, to), c) == a + Arrivals(GridMoves(g, w, h, y, to), c)
  {
    GridMovesShape(g, w, h, y, to);
    CellAfterElsewhere(a, GridMoves(g, w, h, y, to), c);
  }

  /** Regrouping a concatenation of four lists. */
  lemma Regroup<T>(k: seq<T>, a: seq<T>, b: seq<T>, c: seq<T>)
    ensures k + a + b == k + (a + b)
    ensures k + (a + b) + c == k + a + (b + c)
  {
  }

  /** The moves of the rows from y <= c.y on: block c keeps what belongs to it, then the arrivals. */
  lemma {:induction false} GridEffect<T>(g: Grid<T>, w: nat, h: nat, y: nat, to: T -> IntVec, c: IntVec, a: seq<T>)
    requires Rectangular(g, w, h) && InGrid(c, w, h) && y <= c.y
    requires forall p :: p in a ==> to(p) == c
    ensures CellAfter(g[c.y][c.x] + a, GridMoves(g, w, h, y, to), c)
         == Keep(g[c.y][c.x], c, to) + a + Arrivals(GridMoves(g, w, h, y, to), c)
    decreases h - y, 1
  {
    if y < c.y {
      GridEffectAbove(g, w, h, y, to, c, a);
    } else {
      GridEffectOwn(g, w, h, to, c, a);
    }
  }

  /** GridEffect for a row above block c: the row only contributes arrivals. */
  lemma {:induction false} GridEffectAbove<T>(g: Grid<T>, w: nat, h: nat, y: nat, to: T -> IntVec, c: IntVec, a: seq<T>)
    requires Rectangular(g, w, h) && InGrid(c, w, h) && y < c.y
    requires forall p :: p in a ==> to(p) == c
    ensures CellAfter(g[c.y][c.x] + a, GridMoves(g, w, h, y, to), c)
         == Keep(g[c.y][c.x], c, to) + a + Arrivals(GridMoves(g, w, h, y, to), c)
    decreases h - y, 0
  {
    var s := g[c.y][c.x];
    var row := RowMoves(g, w, h, y, 0, to);
    var rest := GridMoves(g, w, h, y + 1, to);
    assert GridMoves(g, w, h, y, to) == row + rest;
    CellAfterAppend(s + a, row, rest, c);
    ArrivalsAppend(row, rest, c);
    RowMovesShape(g, w, h, y, 0, to);
    ArrivalsBelong(row, c, to);
    var a' := a + Arrivals(row, c);
    RowElsewhere(g, w, h, y, 0, to, c, s + a);
    Regroup(s, a, Arrivals(row, c), []);
    GridEffect(g, w, h, y + 1, to, c, a');
    Regroup(Keep(s, c, to), a, Arrivals(row, c), Arrivals(rest, c));
  }

  /** GridEffect from block c's own row: the row keeps and gathers, the rows below only deliver. */
  lemma GridEffectOwn<T>(g: Grid<T>, w: nat, h: nat, to: T -> IntVec, c: IntVec, a: seq<T>)
    requires Rectangular(g, w, h) && InGrid(c, w, h)
    requires forall p :: p in a ==> to(p) == c
    ensures CellAfter(g[c.y][c.x] + a, GridMoves(g, w, h, c.y, to), c)
         == Keep(g[c.y][c.x], c, to) + a + Arrivals(GridMoves(g, w, h, c.y, to), c)
  {
    var s := g[c.y][c.x];
    var row := RowMoves(g, w, h, c.y, 0, to);
    var rest := GridMoves(g, w, h, c.y + 1, to);
    assert GridMoves(g, w, h, c.y, to) == row + rest;
    CellAfterAppend(s + a, row, rest, c);
    ArrivalsAppend(row, rest, c);
    RowMovesShape(g, w, h, c.y, 0, to);
    ArrivalsBelong(row, c, to);
    var a' := a + Arrivals(row, c);
    RowOwn(g, w, h, 0, to, c, a);
    Regroup(Keep(s, c, to), a, Arrivals(row, c), Arrivals(rest, c));
    GridBelow(g, w, h, c.y + 1, to, c, Keep(s, c, to) + a');
  }

  /**
   * updateBlocks on block c: it keeps, in their order, the particles that belong to it,
   * followed by the misplaced particles that belong to it, in the order they were found.
   */
  lemma Rebucketed<T>(g: Grid<T>, w: nat, h: nat, to: T -> IntVec, c: IntVec)
    requires Rectangular(g, w, h) && InGrid(c, w, h)
    ensures Cell(ApplyMoves(g, w, h, Misplaced(g, w, h, to)), w, h, c)
         == Keep(Cell(g, w, h, c), c, to) + Arrivals(Misplaced(g, w, h, to), c)
  {
    var ms := Misplaced(g, w, h, to);
    ApplyMovesCell(g, w, h, ms, c);
    BlockAfterAll(g, w, h, to, c);
  }

  /** GridEffect from the first row with nothing appended yet. */
  lemma BlockAfterAll<T>(g: Grid<T>, w: nat, h: nat, to: T -> IntVec, c: IntVec)
    requires Rectangular(g, w, h) && InGrid(c, w, h)
    ensures CellAfter(g[c.y][c.x], GridMoves(g, w, h, 0, to), c)
         == Keep(g[c.y][c.x], c, to) + Arrivals(GridMoves(g, w, h, 0, to), c)
  {
    var s := g[c.y][c.x];
    assert s + [] == s;
    GridEffect(g, w, h, 0, to, c, []);
    assert Keep(s, c, to) + [] == Keep(s, c, to);
  }

  /** Every particle sits in the block its target names. */
  predicate Consistent<T(==)>(g: Grid<T>, w: nat, h: nat, to: T -> IntVec)
    requires Rectangular(g, w, h)
  {
    forall y, x, p :: 0 <= y < h && 0 <= x < w && p in g[y][x] ==> to(p) == IntVec(x, y)
  }

  lemma {:induction false} KeepMembership<T>(s: seq<T>, c: IntVec, to: T -> IntVec, p: T)
    ensures p in Keep(s, c, to) <==> p in s && to(p) == c
  {
    if s != [] {
      KeepMembership(s[1..], c, to, p);
      assert s == [s[0]] + s[1..];
    }
  }

  /**
   * After updateBlocks every particle sits in the block it belongs to; in particular a
   * particle whose target lies outside the grid is held by no block.
   */
  lemma RebucketedConsistent<T>(g: Grid<T>, w: nat, h: nat, to: T -> IntVec)
    requires Rectangular(g, w, h)
    ensures Consistent(ApplyMoves(g, w, h, Misplaced(g, w, h, to)), w, h, to)
  {
    var g' := ApplyMoves(g, w, h, Misplaced(g, w, h, to));
    forall c, p | InGrid(c, w, h) && p in Cell(g', w, h, c) ensures to(p) == c {
      RebucketedBelongs(g, w, h, to, c, p);
    }
    ConsistentByCells(g', w, h, to);
  }

  /** Consistency stated block by block. */
  lemma ConsistentByCells<T>(g: Grid<T>, w: nat, h: nat, to: T -> IntVec)
    requires Rectangular(g, w, h)
    requires forall c, p :: InGrid(c, w, h) && p in Cell(g, w, h, c) ==> to(p) == c
    ensures Consistent(g, w, h, to)
  {
    forall y, x, p | 0 <= y < h && 0 <= x < w && p in g[y][x] ensures to(p) == IntVec(x, y) {
      assert p in Cell(g, w, h, IntVec(x, y));
    }
  }

  /** A particle in block c after updateBlocks belongs to c. */
  lemma RebucketedBelongs<T>(g: Grid<T>, w: nat, h: nat, to: T -> IntVec, c: IntVec, p: T)
    requires Rectangular(g, w, h) && InGrid(c, w, h)
    requires p in Cell(ApplyMoves(g, w, h, Misplaced(g, w, h, to)), w, h, c)
    ensures to(p) == c
  {
    var ms := Misplaced(g, w, h, to);
    Rebucketed(g, w, h, to, c);
    ArrivalsBelong(ms, c, to);
    if p in Keep(g[c.y][c.x], c, to) {
      KeepMembership(g[c.y][c.x], c, to, p);
    }
  }

  /** Block c's moves include one for each of its misplaced particles. */
  lemma {:induction false} CellMovesHas<T>(s: seq<T>, c: IntVec, to: T -> IntVec, p: T)
    requires p in s && to(p) != c
    ensures Move(p, c, to(p)) in CellMoves(s, c, to)
  {
    if s[0] != p {
      CellMovesHas(s[1..], c, to, p);
    }
  }

  lemma {:induction false} RowMovesHas<T>(g: Grid<T>, w: nat, h: nat, y: nat, x: nat, to: T -> IntVec, x': nat, m: Move<T>)
    requires Rectangular(g, w, h) && y < h && x <= x' < w
    requires m in CellMoves(g[y][x'], IntVec(x', y), to)
    ensures m in RowMoves(g, w, h, y, x, to)
    decreases w - x
  {
    assert RowMoves(g, w, h, y, x, to) == CellMoves(g[y][x], IntVec(x, y), to) + RowMoves(g, w, h, y, x + 1, to);
    if x < x' {
      RowMovesHas(g, w, h, y, x + 1, to, x', m);
    }
  }

  lemma {:induction false} GridMovesHas<T>(g: Grid<T>, w: nat, h: nat, y: nat, to: T -> IntVec, y': nat, m: Move<T>)
    requires Rectangular(g, w, h) && y <= y' < h
    requires m in RowMoves(g, w, h, y', 0, to)
    ensures m in GridMoves(g, w, h, y, to)
    decreases h - y
  {
    assert GridMoves(g, w, h, y, to) == RowMoves(g, w, h, y, 0, to) + GridMoves(g, w, h, y + 1, to);
    if y < y' {
      GridMovesHas(g, w, h, y + 1, to, y', m);
    }
  }

  lemma {:induction false} ArrivalsHas<T>(ms: seq<Move<T>>, m: Move<T>)
    requires m in ms
    ensures m.item in Arrivals(ms, m.target)
  {
    if ms[0] != m {
      ArrivalsHas(ms[1..], m);
    }
  }

  /** updateBlocks loses nobody: a particle whose target lies in the grid ends up in that block. */
  lemma RebucketedKeepsAll<T>(g: Grid<T>, w: nat, h: nat, to: T -> IntVec, y: nat, x: nat, p: T)
    requires Rectangular(g, w, h) && y < h && x < w && p in g[y][x]
    requires InGrid(to(p), w, h)
    ensures p in Cell(ApplyMoves(g, w, h, Misplaced(g, w, h, to)), w, h, to(p))
  {
    var c, t := IntVec(x, y), to(p);
    var ms := Misplaced(g, w, h, to);
    Rebucketed(g, w, h, to, t);
    if t == c {
      KeepMembership(g[y][x], c, to, p);
    } else {
      MisplacedHas(g, w, h, to, y, x, p);
      ArrivalsHas(ms, Move(p, c, t));
    }
  }

  /** Without hits the sweep leaves the block alone. */
  lemma {:induction false} SweepNoHits<T>(s: seq<T>, i: nat, hit: set<T>)
    requires forall p :: p in s ==> p !in hit
    ensures Sweep(s, i, hit) == s && Swept(s, i, hit) == []
    decreases |s| - i
  {
    if i < |s| {
      SweepNoHits(s, i + 1, hit);
    }
  }

  /** How many elements blocks x .. xe of row y hold, counted block by block. */
  ghost function RowSize<T>(g: Grid<T>, y: nat, x: nat, xe: nat): nat
    requires y < |g| && x <= xe <= |g[y]|
    decreases xe - x
  {
    if x == xe then 0 else |g[y][x]| + RowSize(g, y, x + 1, xe)
  }

  /** How many elements rows y .. h hold, counted row by row. */
  ghost function RowsSize<T>(g: Grid<T>, w: nat, h: nat, y: nat): nat
    requires Rectangular(g, w, h) && y <= h
    decreases h - y
  {
    if y == h then 0 else RowSize(g, y, 0, w) + RowsSize(g, w, h, y + 1)
  }

  /** A run of a row is as long as the count of its blocks' elements. */
  lemma {:induction false} RowRunSize<T>(g: Grid<T>, y: nat, x: nat, xe: nat)
    requires y < |g| && x <= xe <= |g[y]|
    ensures |RowRun(g, y, x, xe)| == RowSize(g, y, x, xe)
    decreases xe - x
  {
    if x < xe {
      RowRunSize(g, y, x + 1, xe);
    }
  }

  /** The rows from y on are as long as the count of their elements. */
  lemma {:induction false} RowsSizeIs<T>(g: Grid<T>, w: nat, h: nat, y: nat)
    requires Rectangular(g, w, h) && y <= h
    ensures |Rows(g, w, h, y, h, 0, w)| == RowsSize(g, w, h, y)
    decreases h - y
  {
    if y < h {
      RowRunSize(g, y, 0, w);
      RowsSizeIs(g, w, h, y + 1);
    }
  }

  /** Replacing one block's list changes the count of a run through it by the difference in length. */
  lemma {:induction false} RowSizeUpdate<T>(g: Grid<T>, w: nat, h: nat, c: IntVec, s: seq<T>, y: nat, x: nat, xe: nat)
    requires Rectangular(g, w, h) && InGrid(c, w, h) && y < h && x <= xe <= w
    ensures RowSize(Update(g, w, h, c, s), y, x, xe)
         == RowSize(g, y, x, xe) + (if y == c.y && x <= c.x < xe then |s| - |g[c.y][c.x]| else 0)
    decreases xe - x
  {
    if x < xe {
      RowSizeUpdate(g, w, h, c, s, y, x + 1, xe);
    }
  }

  /** The same for the rows from y on. */
  lemma {:induction false} RowsSizeUpdate<T>(g: Grid<T>, w: nat, h: nat, c: IntVec, s: seq<T>, y: nat)
    requires Rectangular(g, w, h) && InGrid(c, w, h) && y <= h
    ensures RowsSize(Update(g, w, h, c, s), w, h, y)
         == RowsSize(g, w, h, y) + (if y <= c.y then |s| - |g[c.y][c.x]| else 0)
    decreases h - y
  {
    if y < h {
      RowSizeUpdate(g, w, h, c, s, y, 0, w);
      RowsSizeUpdate(g, w, h, c, s, y + 1);
    }
  }

  /** The number of particles held after one block's list was replaced. */
  lemma AllUpdateSize<T>(g: Grid<T>, w: nat, h: nat, c: IntVec, s: seq<T>)
    requires Rectangular(g, w, h) && InGrid(c, w, h)
    ensures |All(Update(g, w, h, c, s), w, h)| == |All(g, w, h)| - |Cell(g, w, h, c)| + |s|
  {
    RowsSizeIs(Update(g, w, h, c, s), w, h, 0);
    RowsSizeIs(g, w, h, 0);
    RowsSizeUpdate(g, w, h, c, s, 0);
  }

  /** Every element held anywhere in the grid. */
  ghost function Held<T>(g: Grid<T>): set<T>
  {
    set y, x, p | 0 <= y < |g| && 0 <= x < |g[y]| && p in g[y][x] :: p
  }

  /** What one block update can add to or take from the elements held. */
  lemma HeldUpdate<T>(g: Grid<T>, w: nat, h: nat, c: IntVec, s: seq<T>)
    requires Rectangular(g, w, h) && InGrid(c, w, h)
    ensures forall p :: p in Held(Update(g, w, h, c, s)) ==> p in Held(g) || p in s
    ensures forall p :: p in s ==> p in Held(Update(g, w, h, c, s))
    ensures forall p :: p in Held(g) && (p in Cell(g, w, h, c) ==> p in s) ==> p in Held(Update(g, w, h, c, s))
  {
    var g' := Update(g, w, h, c, s);
    forall p | p in Held(g') ensures p in Held(g) || p in s {
      var y, x :| 0 <= y < |g'| && 0 <= x < |g'[y]| && p in g'[y][x];
    }
    forall p | p in s ensures p in Held(g') {
      assert p in g'[c.y][c.x];
    }
    forall p | p in Held(g) && (p in Cell(g, w, h, c) ==> p in s) ensures p in Held(g') {
      var y, x :| 0 <= y < |g| && 0 <= x < |g[y]| && p in g[y][x];
      assert p in g'[y][x];
    }
  }

  /** The whole grid, walked block by block, holds exactly the held elements. */
  lemma AllHeld<T>(g: Grid<T>, w: nat, h: nat, p: T)
    requires Rectangular(g, w, h)
    ensures p in All(g, w, h) <==> p in Held(g)
  {
    AllMembership(g, w, h, p);
    if p in Held(g) {
      var y, x :| 0 <= y < |g| && 0 <= x < |g[y]| && p in g[y][x];
    }
  }

  lemma AllIsHeld<T>(g: Grid<T>, w: nat, h: nat)
    requires Rectangular(g, w, h)
    ensures forall p :: p in All(g, w, h) ==> p in Held(g)
    ensures forall p :: p in Held(g) ==> p in All(g, w, h)
  {
    forall p | p in All(g, w, h) ensures p in Held(g) {
      AllHeld(g, w, h, p);
    }
    forall p | p in Held(g) ensures p in All(g, w, h) {
      AllHeld(g, w, h, p);
    }
  }

  /** Every element a window yields is held in the grid. */
  lemma WalkHeld<T>(g: Grid<T>, w: nat, h: nat, min: IntVec, max: IntVec)
    requires Rectangular(g, w, h) && Readable(w, h, min)
    ensures forall p :: p in Walk(g, w, h, min, max) ==> p in Held(g)
  {
    var minX, minY, maxX, maxY := Clamp(min.x, w), Clamp(min.y, h), Clamp(max.x, w), Clamp(max.y, h);
    if minY < maxY {
      forall p | p in Walk(g, w, h, min, max) ensures p in Held(g) {
        RowsMembership(g, w, h, minY, maxY, minX, XEnd(minX, maxX), p);
        var y, x :| minY <= y < maxY && minX <= x < XEnd(minX, maxX) && p in g[y][x];
      }
    }
  }

  /** A misplaced element of any block has its move in the collected list. */
  lemma MisplacedHas<T>(g: Grid<T>, w: nat, h: nat, to: T -> IntVec, y: nat, x: nat, p: T)
    requires Rectangular(g, w, h) && y < h && x < w && p in g[y][x]
    requires to(p) != IntVec(x, y)
    ensures Move(p, IntVec(x, y), to(p)) in Misplaced(g, w, h, to)
  {
    CellMovesHas(g[y][x], IntVec(x, y), to, p);
    RowMovesHas(g, w, h, y, 0, to, x, Move(p, IntVec(x, y), to(p)));
    GridMovesHas(g, w, h, 0, to, y, Move(p, IntVec(x, y), to(p)));
  }

  /** What a window walk still has to yield after block (x, y): the rest of row y, then the rows below. */
  function After<T>(g: Grid<T>, w: nat, h: nat, y: nat, x: nat, maxY: nat, minX: nat, xe: nat): seq<T>
    requires Rectangular(g, w, h) && y < maxY <= h && minX <= x < xe <= w
  {
    RowRun(g, y, x + 1, xe) + Rows(g, w, h, y + 1, maxY, minX, xe)
  }

  /** Leaving block (x, y) within the row: the next block of the row comes next. */
  lemma AfterNextBlock<T>(g: Grid<T>, w: nat, h: nat, y: nat, x: nat, maxY: nat, minX: nat, xe: nat)
    requires Rectangular(g, w, h) && y < maxY <= h && minX <= x && x + 1 < xe <= w
    ensures After(g, w, h, y, x, maxY, minX, xe) == g[y][x + 1] + After(g, w, h, y, x + 1, maxY, minX, xe)
  {
    assert RowRun(g, y, x + 1, xe) == g[y][x + 1] + RowRun(g, y, x + 2, xe);
  }

  /** Leaving the last block of a row: the first block of the next row comes next. */
  lemma AfterNextRow<T>(g: Grid<T>, w: nat, h: nat, y: nat, x: nat, maxY: nat, minX: nat, xe: nat)
    requires Rectangular(g, w, h) && y + 1 < maxY <= h && minX <= x && x + 1 == xe <= w
    ensures After(g, w, h, y, x, maxY, minX, xe) == g[y + 1][minX] + After(g, w, h, y + 1, minX, maxY, minX, xe)
  {
    assert RowRun(g, y, x + 1, xe) == [];
    assert RowRun(g, y + 1, minX, xe) == g[y + 1][minX] + RowRun(g, y + 1, minX + 1, xe);
  }

  /** What a window walk still has to yield while it stands at element pos of block (x, y). */
  function Unread<T>(g: Grid<T>, w: nat, h: nat, y: nat, x: nat, pos: nat, maxY: nat, minX: nat, xe: nat): seq<T>
    requires Rectangular(g, w, h) && y < maxY <= h && minX <= x < xe <= w && pos <= |g[y][x]|
  {
    g[y][x][pos..] + After(g, w, h, y, x, maxY, minX, xe)
  }

  /** A walk over rows minY .. maxY has everything still to yield when it stands at the start of its first block. */
  lemma UnreadStart<T>(g: Grid<T>, w: nat, h: nat, minY: nat, maxY: nat, minX: nat, xe: nat)
    requires Rectangular(g, w, h) && minY < maxY <= h && minX < xe <= w
    ensures Rows(g, w, h, minY, maxY, minX, xe) == Unread(g, w, h, minY, minX, 0, maxY, minX, xe)
  {
    assert g[minY][minX][0..] == g[minY][minX];
  }

  /** Yielding the element at pos moves it from what is unread to what has been yielded. */
  lemma UnreadShift<T>(r: seq<T>, g: Grid<T>, w: nat, h: nat, y: nat, x: nat, pos: nat, maxY: nat, minX: nat, xe: nat)
    requires Rectangular(g, w, h) && y < maxY <= h && minX <= x < xe <= w && pos < |g[y][x]|
    ensures r + Unread(g, w, h, y, x, pos, maxY, minX, xe) == (r + [g[y][x][pos]]) + Unread(g, w, h, y, x, pos + 1, maxY, minX, xe)
  {
    var s := g[y][x];
    assert s[pos..] == [s[pos]] + s[pos + 1..];
  }

  /**
   * Leaving an exhausted block (x, y) the way the iterator does: the next column, or column
   * minX of the next row once ++x reaches maxX, or nothing once the rows run out.
   */
  lemma UnreadAdvance<T>(g: Grid<T>, w: nat, h: nat, y: nat, x: nat, maxY: nat, minX: nat, maxX: nat, xe: nat)
    requires Rectangular(g, w, h) && y < maxY <= h && minX <= x < xe <= w && maxX <= w && xe == XEnd(minX, maxX)
    ensures x + 1 < maxX ==> x + 1 < xe && Unread(g, w, h, y, x, |g[y][x]|, maxY, minX, xe) == Unread(g, w, h, y, x + 1, 0, maxY, minX, xe)
    ensures maxX <= x + 1 && y + 1 < maxY ==> Unread(g, w, h, y, x, |g[y][x]|, maxY, minX, xe) == Unread(g, w, h, y + 1, minX, 0, maxY, minX, xe)
    ensures maxX <= x + 1 && maxY <= y + 1 ==> Unread(g, w, h, y, x, |g[y][x]|, maxY, minX, xe) == []
  {
    assert g[y][x][|g[y][x]|..] == [];
    if x + 1 < maxX {
      AfterNextBlock(g, w, h, y, x, maxY, minX, xe);
      assert g[y][x + 1][0..] == g[y][x + 1];
    } else {
      assert x + 1 == xe;
      assert RowRun(g, y, x + 1, xe) == [];
      if y + 1 < maxY {
        AfterNextRow(g, w, h, y, x, maxY, minX, xe);
        assert g[y + 1][minX][0..] == g[y + 1][minX];
      }
    }
  }

  /**
   * Where a window walk stands: r has been yielded and, while rows remain, all is r followed
   * by what is still Unread from element pos of block (x, y); once the rows run out, r is all.
   */
  ghost predicate WalkState<T>(all: seq<T>, r: seq<T>, g: Grid<T>, w: nat, h: nat, y: nat, x: nat, pos: nat, maxY: nat, minX: nat, xe: nat)
  {
    if y < maxY then
      && Rectangular(g, w, h) && maxY <= h && minX <= x < xe <= w && pos <= |g[y][x]|
      && all == r + Unread(g, w, h, y, x, pos, maxY, minX, xe)
    else
      r == all
  }

  /** Yielding the element at pos keeps the walk state. */
  lemma WalkShift<T>(all: seq<T>, r: seq<T>, g: Grid<T>, w: nat, h: nat, y: nat, x: nat, pos: nat, maxY: nat, minX: nat, xe: nat)
    requires WalkState(all, r, g, w, h, y, x, pos, maxY, minX, xe) && y < maxY && pos < |g[y][x]|
    ensures WalkState(all, r + [g[y][x][pos]], g, w, h, y, x, pos + 1, maxY, minX, xe)
  {
    UnreadShift(r, g, w, h, y, x, pos, maxY, minX, xe);
  }

  /** Leaving an exhausted block for the next column, or for column minX of the next row, keeps the walk state. */
  lemma WalkAdvance<T>(all: seq<T>, r: seq<T>, g: Grid<T>, w: nat, h: nat, y: nat, x: nat, maxY: nat, minX: nat, maxX: nat, xe: nat)
    requires Rectangular(g, w, h) && y < maxY <= h && x < w
    requires WalkState(all, r, g, w, h, y, x, |g[y][x]|, maxY, minX, xe)
    requires maxX <= w && xe == XEnd(minX, maxX)
    ensures x + 1 < maxX ==> x + 1 < xe && WalkState(all, r, g, w, h, y, x + 1, 0, maxY, minX, xe)
    ensures maxX <= x + 1 ==> WalkState(all, r, g, w, h, y + 1, minX, 0, maxY, minX, xe)
  {
    UnreadAdvance(g, w, h, y, x, maxY, minX, maxX, xe);
  }

  /** After re-bucketing, the grid holds exactly the elements whose target block is in the grid. */
  lemma RebucketedHeld<T>(g: Grid<T>, w: nat, h: nat, to: T -> IntVec)
    requires Rectangular(g, w, h)
    ensures forall p :: p in Held(ApplyMoves(g, w, h, Misplaced(g, w, h, to))) ==> InGrid(to(p), w, h)
    ensures forall p :: p in Held(g) && InGrid(to(p), w, h) ==> p in Held(ApplyMoves(g, w, h, Misplaced(g, w, h, to)))
  {
    var g' := ApplyMoves(g, w, h, Misplaced(g, w, h, to));
    forall p | p in Held(g') ensures InGrid(to(p), w, h) {
      var y, x :| 0 <= y < |g'| && 0 <= x < |g'[y]| && p in g'[y][x];
      RebucketedBelongs(g, w, h, to, IntVec(x, y), p);
    }
    forall p | p in Held(g) && InGrid(to(p), w, h) ensures p in Held(g') {
      var y, x :| 0 <= y < |g| && 0 <= x < |g[y]| && p in g[y][x];
      RebucketedKeepsAll(g, w, h, to, y, x, p);
      var c := to(p);
      assert p in g'[c.y][c.x];
    }
  }

  /** updateBlocks carries off the grid exactly the particles held whose target lies outside it. */
  lemma MisplacedDropped<T>(g: Grid<T>, w: nat, h: nat, to: T -> IntVec, p: T)
    requires Rectangular(g, w, h)
    ensures p in Dropped(Misplaced(g, w, h, to), w, h) <==> p in Held(g) && !InGrid(to(p), w, h)
  {
    var ms := Misplaced(g, w, h, to);
    DroppedMembership(ms, w, h, p);
    if p in Held(g) && !InGrid(to(p), w, h) {
      var y, x :| 0 <= y < |g| && 0 <= x < |g[y]| && p in g[y][x];
      MisplacedHas(g, w, h, to, y, x, p);
      var j :| 0 <= j < |ms| && ms[j] == Move(p, IntVec(x, y), to(p));
    }
  }

  /** The number of moves whose target lies off the grid: the elements they carry are dropped. */
  function Departures<T>(ms: seq<Move<T>>, w: nat, h: nat): nat
  {
    if ms == [] then 0
    else Departures(ms[..|ms| - 1], w, h) + if InGrid(ms[|ms| - 1].target, w, h) then 0 else 1
  }

  /** The elements carried by moves whose target lies off the grid. */
  function Dropped<T>(ms: seq<Move<T>>, w: nat, h: nat): set<T>
  {
    if ms == [] then {}
    else Dropped(ms[..|ms| - 1], w, h) + if InGrid(ms[|ms| - 1].target, w, h) then {} else {ms[|ms| - 1].item}
  }

  /** An element is dropped exactly when some move carries it off the grid. */
  lemma {:induction false} DroppedMembership<T>(ms: seq<Move<T>>, w: nat, h: nat, p: T)
    ensures p in Dropped(ms, w, h) <==> exists j :: 0 <= j < |ms| && ms[j].item == p && !InGrid(ms[j].target, w, h)
  {
    if ms != [] {
      var init := ms[..|ms| - 1];
      DroppedMembership(init, w, h, p);
      if p in Dropped(init, w, h) {
        var j :| 0 <= j < |init| && init[j].item == p && !InGrid(init[j].target, w, h);
        assert ms[j] == init[j];
      }
      if exists j :: 0 <= j < |ms| && ms[j].item == p && !InGrid(ms[j].target, w, h) {
        var j :| 0 <= j < |ms| && ms[j].item == p && !InGrid(ms[j].target, w, h);
        if j < |init| {
          assert init[j] == ms[j];
        }
      }
    }
  }

  /** One more step of a pass over ms: the prefix of length k + 1 extends the one of length k by ms[k]. */
  lemma PrefixStep<T>(g: Grid<T>, w: nat, h: nat, ms: seq<Move<T>>, k: nat)
    requires Rectangular(g, w, h) && FromInGrid(ms, w, h) && k < |ms|
    ensures FromInGrid(ms[..k], w, h) && FromInGrid(ms[..k + 1], w, h)
    ensures ApplyMoves(g, w, h, ms[..k + 1]) == ApplyMove(ApplyMoves(g, w, h, ms[..k]), w, h, ms[k])
    ensures Departures(ms[..k + 1], w, h) == Departures(ms[..k], w, h) + if InGrid(ms[k].target, w, h) then 0 else 1
    ensures Dropped(ms[..k + 1], w, h) == Dropped(ms[..k], w, h) + if InGrid(ms[k].target, w, h) then {} else {ms[k].item}
  {
    assert ms[..k + 1] == ms[..k] + [ms[k]];
    assert ms[..k + 1][..k] == ms[..k];
    ApplyMovesSnoc(g, w, h, ms[..k], ms[k]);
  }

  /**
   * removeAllAt over the list s of one block, from the block iterator's cursor i on. The
   * iterator reads s[i] and advances; a hit is then removed (its first occurrence), so the
   * element that slides into the cursor's place is not looked at.
   */
  function Sweep<T>(s: seq<T>, i: nat, hit: set<T>): seq<T>
    decreases |s| - i
  {
    if |s| <= i then s
    else if s[i] in hit then Sweep(RemoveFirst(s, s[i]), i + 1, hit)
    else Sweep(s, i + 1, hit)
  }

  /** The elements the sweep hands to remove, in order. */
  function Swept<T>(s: seq<T>, i: nat, hit: set<T>): seq<T>
    decreases |s| - i
  {
    if |s| <= i then []
    else if s[i] in hit then [s[i]] + Swept(RemoveFirst(s, s[i]), i + 1, hit)
    else Swept(s, i + 1, hit)
  }

  /**
   * Removing the hit element cur[i] from block c, whose list is cur: the grid, the cursor, the
   * removed list and their element sets all move on by that one element.
   */
  lemma HitStep<T>(g: Grid<T>, w: nat, h: nat, c: IntVec, cur: seq<T>, i: nat, hit: set<T>, s0: seq<T>,
                   gone: seq<T>, d: set<T>)
    requires Rectangular(g, w, h) && InGrid(c, w, h)
    requires i < |cur| && cur[i] in hit && forall q :: q in cur ==> q in s0
    requires Sweep(cur, i, hit) == Sweep(s0, 0, hit) && gone + Swept(cur, i, hit) == Swept(s0, 0, hit)
    ensures Update(Update(g, w, h, c, cur), w, h, c, RemoveFirst(cur, cur[i])) == Update(g, w, h, c, RemoveFirst(cur, cur[i]))
    ensures forall q :: q in RemoveFirst(cur, cur[i]) ==> q in s0
    ensures Sweep(RemoveFirst(cur, cur[i]), i + 1, hit) == Sweep(s0, 0, hit)
    ensures (gone + [cur[i]]) + Swept(RemoveFirst(cur, cur[i]), i + 1, hit) == Swept(s0, 0, hit)
    ensures d + (set q | q in gone + [cur[i]]) == (d + set q | q in gone) + {cur[i]}
    ensures |RemoveFirst(cur, cur[i])| < |cur|
  {
    var p := cur[i];
    UpdateTwice(g, w, h, c, cur, RemoveFirst(cur, p));
    forall q | q in RemoveFirst(cur, p) ensures q in s0 {
      if q !in cur {
        RemoveFirstSubset(cur, p, q);
      }
    }
    SweepCursor(gone, cur, i, hit, s0);
    ElementsSnoc(d, gone, p);
    RemoveFirstMultiset(cur, p);
    assert |multiset(RemoveFirst(cur, p))| < |multiset(cur)|;
  }

  /** Removing the hit element under the cursor hands it to the removed list and moves the cursor past it. */
  lemma SweepCursor<T>(gone: seq<T>, s: seq<T>, i: nat, hit: set<T>, s0: seq<T>)
    requires i < |s| && s[i] in hit
    requires Sweep(s, i, hit) == Sweep(s0, 0, hit) && gone + Swept(s, i, hit) == Swept(s0, 0, hit)
    ensures Sweep(RemoveFirst(s, s[i]), i + 1, hit) == Sweep(s0, 0, hit)
    ensures (gone + [s[i]]) + Swept(RemoveFirst(s, s[i]), i + 1, hit) == Swept(s0, 0, hit)
  {
    assert Swept(s, i, hit) == [s[i]] + Swept(RemoveFirst(s, s[i]), i + 1, hit);
    assert gone + ([s[i]] + Swept(RemoveFirst(s, s[i]), i + 1, hit)) == (gone + [s[i]]) + Swept(RemoveFirst(s, s[i]), i + 1, hit);
  }

  /** The sweep splits the list: what stays and what is removed make up the list. */
  lemma {:induction false} SweepSplits<T>(s: seq<T>, i: nat, hit: set<T>)
    ensures multiset(Sweep(s, i, hit)) + multiset(Swept(s, i, hit)) == multiset(s)
    decreases |s| - i
  {
    if i < |s| {
      if s[i] in hit {
        var r := RemoveFirst(s, s[i]);
        SweepSplits(r, i + 1, hit);
        RemoveFirstMultiset(s, s[i]);
        assert multiset(Swept(s, i, hit)) == multiset{s[i]} + multiset(Swept(r, i + 1, hit));
        assert s[i] in multiset(s);
        assert multiset(r) + multiset{s[i]} == multiset(s);
      } else {
        SweepSplits(s, i + 1, hit);
      }
    }
  }

  /** Everything the sweep removes is a hit. */
  lemma {:induction false} SweptHits<T>(s: seq<T>, i: nat, hit: set<T>)
    ensures forall p :: p in Swept(s, i, hit) ==> p in hit
    decreases |s| - i
  {
    if i < |s| {
      if s[i] in hit {
        SweptHits(RemoveFirst(s, s[i]), i + 1, hit);
      } else {
        SweptHits(s, i + 1, hit);
      }
    }
  }

  /** The sweep only removes: every element that stays was in the list and every one that is not a hit stays. */
  lemma SweepShrinks<T>(s: seq<T>, i: nat, hit: set<T>)
    ensures forall p :: p in Sweep(s, i, hit) ==> p in s
    ensures forall p :: p in Swept(s, i, hit) ==> p in s
    ensures forall p :: p in s && p !in hit ==> p in Sweep(s, i, hit)
    ensures |Sweep(s, i, hit)| + |Swept(s, i, hit)| == |s|
  {
    var kept, gone := Sweep(s, i, hit), Swept(s, i, hit);
    SweepSplits(s, i, hit);
    SweptHits(s, i, hit);
    forall p | p in kept ensures p in s {
      assert p in multiset(kept);
      assert p in multiset(s);
    }
    forall p | p in gone ensures p in s {
      assert p in multiset(gone);
      assert p in multiset(s);
    }
    forall p | p in s && p !in hit ensures p in kept {
      assert p in multiset(s);
      assert p !in multiset(gone);
      assert p in multiset(kept);
    }
    assert |multiset(kept)| + |multiset(gone)| == |multiset(s)|;
  }

  /**
   * Two hits side by side: the second slides into the cursor's place when the first is
   * removed and is never looked at, so it stays although it is a hit.
   */
  lemma SweepSkipsNext<T>(a: T, b: T)
    requires a != b
    ensures Sweep([a, b], 0, {a, b}) == [b]
    ensures Swept([a, b], 0, {a, b}) == [a]
  {
    assert RemoveFirst([a, b], a) == [b];
  }

  /** Whether iterator(min, max) walks block (x, y): the clamped rows, the clamped columns up to XEnd. */
  predicate Walked(w: nat, h: nat, min: IntVec, max: IntVec, x: int, y: int)
  {
    var minX, minY := Clamp(min.x, w), Clamp(min.y, h);
    minY <= y < Clamp(max.y, h) && minX <= x < XEnd(minX, Clamp(max.x, w))
  }

  /** Every block iterator(min, max) walks swept. */
  function SweepWindow<T>(g: Grid<T>, w: nat, h: nat, min: IntVec, max: IntVec, hit: set<T>): (r: Grid<T>)
    requires Rectangular(g, w, h)
    ensures Rectangular(r, w, h)
    ensures forall y, x :: 0 <= y < h && 0 <= x < w ==>
      r[y][x] == if Walked(w, h, min, max, x, y) then Sweep(g[y][x], 0, hit) else g[y][x]
  {
    seq(h, y => seq(w, x =>
      if Walked(w, h, min, max, x, y) then Sweep(BlockAt(g, y, x), 0, hit) else BlockAt(g, y, x)))
  }

  /** What the sweep of every walked block removes, block by block. */
  function SweptWindow<T>(g: Grid<T>, w: nat, h: nat, min: IntVec, max: IntVec, hit: set<T>): (r: Grid<T>)
    requires Rectangular(g, w, h)
    ensures Rectangular(r, w, h)
    ensures forall y, x :: 0 <= y < h && 0 <= x < w ==>
      r[y][x] == if Walked(w, h, min, max, x, y) then Swept(g[y][x], 0, hit) else []
  {
    seq(h, y => seq(w, x =>
      if Walked(w, h, min, max, x, y) then Swept(BlockAt(g, y, x), 0, hit) else []))
  }

  /** Sweeping a window adds nothing. */
  lemma SweepWindowShrinks<T>(g: Grid<T>, w: nat, h: nat, min: IntVec, max: IntVec, hit: set<T>)
    requires Rectangular(g, w, h)
    ensures forall p :: p in Held(SweepWindow(g, w, h, min, max, hit)) ==> p in Held(g)
  {
    var r := SweepWindow(g, w, h, min, max, hit);
    forall p | p in Held(r) ensures p in Held(g) {
      var y, x :| 0 <= y < |r| && 0 <= x < |r[y]| && p in r[y][x];
      SweepShrinks(g[y][x], 0, hit);
      assert p in g[y][x];
    }
  }

  /** Sweeping a window keeps every element that is not a hit. */
  lemma SweepWindowKeeps<T>(g: Grid<T>, w: nat, h: nat, min: IntVec, max: IntVec, hit: set<T>)
    requires Rectangular(g, w, h)
    ensures forall p :: p in Held(g) && p !in hit ==> p in Held(SweepWindow(g, w, h, min, max, hit))
  {
    var r := SweepWindow(g, w, h, min, max, hit);
    forall p | p in Held(g) && p !in hit ensures p in Held(r) {
      var y, x :| 0 <= y < |g| && 0 <= x < |g[y]| && p in g[y][x];
      SweepShrinks(g[y][x], 0, hit);
      assert p in r[y][x];
    }
  }

  /** What sweeping a window removes are hits that were held. */
  lemma SweptWindowHits<T>(g: Grid<T>, w: nat, h: nat, min: IntVec, max: IntVec, hit: set<T>)
    requires Rectangular(g, w, h)
    ensures forall p :: p in Held(SweptWindow(g, w, h, min, max, hit)) ==> p in Held(g) && p in hit
  {
    var d := SweptWindow(g, w, h, min, max, hit);
    forall p | p in Held(d) ensures p in Held(g) && p in hit {
      var y, x :| 0 <= y < |d| && 0 <= x < |d[y]| && p in d[y][x];
      assert Walked(w, h, min, max, x, y);
      SweepShrinks(g[y][x], 0, hit);
      SweptHits(g[y][x], 0, hit);
      assert p in g[y][x];
    }
  }

  /** Whether block (x', y') is walked by iterator(min, max) before the walk reaches block (x, y). */
  predicate WalkedBefore(w: nat, h: nat, min: IntVec, max: IntVec, y: int, x: int, y': int, x': int)
  {
    Walked(w, h, min, max, x', y') && (y' < y || (y' == y && x' < x))
  }

  /** The grid once the sweep has gone through every walked block before block (x, y). */
  function SweepTo<T>(g: Grid<T>, w: nat, h: nat, min: IntVec, max: IntVec, hit: set<T>, y: int, x: int): (r: Grid<T>)
    requires Rectangular(g, w, h)
    ensures Rectangular(r, w, h)
    ensures forall y', x' :: 0 <= y' < h && 0 <= x' < w ==>
      r[y'][x'] == if WalkedBefore(w, h, min, max, y, x, y', x') then Sweep(g[y'][x'], 0, hit) else g[y'][x']
  {
    seq(h, y' => seq(w, x' =>
      if WalkedBefore(w, h, min, max, y, x, y', x') then Sweep(BlockAt(g, y', x'), 0, hit) else BlockAt(g, y', x')))
  }

  /** What the sweep has removed from every walked block before block (x, y). */
  function SweptTo<T>(g: Grid<T>, w: nat, h: nat, min: IntVec, max: IntVec, hit: set<T>, y: int, x: int): (r: Grid<T>)
    requires Rectangular(g, w, h)
    ensures Rectangular(r, w, h)
    ensures forall y', x' :: 0 <= y' < h && 0 <= x' < w ==>
      r[y'][x'] == if WalkedBefore(w, h, min, max, y, x, y', x') then Swept(g[y'][x'], 0, hit) else []
  {
    seq(h, y' => seq(w, x' =>
      if WalkedBefore(w, h, min, max, y, x, y', x') then Swept(BlockAt(g, y', x'), 0, hit) else []))
  }

  /** Before the first walked block nothing is swept and nothing removed. */
  lemma SweepToStart<T>(g: Grid<T>, w: nat, h: nat, min: IntVec, max: IntVec, hit: set<T>)
    requires Rectangular(g, w, h)
    ensures SweepTo(g, w, h, min, max, hit, Clamp(min.y, h), Clamp(min.x, w)) == g
    ensures Held(SweptTo(g, w, h, min, max, hit, Clamp(min.y, h), Clamp(min.x, w))) == {}
    ensures |All(SweptTo(g, w, h, min, max, hit, Clamp(min.y, h), Clamp(min.x, w)), w, h)| == 0
  {
    var minY, minX := Clamp(min.y, h), Clamp(min.x, w);
    GridsEqual(SweepTo(g, w, h, min, max, hit, minY, minX), g, w, h);
    GridsEqual(SweptTo(g, w, h, min, max, hit, minY, minX), EmptyGrid(w, h), w, h);
    AllEmpty<T>(w, h);
  }

  /** A grid of empty blocks holds nothing and walks to nothing. */
  lemma AllEmpty<T>(w: nat, h: nat)
    ensures Held(EmptyGrid<T>(w, h)) == {}
    ensures All(EmptyGrid<T>(w, h), w, h) == []
  {
    var e := EmptyGrid<T>(w, h);
    assert forall y, x :: 0 <= y < |e| && 0 <= x < |e[y]| ==> e[y][x] == [];
    assert Held(e) == {};
    if All(e, w, h) != [] {
      AllHeld(e, w, h, All(e, w, h)[0]);
      assert false;
    }
  }

  /**
   * Sweeping the walked block (x, y): the grid and the removals before (x + 1, y) are those
   * before (x, y) with that one block swept; the block is untouched until then.
   */
  lemma SweepToStep<T>(g: Grid<T>, w: nat, h: nat, min: IntVec, max: IntVec, hit: set<T>, y: nat, x: nat)
    requires Rectangular(g, w, h) && y < h && x < w && Walked(w, h, min, max, x, y)
    ensures SweepTo(g, w, h, min, max, hit, y, x)[y][x] == g[y][x]
    ensures SweepTo(g, w, h, min, max, hit, y, x + 1)
         == Update(SweepTo(g, w, h, min, max, hit, y, x), w, h, IntVec(x, y), Sweep(g[y][x], 0, hit))
    ensures SweptTo(g, w, h, min, max, hit, y, x)[y][x] == []
    ensures SweptTo(g, w, h, min, max, hit, y, x + 1)
         == Update(SweptTo(g, w, h, min, max, hit, y, x), w, h, IntVec(x, y), Swept(g[y][x], 0, hit))
  {
    var c := IntVec(x, y);
    GridsEqual(SweepTo(g, w, h, min, max, hit, y, x + 1),
      Update(SweepTo(g, w, h, min, max, hit, y, x), w, h, c, Sweep(g[y][x], 0, hit)), w, h);
    GridsEqual(SweptTo(g, w, h, min, max, hit, y, x + 1),
      Update(SweptTo(g, w, h, min, max, hit, y, x), w, h, c, Swept(g[y][x], 0, hit)), w, h);
  }

  /** The removals grow by what the sweep of block (x, y) removes, in number and as a set. */
  lemma SweptToGrows<T>(g: Grid<T>, w: nat, h: nat, min: IntVec, max: IntVec, hit: set<T>, y: nat, x: nat)
    requires Rectangular(g, w, h) && y < h && x < w && Walked(w, h, min, max, x, y)
    ensures |All(SweptTo(g, w, h, min, max, hit, y, x + 1), w, h)|
         == |All(SweptTo(g, w, h, min, max, hit, y, x), w, h)| + |Swept(g[y][x], 0, hit)|
    ensures Held(SweptTo(g, w, h, min, max, hit, y, x + 1))
         == Held(SweptTo(g, w, h, min, max, hit, y, x)) + (set p | p in Swept(g[y][x], 0, hit))
  {
    SweepToStep(g, w, h, min, max, hit, y, x);
    FillEmpty(SweptTo(g, w, h, min, max, hit, y, x), SweptTo(g, w, h, min, max, hit, y, x + 1), w, h,
              IntVec(x, y), Swept(g[y][x], 0, hit));
  }

  /** Sweeping walked block (x, y) of the grid swept up to it takes the walk to block (x + 1, y). */
  lemma SweepToAdvance<T>(g: Grid<T>, w: nat, h: nat, min: IntVec, max: IntVec, hit: set<T>, y: nat, x: nat, gb: Grid<T>)
    requires Rectangular(g, w, h) && y < h && x < w && Walked(w, h, min, max, x, y)
    requires gb == SweepTo(g, w, h, min, max, hit, y, x)
    ensures Update(gb, w, h, IntVec(x, y), Sweep(gb[y][x], 0, hit)) == SweepTo(g, w, h, min, max, hit, y, x + 1)
    ensures |All(SweptTo(g, w, h, min, max, hit, y, x + 1), w, h)|
         == |All(SweptTo(g, w, h, min, max, hit, y, x), w, h)| + |Swept(gb[y][x], 0, hit)|
    ensures Held(SweptTo(g, w, h, min, max, hit, y, x + 1))
         == Held(SweptTo(g, w, h, min, max, hit, y, x)) + set q | q in Swept(gb[y][x], 0, hit)
  {
    SweepToStep(g, w, h, min, max, hit, y, x);
    SweptToGrows(g, w, h, min, max, hit, y, x);
  }

  /** Filling an empty block with s adds s, in number and as a set. */
  lemma FillEmpty<T>(d: Grid<T>, d': Grid<T>, w: nat, h: nat, c: IntVec, s: seq<T>)
    requires Rectangular(d, w, h) && InGrid(c, w, h) && d[c.y][c.x] == [] && d' == Update(d, w, h, c, s)
    ensures |All(d', w, h)| == |All(d, w, h)| + |s|
    ensures Held(d') == Held(d) + (set p | p in s)
  {
    AllUpdateSize(d, w, h, c, s);
    HeldUpdate(d, w, h, c, s);
    forall p | p in Held(d) ensures p in Held(d') {
      assert p !in Cell(d, w, h, c);
    }
  }

  /** At the end of a walked row the walk goes on at column minX of the next row. */
  lemma SweepToNextRow<T>(g: Grid<T>, w: nat, h: nat, min: IntVec, max: IntVec, hit: set<T>, y: nat)
    requires Rectangular(g, w, h)
    ensures var minX, xe := Clamp(min.x, w), XEnd(Clamp(min.x, w), Clamp(max.x, w));
      && SweepTo(g, w, h, min, max, hit, y, xe) == SweepTo(g, w, h, min, max, hit, y + 1, minX)
      && SweptTo(g, w, h, min, max, hit, y, xe) == SweptTo(g, w, h, min, max, hit, y + 1, minX)
  {
    var minX, xe := Clamp(min.x, w), XEnd(Clamp(min.x, w), Clamp(max.x, w));
    GridsEqual(SweepTo(g, w, h, min, max, hit, y, xe), SweepTo(g, w, h, min, max, hit, y + 1, minX), w, h);
    GridsEqual(SweptTo(g, w, h, min, max, hit, y, xe), SweptTo(g, w, h, min, max, hit, y + 1, minX), w, h);
  }

  /** Once the rows of the window are done, every walked block is swept. */
  lemma SweepToEnd<T>(g: Grid<T>, w: nat, h: nat, min: IntVec, max: IntVec, hit: set<T>, y: int)
    requires Rectangular(g, w, h) && Clamp(max.y, h) <= y
    ensures SweepTo(g, w, h, min, max, hit, y, Clamp(min.x, w)) == SweepWindow(g, w, h, min, max, hit)
    ensures SweptTo(g, w, h, min, max, hit, y, Clamp(min.x, w)) == SweptWindow(g, w, h, min, max, hit)
  {
    var minX := Clamp(min.x, w);
    GridsEqual(SweepTo(g, w, h, min, max, hit, y, minX), SweepWindow(g, w, h, min, max, hit), w, h);
    GridsEqual(SweptTo(g, w, h, min, max, hit, y, minX), SweptWindow(g, w, h, min, max, hit), w, h);
  }

  /** Replacing a block by its own list changes nothing. */
  lemma UpdateSame<T>(g: Grid<T>, w: nat, h: nat, c: IntVec)
    requires Rectangular(g, w, h) && InGrid(c, w, h)
    ensures Update(g, w, h, c, g[c.y][c.x]) == g
  {
    GridsEqual(Update(g, w, h, c, g[c.y][c.x]), g, w, h);
  }

  /** Replacing a block twice keeps the second list. */
  lemma UpdateTwice<T>(g: Grid<T>, w: nat, h: nat, c: IntVec, s: seq<T>, t: seq<T>)
    requires Rectangular(g, w, h) && InGrid(c, w, h)
    ensures Update(Update(g, w, h, c, s), w, h, c, t) == Update(g, w, h, c, t)
  {
    GridsEqual(Update(Update(g, w, h, c, s), w, h, c, t), Update(g, w, h, c, t), w, h);
  }

  /** Sweeping keeps a grid consistent with its targets: it only takes elements away. */
  lemma SweepToConsistent<T>(g: Grid<T>, w: nat, h: nat, min: IntVec, max: IntVec, hit: set<T>, y: int, x: int, to: T -> IntVec)
    requires Rectangular(g, w, h) && Consistent(g, w, h, to)
    ensures Consistent(SweepTo(g, w, h, min, max, hit, y, x), w, h, to)
  {
    var r := SweepTo(g, w, h, min, max, hit, y, x);
    forall y', x', p | 0 <= y' < h && 0 <= x' < w && p in r[y'][x'] ensures to(p) == IntVec(x', y') {
      SweepShrinks(g[y'][x'], 0, hit);
      assert p in g[y'][x'];
    }
  }

  /** Two grids of the same shape with the same blocks are equal. */
  lemma GridsEqual<T>(a: Grid<T>, b: Grid<T>, w: nat, h: nat)
    requires Rectangular(a, w, h) && Rectangular(b, w, h)
    requires forall y, x :: 0 <= y < h && 0 <= x < w ==> a[y][x] == b[y][x]
    ensures a == b
  {
    forall y | 0 <= y < h ensures a[y] == b[y] {
      assert forall x :: 0 <= x < w ==> a[y][x] == b[y][x];
    }
  }
}
