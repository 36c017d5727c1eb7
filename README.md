# Particle simulation core, modelled in Dafny

This project models the discrete core of a 2D particle simulation:
- Particles interact through a Lennard-Jones potential and through springs. A spring is a unidirectional connection between two particles.
- Particles bounce off the borders of the display via mirrored "ghost" particles.
- Particles move by Verlet integration.
- Particles are filed in a `ParticleContainer`. This is a grid of square blocks; each block holds a list of particles.

The container is what limits the pairwise force computation: it only looks at particles in the 3 x 3 blocks around a particle. The same window is used to find a particle under the mouse and to remove every particle under it. After every tick the container re-files the particles whose position moved into another block. It drops the particles that left the grid, together with every spring to them.

The modules follow the source's classes:

| module | models |
|---|---|
| `IntVectors` (intvec.dfy) | the `IntVec` record: block coordinates and the half-open range test |
| `Vectors` (vec.dfy) | the `Vec` class with exact real arithmetic. `toIntVec` is the Java `(int)` cast, which truncates toward zero |
| `MathUtil` (mathutil.dfy) | `fastPow6` |
| `Cache` (cache.dfy) | the two-key memo `Cache2D`, as a class whose nested map the methods update |
| `Lists` (lists.dfy) | `List.remove(Object)`, which removes the first occurrence, plus the duplicate-free lists that connection lists are |
| `Particles` (particles.dfy) | `Particle` and `FixedParticle` as one class with a `fixed` flag; its forces, integration steps, render bounds and connections |
| `Grids` (grids.dfy) | the block grid as a value: the window walk of the container's iterator, the re-filing pass of `updateBlocks`, and the sweep of `removeAllAt` |
| `Containers` (containers.dfy) | `ParticleContainer` as a class over a 2D array of blocks, with a running `size` |
| `Ticking` (ticking.dfy) | one `Simulation.tick(dt)`, run sequentially phase by phase |

Both `Particle` and `ParticleContainer` mutate in place in the source, so they are classes with `modifies` frames. Each method is proved against a pure specification function, and the properties of those functions are lemmas.

Two quirks of the source are modelled as written.
- The window iterator eagerly reads the block at its clamped lower corner. So when the x-range is empty it still walks that column (`Grids.WalkEmptyColumns`).
- `removeAllAt` removes particles from a block while the block's index-based iterator runs over it. The particle that slides into the removed one's place is therefore not looked at (`Grids.SweepSkipsNext`).

## Model


| member | source | states |
|---|---|---|
| IntVectors.AddZero | de/javaabc/particlesimulation/util/math/IntVec.java:13-17 | ZERO is neutral for add on both sides |
| IntVectors.AddSubtractInverse | de/javaabc/particlesimulation/util/math/IntVec.java:15-21 | add and subtract by the same vector undo each other |
| IntVectors.AddCommutes | de/javaabc/particlesimulation/util/math/IntVec.java:15-17 | add is commutative |
| IntVectors.InRangeHalfOpen | de/javaabc/particlesimulation/util/math/IntVec.java:32-34 | isInRange holds iff min <= coordinate < max on both axes; the max row and column are outside |
| Vectors.Vec.SqLength | de/javaabc/particlesimulation/util/math/Vec.java:33-35 | the squared length is never negative |
| Vectors.Trunc | de/javaabc/particlesimulation/util/math/Vec.java:42-44 | the int cast keeps the integer part: for r >= 0 it is the largest integer <= r, for r < 0 the smallest >= r; negative iff r <= -1 |
| Vectors.Vec.ToIntVec | de/javaabc/particlesimulation/util/math/Vec.java:42-44 | each component is truncated toward zero |
| Vectors.TruncNotFloor | de/javaabc/particlesimulation/util/math/Vec.java:37-44 | (-0.5, 2.7) maps to (0, 2) while floor(-0.5) is -1: the "floor values" the doc comment promises are not what the cast gives |
| Vectors.TruncNearZero | de/javaabc/particlesimulation/util/math/Vec.java:42-44 | every value strictly between -1 and 1 maps to 0 |
| Vectors.SubtractAntisymmetric | de/javaabc/particlesimulation/util/math/Vec.java:22-24 | a - b is the negation of b - a, and both have the same squared length |
| Vectors.SubtractSelf | de/javaabc/particlesimulation/util/math/Vec.java:22-24 | v - v is ZERO |
| Vectors.ScaleOne | de/javaabc/particlesimulation/util/math/Vec.java:26-28 | scaling by 1 changes nothing |
| Vectors.AddSubtractInverse | de/javaabc/particlesimulation/util/math/Vec.java:18-24 | add and subtract undo each other; ZERO is neutral for both |
| Vectors.ExchangeKeepsSum | de/javaabc/particlesimulation/util/math/Vec.java:18-24 | subtracting df from one force and adding it to another keeps their sum |
| Vectors.ScaleNegate | de/javaabc/particlesimulation/util/math/Vec.java:26-28 | scaling commutes with negation |
| MathUtil.FastPow6IsPow6 | de/javaabc/particlesimulation/util/math/MathUtil.java:10-13 | fastPow6(x) equals x multiplied by itself six times, and is never negative |
| MathUtil.FastPow6Even | de/javaabc/particlesimulation/util/math/MathUtil.java:10-13 | fastPow6(-x) == fastPow6(x) |
| MathUtil.FastPow6Fixpoints | de/javaabc/particlesimulation/util/math/MathUtil.java:10-13 | 0 and 1 are mapped to themselves |
| Cache.Cache2D.constructor | de/javaabc/particlesimulation/util/Cache2D.java:20-22 | a new cache holds no entry for any key pair |
| Cache.Cache2D.StoreIfAbsent | de/javaabc/particlesimulation/util/Cache2D.java:32-47 | afterwards (a, b) is present and the result is its entry. If it was present, the old value is returned and nothing changes. Otherwise the generator's value is stored. Every other entry is kept, and no other key pair is created |
| Lists.RemoveFirst | de/javaabc/particlesimulation/particle/Particle.java:300-304 | List.remove leaves a list without x unchanged, and otherwise shortens it by exactly one |
| Lists.RemoveFirstAt | de/javaabc/particlesimulation/particle/Particle.java:300-304 | exactly the first occurrence of x is removed; the elements before and after it keep their order |
| Lists.RemoveFirstMultiset | de/javaabc/particlesimulation/particle/Particle.java:300-304 | the removal takes one copy of x out of the list's multiset, and nothing else |
| Lists.RemoveFirstNoDup | de/javaabc/particlesimulation/particle/Particle.java:300-304 | on a duplicate-free list, x is gone afterwards and the list stays duplicate-free |
| Lists.WithoutMembership | de/javaabc/particlesimulation/particle/ParticleContainer.java:229-234 | after severing a set d of particles, a list holds x iff it held x before and x is not in d |
| Lists.RemoveFirstWithout | de/javaabc/particlesimulation/particle/ParticleContainer.java:229-234 | on a duplicate-free list, severing one more particle is the same as severing the larger set at once |
| Particles.CircleContains | de/javaabc/particlesimulation/particle/Particle.java:256-261 | the render bounds of radius r > 0 around c contain v iff v is closer to c than r |
| Particles.GeometricMeanSymmetric | de/javaabc/particlesimulation/particle/Particle.java:125-127 | the combined epsilon does not depend on the order of the two epsilons |
| Particles.PairExchange | de/javaabc/particlesimulation/particle/Particle.java:134-155 | the pair is skipped (no force) iff the squared distance is 0 or exceeds the squared cutoff; coincident particles are always skipped |
| Particles.PairExchangeAntisymmetric | de/javaabc/particlesimulation/particle/Particle.java:134-155 | Newton's third law: seen from the other particle, the pair is skipped in the same cases, and otherwise the force is the exact opposite |
| Particles.LennardJonesForceOdd | de/javaabc/particlesimulation/particle/Particle.java:152 | reversing the difference vector reverses the Lennard-Jones force |
| Particles.SpringExchangeAntisymmetric | de/javaabc/particlesimulation/particle/Particle.java:180-187 | the spring force seen from the other end is the exact opposite |
| Particles.GhostX | de/javaabc/particlesimulation/particle/Particle.java:164-167 | a horizontal ghost keeps y and sits at the mirror image of x in the border x = 0 or x = width |
| Particles.GhostY | de/javaabc/particlesimulation/particle/Particle.java:169-172 | a vertical ghost keeps x and sits at the mirror image of y in the border y = 0 or y = height |
| Particles.NoGhostInside | de/javaabc/particlesimulation/particle/Particle.java:160-173 | a particle at least half the cutoff away from every border gets no ghost |
| Particles.GhostLeftFirst | de/javaabc/particlesimulation/particle/Particle.java:164-165 | close to the left border, the ghost is the mirror in x = 0, whatever the width |
| Particles.ConnectKeepsNoDup | de/javaabc/particlesimulation/particle/Particle.java:288-293 | connectWith keeps a connection list duplicate-free and free of the particle itself |
| Particles.ConnectMembership | de/javaabc/particlesimulation/particle/Particle.java:288-293 | afterwards q is connected iff it already was, or q is p, p is not this, and p does not hold this |
| Particles.ConnectIdempotent | de/javaabc/particlesimulation/particle/Particle.java:288-293 | connecting twice is the same as connecting once |
| Particles.ConnectNoMirror | de/javaabc/particlesimulation/particle/Particle.java:288-293 | connecting creates no mirrored pair: if this holds p afterwards while p holds this, this held p already; no other entry changes |
| Particles.Particle.constructor | de/javaabc/particlesimulation/particle/Particle.java:106-116 | position, mass, epsilon and sigma as given; speed and both forces ZERO; squared cutoff from the domain; no connections; not fixed |
| Particles.Particle.Fixed | de/javaabc/particlesimulation/particle/FixedParticle.java:21-23 | the same initial state as the constructor, flagged fixed |
| Particles.Particle.CombinedEpsilon | de/javaabc/particlesimulation/particle/Particle.java:125-127 | the result is the geometric mean of e1 and e2, and every cache entry remains the geometric mean of its keys |
| Particles.Particle.AddForce | de/javaabc/particlesimulation/particle/Particle.java:202-204 | the accumulator grows by df. In the FixedParticle override (FixedParticle.java:29-31) a fixed particle's accumulator does not change |
| Particles.Particle.SubtractForce | de/javaabc/particlesimulation/particle/Particle.java:211-213 | the accumulator shrinks by df. In the FixedParticle override (FixedParticle.java:33-35) a fixed particle's accumulator does not change |
| Particles.Particle.TickForceTo | de/javaabc/particlesimulation/particle/Particle.java:134-155 | a skipped pair changes nothing. Otherwise the exchange is taken from this particle and given to p, each side unless fixed, and p is not this. Two free particles keep the sum of their forces |
| Particles.Particle.Exchange | de/javaabc/particlesimulation/particle/Particle.java:135-152 | the computed exchange is PairExchange's, with the epsilon taken through the cache; the cache stays valid |
| Particles.Particle.TickGhostForce | de/javaabc/particlesimulation/particle/Particle.java:165 | the ghost has this particle's parameters, and only this particle's force changes, by the exchange with the ghost |
| Particles.Particle.TickGhostX | de/javaabc/particlesimulation/particle/Particle.java:164-167 | the force changes by the exchange with the horizontal ghost, if there is one |
| Particles.Particle.TickGhostY | de/javaabc/particlesimulation/particle/Particle.java:169-172 | the force changes by the exchange with the vertical ghost, if there is one |
| Particles.Particle.TickBoundaryForce | de/javaabc/particlesimulation/particle/Particle.java:160-173 | the horizontal ghost acts first, then the vertical one, each taken at the unchanged position. In the FixedParticle override (FixedParticle.java:25-27) a fixed particle feels no boundary force |
| Particles.Particle.TickAttractionTo | de/javaabc/particlesimulation/particle/Particle.java:180-187 | the spring force is taken from this particle and given to p, each side unless fixed; a spring to itself changes nothing |
| Particles.Particle.TickSprings | de/javaabc/particlesimulation/particle/Particle.java:194 | this particle's force is pulled by every connection in list order. Each connected particle's force grows by its spring's share. A fixed particle keeps its force |
| Particles.Particle.TickSpecialForces | de/javaabc/particlesimulation/particle/Particle.java:192-195 | the boundary force and then the springs, as above; the epsilon cache stays valid |
| Particles.Particle.TickSpeed | de/javaabc/particlesimulation/particle/Particle.java:220-227 | friction is subtracted from the force. The speed grows by the sum of the old and the new force times dt/(2 mass). The particle invariant is kept. In the FixedParticle override (FixedParticle.java:37-39) a fixed particle keeps its force and speed |
| Particles.Particle.TickPos | de/javaabc/particlesimulation/particle/Particle.java:234-240 | the position moves by the Verlet step and the cached bounds are dropped. In the FixedParticle override (FixedParticle.java:41-43) a fixed particle does not move |
| Particles.Particle.TickReset | de/javaabc/particlesimulation/particle/Particle.java:245-248 | the old force becomes the current one and the force restarts at gravity. In the FixedParticle override (FixedParticle.java:45-47) a fixed particle keeps both forces |
| Particles.Particle.GetRenderBounds | de/javaabc/particlesimulation/particle/Particle.java:256-261 | the returned shape is the circle of RENDER_RADIUS around the current position, and it is cached |
| Particles.Particle.ConnectWith | de/javaabc/particlesimulation/particle/Particle.java:288-293 | p is appended only when it is not this, not connected yet, and does not hold this. If afterwards this and p hold each other, this already held p |
| Particles.Particle.RemoveConnectionTo | de/javaabc/particlesimulation/particle/Particle.java:300-304 | the first connection to p is removed; on a duplicate-free list p is then gone |
| Containers.PrecedesExactlyOne | de/javaabc/particlesimulation/particle/ParticleContainer.java:205-208 | for any non-zero difference exactly one of dx and -dx passes the tie-break, and ZERO never does |
| Containers.TieBreak | de/javaabc/particlesimulation/particle/ParticleContainer.java:205-208 | of two particles at distinct positions exactly one order is accepted; at the same position neither is |
| Containers.WindowAround | de/javaabc/particlesimulation/particle/ParticleContainer.java:203 | for a block in the grid, the window from (-1, -1) to (+2, +2) is non-empty once clamped. It covers exactly the blocks in the grid adjacent to it, diagonals included |
| Containers.AcceptedMembership | de/javaabc/particlesimulation/particle/ParticleContainer.java:203-209 | one particle's loop accepts (a, b) iff a is that particle, b is in its window, and b passes the tie-break |
| Containers.HitsWithinRadius | de/javaabc/particlesimulation/particle/ParticleContainer.java:247 | a particle is hit at a point iff the point is closer to it than RENDER_RADIUS |
| Containers.FirstHitMeaning | de/javaabc/particlesimulation/particle/ParticleContainer.java:245-250 | there is no result iff no particle of the window is hit; otherwise the result is the earliest particle hit |
| Containers.ParticleContainer.constructor | de/javaabc/particlesimulation/particle/ParticleContainer.java:49-57 | width x height empty blocks, the block size and its inverse as given, size 0, no particles |
| Containers.ParticleContainer.BlockPosInside | de/javaabc/particlesimulation/particle/ParticleContainer.java:65-67 | a position inside the grid's pixel area maps to a block in the grid |
| Containers.ParticleContainer.BlockPosNearEdge | de/javaabc/particlesimulation/particle/ParticleContainer.java:65-67 | positions within one block of the origin map to block (0, 0), including slightly negative ones, because the cast truncates |
| Containers.ParticleContainer.BlockAdd | de/javaabc/particlesimulation/particle/ParticleContainer.java:293-296 | p is appended to that block, every other block is unchanged, and size grows by 1 |
| Containers.ParticleContainer.BlockRemove | de/javaabc/particlesimulation/particle/ParticleContainer.java:298-301 | the first occurrence of p leaves that block and size drops by 1, even when p was not there |
| Containers.ParticleContainer.Add | de/javaabc/particlesimulation/particle/ParticleContainer.java:75-84 | if p's block is in the grid, p is appended to it and counted, and no connection changes. Otherwise the grid and size are unchanged and every particle held severs its connection to p. p is held afterwards iff its block is in the grid |
| Containers.ParticleContainer.Remove | de/javaabc/particlesimulation/particle/ParticleContainer.java:93-97 | p's first occurrence leaves the block its position maps to, size drops by 1, and every particle held severs its connection to p |
| Containers.ParticleContainer.SeverConnectionsTo | de/javaabc/particlesimulation/particle/ParticleContainer.java:79 | every particle held loses its first connection to p; a duplicate-free list no longer names p |
| Containers.ParticleContainer.Iterate | de/javaabc/particlesimulation/particle/ParticleContainer.java:127-169 | the iterator yields exactly the window walk Grids.Walk: block by block, row by row, each block in list order |
| Containers.ParticleContainer.WalkBlocks | de/javaabc/particlesimulation/particle/ParticleContainer.java:133-168 | the hasNext/next loop over the block array yields Grids.Walk of the grid it holds |
| Grids.WalkMembership | de/javaabc/particlesimulation/particle/ParticleContainer.java:127-131 | for a non-empty clamped window, the walk holds exactly the particles of the blocks inside it |
| Grids.WalkWhole | de/javaabc/particlesimulation/particle/ParticleContainer.java:171-174 | the walk from ZERO to (width, height) is the whole grid, row by row |
| Grids.WalkEmptyColumns | de/javaabc/particlesimulation/particle/ParticleContainer.java:134-153 | with an empty x-range the iterator still yields the blocks of column minX |
| Grids.AllMembership | de/javaabc/particlesimulation/particle/ParticleContainer.java:171-174 | the full walk holds exactly the particles of the blocks in the grid |
| Containers.ParticleContainer.IterateAll | de/javaabc/particlesimulation/particle/ParticleContainer.java:171-174 | the whole iterator yields every particle held, block by block |
| Containers.ParticleContainer.ForEachPair | de/javaabc/particlesimulation/particle/ParticleContainer.java:200-211 | the pairs handed to the action are PairsOf the particles in iteration order |
| Containers.ParticleContainer.PairsAll | de/javaabc/particlesimulation/particle/ParticleContainer.java:201-210 | the outer loop over the particles collects each one's accepted pairs in turn |
| Containers.ParticleContainer.AcceptAll | de/javaabc/particlesimulation/particle/ParticleContainer.java:203-209 | the inner loop keeps exactly the window's particles that pass the tie-break, in order |
| Containers.ParticleContainer.PairsOfMembership | de/javaabc/particlesimulation/particle/ParticleContainer.java:200-211 | (p1, p2) is a pair iff p1 is held, p2 is in p1's window, and p2 passes the tie-break against p1 |
| Containers.ParticleContainer.PairsApart | de/javaabc/particlesimulation/particle/ParticleContainer.java:205-208 | no pair joins a particle to itself or two particles at the same position |
| Containers.ParticleContainer.NearAtRest | de/javaabc/particlesimulation/particle/ParticleContainer.java:202-203 | with every particle in its own block, p's window holds exactly the particles whose block is adjacent to p's |
| Containers.ParticleContainer.PairOrder | de/javaabc/particlesimulation/particle/ParticleContainer.java:200-211 | at rest, (p1, p2) is a pair iff their blocks are adjacent and p2 passes the tie-break against p1 |
| Containers.ParticleContainer.PairsOneOrder | de/javaabc/particlesimulation/particle/ParticleContainer.java:200-211 | at rest, two particles at distinct positions in adjacent blocks form a pair in exactly one order, and never in both |
| Containers.ParticleContainer.MemberAtRest | de/javaabc/particlesimulation/particle/ParticleContainer.java:213-216 | at rest, every particle held sits in the block its position maps to |
| Containers.ParticleContainer.Find | de/javaabc/particlesimulation/particle/ParticleContainer.java:243-251 | the result is the first particle of the window around the point whose render bounds contain the point, or none |
| Containers.ParticleContainer.FindIn | de/javaabc/particlesimulation/particle/ParticleContainer.java:245-250 | the scan returns the first hit of its sequence; the cached bounds stay current |
| Containers.ParticleContainer.RemoveAllAt | de/javaabc/particlesimulation/particle/ParticleContainer.java:258-265 | each window block is swept of the particles hit at the point, as Grids.Sweep describes. size drops by the number removed. Every remaining particle severs its connections to the removed ones, and the grid stays at rest |
| Containers.ParticleContainer.SweepBlock | de/javaabc/particlesimulation/particle/ParticleContainer.java:318-321 | one block's pass of the index-based iterator with removals leaves the block as Grids.Sweep gives |
| Grids.SweepSplits | de/javaabc/particlesimulation/particle/ParticleContainer.java:258-265 | what a block keeps and what it loses together are the old block, as a multiset |
| Grids.SweptHits | de/javaabc/particlesimulation/particle/ParticleContainer.java:262-263 | only particles that are hit are removed |
| Grids.SweepShrinks | de/javaabc/particlesimulation/particle/ParticleContainer.java:258-265 | the sweep adds nothing, keeps every particle that is not hit, and the kept and removed counts add up to the block's length |
| Grids.SweepSkipsNext | de/javaabc/particlesimulation/particle/ParticleContainer.java:318-321 | of two adjacent hit particles [a, b], only a is removed; b stays |
| Grids.SweepWindowShrinks | de/javaabc/particlesimulation/particle/ParticleContainer.java:258-265 | sweeping the window adds no particle to the grid |
| Grids.SweepWindowKeeps | de/javaabc/particlesimulation/particle/ParticleContainer.java:262-263 | a particle that is not hit stays in the grid |
| Grids.SweptWindowHits | de/javaabc/particlesimulation/particle/ParticleContainer.java:262-263 | every particle removed was held and is hit |
| Containers.ParticleContainer.CellMisplaced | de/javaabc/particlesimulation/particle/ParticleContainer.java:222-226 | one block's particles whose position maps elsewhere, in list order, each with that block as origin |
| Containers.ParticleContainer.RowMisplaced | de/javaabc/particlesimulation/particle/ParticleContainer.java:220-226 | the same for one row of blocks, left to right |
| Containers.ParticleContainer.CollectMisplaced | de/javaabc/particlesimulation/particle/ParticleContainer.java:217-227 | the collected entries are Grids.Misplaced of the grid: every misplaced particle, row by row |
| Grids.Misplaced | de/javaabc/particlesimulation/particle/ParticleContainer.java:219-226 | every entry comes from a block in the grid, is listed in that origin block, and targets a block other than the one it sits in |
| Containers.ParticleContainer.Relocate | de/javaabc/particlesimulation/particle/ParticleContainer.java:230-233 | one entry: it is removed from its origin block, then re-added. It is filed in its target block if that is in the grid; otherwise it is dropped, the count falls by 1, and every particle held severs its connection to it |
| Containers.ParticleContainer.RelocateAll | de/javaabc/particlesimulation/particle/ParticleContainer.java:229-234 | all entries in order. The grid ends at rest, the dropped particles are no longer held or counted, and every remaining connection list loses exactly them |
| Containers.ParticleContainer.UpdateBlocks | de/javaabc/particlesimulation/particle/ParticleContainer.java:216-235 | afterwards every particle sits in the block its position maps to. Exactly the particles whose block is off the grid are gone: from the grid, from the count, and from every connection list |
| Grids.Rebucketed | de/javaabc/particlesimulation/particle/ParticleContainer.java:216-235 | each block afterwards holds, in order, its particles that belong there, followed by the arrivals for it in the order they were found |
| Grids.RebucketedConsistent | de/javaabc/particlesimulation/particle/ParticleContainer.java:216-235 | afterwards every particle in the grid sits in its own block |
| Grids.RebucketedKeepsAll | de/javaabc/particlesimulation/particle/ParticleContainer.java:229-234 | a particle whose target block is in the grid ends up in that block |
| Grids.RebucketedHeld | de/javaabc/particlesimulation/particle/ParticleContainer.java:229-234 | afterwards the grid holds exactly the old particles whose target is in the grid |
| Grids.MisplacedDropped | de/javaabc/particlesimulation/particle/ParticleContainer.java:77-80 | a particle is dropped iff it was held and its target block is off the grid |
| Ticking.AfterPairsFixed | de/javaabc/particlesimulation/particle/FixedParticle.java:29-35 | the pairwise phase never changes a fixed particle's force |
| Ticking.AfterPairTotal | de/javaabc/particlesimulation/particle/Particle.java:152-154 | one pair interaction keeps the total force of a duplicate-free list of free particles |
| Ticking.AfterPairsTotal | de/javaabc/particlesimulation/Simulation.java:142 | the whole pairwise phase keeps the total force of free particles |
| Ticking.TickPair | de/javaabc/particlesimulation/Simulation.java:142 | one tickForceTo call turns every accumulator into its AfterPair value |
| Ticking.ApplyPairs | de/javaabc/particlesimulation/Simulation.java:142 | the loop over the pairs ends with every accumulator at its AfterPairs value, and fixed particles untouched |
| Ticking.TickPairs | de/javaabc/particlesimulation/Simulation.java:142 | the same, and with free particles only, each held once, the total force is unchanged |
| Ticking.PullIsSpringsPull | de/javaabc/particlesimulation/particle/Particle.java:194 | the value-level spring pull equals the particle's own SpringsPull while the positions agree |
| Ticking.AfterSpecialsFixed | de/javaabc/particlesimulation/particle/FixedParticle.java:26-35 | the special-force phase never changes a fixed particle's force, neither through its own ghosts and springs nor through its neighbours' springs |
| Ticking.AfterSpecialsOutside | de/javaabc/particlesimulation/particle/Particle.java:192-195 | the special-force phase reaches only the particles ticked and the particles their springs join: any other accumulator is unchanged |
| Ticking.TickSpecialOne | de/javaabc/particlesimulation/particle/Particle.java:192-195 | one tickSpecialForces call turns every accumulator into its AfterSpecial value: a free particle takes its ghost exchanges and spring pulls, each free neighbour gains its spring force |
| Ticking.ApplySpecials | de/javaabc/particlesimulation/Simulation.java:143 | the loop over the particles ends with every accumulator at its AfterSpecials value |
| Ticking.TickSpecial | de/javaabc/particlesimulation/Simulation.java:143 | tickSpecialForces on every particle, in list order: every accumulator ends at its `AfterSpecials` value, fixed particles' forces are unchanged, and the epsilon cache stays valid |
| Ticking.TickSpeeds | de/javaabc/particlesimulation/Simulation.java:144 | every free particle gets its friction and Verlet speed update; fixed particles keep force and speed |
| Ticking.TickPositions | de/javaabc/particlesimulation/Simulation.java:145 | every free particle moves by its Verlet displacement and drops its cached bounds; fixed particles stay put |
| Ticking.TickResets | de/javaabc/particlesimulation/Simulation.java:146 | every free particle's old force becomes its force, and its force becomes gravity |
| Ticking.Gather | de/javaabc/particlesimulation/Simulation.java:142-143 | the pairs and the particle list the phases visit: the list is every held particle, closed under connections, and the pairs are exactly `PairsOf` that list, the pairs of particles in the same or neighbouring blocks as forEachPair walks them; every pair joins two particles of the list |
| Ticking.TickForces | de/javaabc/particlesimulation/Simulation.java:142-143 | the two force phases change only the accumulators; (paired, loaded) is `ForcePhases` of the old state (through `Phases`): paired is `AfterPairs` of the old accumulators over the pairs, loaded is `AfterSpecials` of paired, and loaded is what the accumulators hold afterwards; fixed particles' accumulators are unchanged |
| Ticking.TickMotion | de/javaabc/particlesimulation/Simulation.java:144-146 | tickSpeed, tickPos and tickReset in turn: each free particle of a duplicate-free list is Advanced (friction, Verlet speed, a move with the new speed and the old oldForce, the accumulator handed to oldForce, gravity as the new accumulator); fixed particles do not change |
| Ticking.TickParticles | de/javaabc/particlesimulation/Simulation.java:142-146 | the five particle phases in order: (paired, loaded) is `ForcePhases` of the old state, every free particle's accumulator restarts at gravity, and with each particle listed once, every free particle is Advanced from its old state with loaded as its accumulator after the force phases; fixed particles neither move nor change speed |
| Ticking.Rebucket | de/javaabc/particlesimulation/Simulation.java:147 | updateBlocks restores the tick's starting state, no mirrored connection included, and keeps exactly the particles whose block is in the grid; gone is the dropped particles, every surviving particle's connections are its old ones without them, in order, and the blocks are the old ones with each misplaced particle moved to the block its new position maps to (`Grids.ApplyMoves` of `Grids.Misplaced`) |
| Ticking.Step | de/javaabc/particlesimulation/Simulation.java:141-148 | one tick keeps its starting state: the grid at rest, every connection naming a held particle, and no connection held both ways. pairs is `PairsOf` the particles held, and (paired, loaded) is `ForcePhases` of the old state over those pairs. Every free particle's accumulator restarts at gravity. When the iteration holds each particle once, every free particle is Advanced from its old state with loaded as its accumulator. Exactly the old particles whose new block is in the grid remain; gone is those dropped, and each survivor's connections are its old ones without them, in order. The blocks are the old ones with each misplaced particle moved to its new block. Fixed particles stay, in place and at rest |

## Left out

- Concurrency: `forEachParallel`, the parallel stream, and the `synchronized` blocks and methods are modelled sequentially, in one fixed order. The races on `size`, and on a particle's force when two pairs touch it at once, are not modelled.
- Floating point: every `double` is an exact `real`. Rounding, NaN and infinities are not modelled.
- The Java `(int)` cast is modelled as truncation toward zero. Its saturation at the `int` range is not modelled. `int` arithmetic in `IntVec` is unbounded; 32-bit wrap-around is not modelled.
- `Math.sqrt` is a parameter `sqrt`. Only its positivity on positive arguments is assumed of it, through the `SqrtPositive` precondition.
- Rendering: `render`, `renderConnections`, `renderGrid` and the Swing display are left out. `Ellipse2D` is modelled as the `Ellipse` datatype with its `contains` test. Graphics have no effect on the state modelled here.
- Input handling (`MouseInput`, `KeyInput`) and the `Simulation` window, scheduler and configuration are left out. The cutoff distance, the display size and gravity are parameters (`Domain`, `gravity`).
- `Cache2D` is modelled without `null` values: a generator returning `null` would be re-run by the source on the next lookup. The model's generators always produce a value.
- The messages written to `System.err` and `toString` are not modelled.
- Containers.ParticleContainer.ForEachPair: it returns the pairs in the order the action sees them. `Ticking.TickPairs` then applies `tickForceTo` to them; the pairs are the same, since the action does not move particles.
- Containers.ParticleContainer.Remove: requires the particle's block to be in the grid. The source would throw an `ArrayIndexOutOfBoundsException` otherwise.
- Containers.ParticleContainer.RemoveAllAt: requires the grid at rest, with every particle in its own block. This is the state between ticks, where the source calls it. It also requires `NearReadable`, for the reason given for `Iterate`.
- Containers.ParticleContainer.Find: requires every cached render bounds to belong to the current position, which every method of the model keeps. It also requires `NearReadable`, for the reason given for `Iterate`.
- Containers.ParticleContainer.Iterate: requires `Readable`: the clamped window start must be a block of the grid. The iterator reads that block when it is created, so the source throws an `ArrayIndexOutOfBoundsException` for a window that starts right of or below the grid. `Find` and `RemoveAllAt` build their window around a point, and require `NearReadable` for the same reason.
- Vectors.Vec.SqLength: states that it is never negative, not that it is zero only for ZERO. `Particles.PairExchange` covers the one use of that fact: coincident positions are skipped.
- Ticking.TickSpecial: the particles are ticked one after the other, in list order. The source's parallel stream can interleave two particles that share a spring; see the concurrency line above.
- Ticking.TickSpeeds: the per-particle formula is stated only for a particle list that holds each particle once. `add` does not refuse a particle that is already held, and a particle held twice is ticked twice per phase by the source.
- Ticking.TickPositions: the same condition, for the same reason.
- Ticking.TickResets: the same condition for the old force, for the same reason. The new force is gravity in every case.
- Ticking.TickMotion: the same condition, for the same reason.
- Ticking.TickParticles: the same condition, for the same reason.
- Ticking.Step: the per-particle results are stated only when the container's iteration holds each particle once. The simulation adds only new particles, but it is not proved here that `updateBlocks` keeps a grid free of duplicates.
- Ticking.Step: requires every connection to name a particle the container holds. Springs to particles outside the container are not modelled. `updateBlocks` severs connections to dropped particles, which keeps this state. It also requires that no two particles hold each other. The connection list is private and `connectWith` is the only method that adds to it, which never creates such a pair (`Particles.ConnectNoMirror`).
- Particles.Particle.constructor: the mass is a positive `real`, because the source divides by it.
- Particles.Particle.ConnectWith: the source reads the other particle's list without holding its lock. The sequential model reads it directly.
