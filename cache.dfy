/** Cache2D.java: a memo table keyed by an ordered pair of inputs. */
module Cache {

  /** (a, b) has an entry in the nested map m. */
  predicate Stored<A, B, Y>(m: map<A, map<B, Y>>, a: A, b: B)
  {
    a in m && b in m[a]
  }

  /**
   * A two-level map, outer key `a`, inner key `b`. Entries are created on first
   * request and are never replaced or removed.
   */
  class Cache2D<A(==), B(==), Y> {
    var nested: map<A, map<B, Y>>

    /** A new cache holds no entries. */
    constructor()
      ensures nested == map[]
      ensures forall a: A, b: B :: !Present(a, b)
    {
      nested := map[];
    }

    /** An entry is stored under the ordered pair (a, b). */
    predicate Present(a: A, b: B)
      reads this
    {
      Stored(nested, a, b)
    }

    function Lookup(a: A, b: B): Y
      reads this
      requires Present(a, b)
    {
      nested[a][b]
    }

    /**
     * Returns the entry for (a, b); when there is none, calls the generator once,
     * stores its value under (a, b) and returns it.
     */
    method StoreIfAbsent(a: A, b: B, generator: () -> Y) returns (res: Y)
      modifies this
      ensures Present(a, b) && res == Lookup(a, b)
      ensures old(Present(a, b)) ==> res == old(Lookup(a, b)) && nested == old(nested)
      ensures !old(Present(a, b)) ==> res == generator()
      ensures forall a': A, b': B :: Stored(old(nested), a', b') ==> Present(a', b') && Lookup(a', b') == old(nested)[a'][b']
      ensures forall a': A, b': B :: Present(a', b') ==> Stored(old(nested), a', b') || (a' == a && b' == b)
    {
      if a !in nested {
        res := generator();
        var inner := map[b := res];
        nested := nested[a := inner];
      } else {
        var inner := nested[a];
        if b in inner {
          res := inner[b];
        } else {
          res := generator();
          nested := nested[a := inner[b := res]];
        }
      }
    }
  }
}
