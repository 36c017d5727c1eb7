/** Sequence helpers with the meaning of java.util.List operations the core relies on. */
module Lists {

  /** Position of the first occurrence of x in s (List.indexOf for a present element). */
  function IndexOf<T(==)>(s: seq<T>, x: T): (i: nat)
    requires x in s
    ensures i < |s| && s[i] == x && x !in s[..i]
  {
    if s[0] == x then 0
    else
      var j := IndexOf(s[1..], x);
      assert s[..j + 1] == [s[0]] + s[1..][..j];
      j + 1
  }

  /**
   * List.remove(Object): erases the first occurrence of x; a list without x is returned
   * unchanged.
   */
  function RemoveFirst<T(==)>(s: seq<T>, x: T): (r: seq<T>)
    ensures x !in s ==> r == s
    ensures x in s ==> |r| == |s| - 1
  {
    if s == [] then []
    else if s[0] == x then s[1..]
    else [s[0]] + RemoveFirst(s[1..], x)
  }

  /** As bags, removal takes away exactly one copy of x (none when x is absent). */
  lemma {:induction false} RemoveFirstMultiset<T>(s: seq<T>, x: T)
    ensures multiset(RemoveFirst(s, x)) == multiset(s) - multiset{x}
  {
    if s != [] {
      assert s == [s[0]] + s[1..];
      if s[0] != x {
        RemoveFirstMultiset(s[1..], x);
        assert multiset([s[0]] + RemoveFirst(s[1..], x)) == multiset{s[0]} + multiset(RemoveFirst(s[1..], x));
      }
    }
  }

  /** The remaining elements keep their order: exactly the element at the first occurrence goes. */
  lemma {:induction false} RemoveFirstAt<T>(s: seq<T>, x: T)
    requires x in s
    ensures RemoveFirst(s, x) == s[..IndexOf(s, x)] + s[IndexOf(s, x) + 1..]
  {
    if s[0] != x {
      var t, j := s[1..], IndexOf(s[1..], x);
      RemoveFirstAt(t, x);
      assert s[..j + 1] == [s[0]] + t[..j];
      assert s[j + 2..] == t[j + 1..];
    }
  }

  /** No element occurs twice. */
  predicate NoDup<T(==)>(s: seq<T>)
  {
    forall i, j :: 0 <= i < j < |s| ==> s[i] != s[j]
  }

  /** In a duplicate-free list, an element occurs neither before nor after its own position. */
  lemma NoDupSplit<T>(s: seq<T>, i: int)
    requires NoDup(s) && 0 <= i < |s|
    ensures s[i] !in s[..i] && s[i] !in s[i + 1..]
  {
  }

  /** In a duplicate-free list, removing the first occurrence removes every occurrence. */
  lemma {:induction false} RemoveFirstNoDup<T>(s: seq<T>, x: T)
    requires NoDup(s)
    ensures x !in RemoveFirst(s, x)
    ensures NoDup(RemoveFirst(s, x))
  {
    if x in s {
      var i := IndexOf(s, x);
      var r := RemoveFirst(s, x);
      RemoveFirstAt(s, x);
      assert r == s[..i] + s[i + 1..];
      forall k | 0 <= k < |r| ensures r[k] != x {
        if k < i { assert r[k] == s[k]; } else { assert r[k] == s[k + 1]; }
      }
      forall a, b | 0 <= a < b < |r| ensures r[a] != r[b] {
        var a' := if a < i then a else a + 1;
        var b' := if b < i then b else b + 1;
        assert r[a] == s[a'] && r[b] == s[b'];
      }
    }
  }

  /** Removing the first occurrence never introduces an element. */
  lemma RemoveFirstSubset<T>(s: seq<T>, x: T, y: T)
    requires y !in s
    ensures y !in RemoveFirst(s, x)
  {
    RemoveFirstMultiset(s, x);
    assert multiset(RemoveFirst(s, x))[y] <= multiset(s)[y];
  }

  /** When x lies in the front part, removal does not touch the back part. */
  lemma {:induction false} RemoveFirstAppend<T>(a: seq<T>, b: seq<T>, x: T)
    requires x in a
    ensures RemoveFirst(a + b, x) == RemoveFirst(a, x) + b
  {
    var ab := a + b;
    assert ab[0] == a[0] && ab[1..] == a[1..] + b;
    if a[0] != x {
      RemoveFirstAppend(a[1..], b, x);
    }
  }

  /** Removing an element that differs from the head keeps the head. */
  lemma RemoveFirstCons<T>(h: T, t: seq<T>, x: T)
    requires h != x
    ensures RemoveFirst([h] + t, x) == [h] + RemoveFirst(t, x)
  {
    assert ([h] + t)[1..] == t;
  }

  /** Removing x keeps every other element: membership of y != x is unaffected. */
  lemma RemoveFirstOthers<T>(s: seq<T>, x: T, y: T)
    requires y != x
    ensures y in RemoveFirst(s, x) <==> y in s
  {
    RemoveFirstMultiset(s, x);
    assert multiset(RemoveFirst(s, x))[y] == multiset(s)[y];
  }

  /** s with every element of d left out, the others in their order. */
  function Without<T(==)>(s: seq<T>, d: set<T>): seq<T>
  {
    if s == [] then []
    else (if s[0] in d then [] else [s[0]]) + Without(s[1..], d)
  }

  /** x is kept exactly when it occurs and is not left out. */
  lemma {:induction false} WithoutMembership<T>(s: seq<T>, d: set<T>, x: T)
    ensures x in Without(s, d) <==> x in s && x !in d
  {
    if s != [] {
      WithoutMembership(s[1..], d, x);
      assert s == [s[0]] + s[1..];
    }
  }

  /** Leaving nothing out is the identity. */
  lemma {:induction false} WithoutNothing<T>(s: seq<T>)
    ensures Without(s, {}) == s
  {
    if s != [] {
      WithoutNothing(s[1..]);
    }
  }

  /** Leaving out elements that do not occur changes nothing. */
  lemma {:induction false} WithoutAbsent<T>(s: seq<T>, d: set<T>, x: T)
    requires x !in s
    ensures Without(s, d + {x}) == Without(s, d)
  {
    if s != [] {
      WithoutAbsent(s[1..], d, x);
    }
  }

  /** A duplicate-free list stays duplicate-free. */
  lemma {:induction false} WithoutNoDup<T>(s: seq<T>, d: set<T>)
    requires NoDup(s)
    ensures NoDup(Without(s, d))
  {
    if s != [] {
      WithoutNoDup(s[1..], d);
      var t := Without(s[1..], d);
      if s[0] !in d {
        assert s[0] !in s[1..];
        WithoutMembership(s[1..], d, s[0]);
        forall i, j | 0 <= i < j < |[s[0]] + t| ensures ([s[0]] + t)[i] != ([s[0]] + t)[j] {
          if i == 0 { assert ([s[0]] + t)[j] == t[j - 1]; }
        }
      }
    }
  }

  /**
   * On a duplicate-free list, List.remove(x) after leaving out d is leaving out d and x:
   * removing connections one particle at a time is removing the set of them.
   */
  lemma {:induction false} RemoveFirstWithout<T>(s: seq<T>, d: set<T>, x: T)
    requires NoDup(s)
    ensures RemoveFirst(Without(s, d), x) == Without(s, d + {x})
  {
    if s != [] {
      var t := s[1..];
      assert NoDup(t) by {
        forall i, j | 0 <= i < j < |t| ensures t[i] != t[j] { assert t[i] == s[i + 1] && t[j] == s[j + 1]; }
      }
      if s[0] in d {
        RemoveFirstWithout(t, d, x);
        assert Without(s, d) == Without(t, d) && Without(s, d + {x}) == Without(t, d + {x});
      } else if s[0] == x {
        assert x !in t;
        WithoutAbsent(t, d, x);
      } else {
        RemoveFirstWithout(t, d, x);
        RemoveFirstCons(s[0], Without(t, d), x);
      }
    }
  }

  /** A prefix one longer is the shorter prefix followed by the next element. */
  lemma PrefixSnoc<T>(s: seq<T>, n: nat)
    requires 0 < n <= |s|
    ensures s[..n] == s[..n - 1] + [s[n - 1]]
    ensures forall x :: x in s[..n] <==> x in s[..n - 1] || x == s[n - 1]
  {
    assert s[..n] == s[..n - 1] + [s[n - 1]];
  }

  /** A suffix is its first element followed by the next suffix. */
  lemma SuffixUncons<T>(s: seq<T>, i: nat)
    requires i < |s|
    ensures s[i..] == [s[i]] + s[i + 1..]
    ensures forall x :: x in s[i..] <==> x == s[i] || x in s[i + 1..]
  {
    assert s[i..] == [s[i]] + s[i + 1..];
  }

  /** The elements of a list grown by one are those of the list and the new one. */
  lemma ElementsSnoc<T>(d: set<T>, s: seq<T>, x: T)
    ensures d + (set y | y in s + [x]) == (d + set y | y in s) + {x}
  {
    assert (set y | y in s + [x]) == (set y | y in s) + {x};
  }
}
