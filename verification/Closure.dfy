/** Least sets closed under a successor relation. */
module Closure {

  ghost predicate ClosedUnder<T>(next: T -> seq<T>, s: set<T>) {
    forall x, y | x in s && y in next(x) :: y in s
  }

  /** s contains the roots, is closed, and is contained in every closed set with the roots. */
  ghost predicate LeastClosed<T(!new)>(next: T -> seq<T>, roots: set<T>, s: set<T>) {
    roots <= s && ClosedUnder(next, s) &&
    forall c: set<T> | roots <= c && ClosedUnder(next, c) :: s <= c
  }

  /** There is only one such set. */
  lemma LeastClosedUnique<T(!new)>(next: T -> seq<T>, roots: set<T>, s: set<T>, t: set<T>)
    requires LeastClosed(next, roots, s) && LeastClosed(next, roots, t)
    ensures s == t
  {
  }

  /** A chain of successors from x to y. */
  ghost predicate Path<T>(next: T -> seq<T>, p: seq<T>) {
    p != [] && forall i | 0 <= i < |p| - 1 :: p[i + 1] in next(p[i])
  }

  /** A chain that starts in a closed set stays in it. */
  lemma {:induction false} PathStaysIn<T(!new)>(next: T -> seq<T>, s: set<T>, p: seq<T>)
    requires ClosedUnder(next, s) && Path(next, p) && p[0] in s
    ensures p[|p| - 1] in s
    decreases |p|
  {
    if |p| > 1 {
      PathStaysIn(next, s, p[..|p| - 1]);
      assert p[|p| - 1] in next(p[|p| - 2]);
    }
  }

  /** The members of a closed set that some root reaches. */
  ghost predicate Reached<T(!new)>(next: T -> seq<T>, roots: set<T>, y: T) {
    exists p: seq<T> :: Path(next, p) && p[0] in roots && p[|p| - 1] == y
  }

  lemma ReachedNext<T(!new)>(next: T -> seq<T>, roots: set<T>, x: T, y: T)
    requires Reached(next, roots, x) && y in next(x)
    ensures Reached(next, roots, y)
  {
    var p: seq<T> :| Path(next, p) && p[0] in roots && p[|p| - 1] == x;
    var q := p + [y];
    assert Path(next, q) && q[0] in roots && q[|q| - 1] == y;
  }

  lemma RootReached<T(!new)>(next: T -> seq<T>, roots: set<T>, x: T)
    requires x in roots
    ensures Reached(next, roots, x)
  {
    var p := [x];
    assert Path(next, p) && p[0] in roots && p[|p| - 1] == x;
  }

  /** The least closed set is exactly what the roots reach. */
  lemma LeastClosedIsReachability<T(!new)>(next: T -> seq<T>, roots: set<T>, s: set<T>)
    requires LeastClosed(next, roots, s)
    ensures forall y :: y in s <==> Reached(next, roots, y)
  {
    forall y | Reached(next, roots, y) ensures y in s {
      var p: seq<T> :| Path(next, p) && p[0] in roots && p[|p| - 1] == y;
      PathStaysIn(next, s, p);
    }
    var c := set y | y in s && Reached(next, roots, y);
    forall x | x in roots ensures x in c {
      RootReached(next, roots, x);
    }
    forall x, y | x in c && y in next(x) ensures y in c {
      ReachedNext(next, roots, x, y);
    }
    assert s <= c;
  }

  /** The least closed set exists when the roots and all successors lie in a finite universe. */
  lemma ReachableIsLeastClosed<T(!new)>(next: T -> seq<T>, roots: set<T>, universe: set<T>) returns (s: set<T>)
    requires roots <= universe && Bounded(next, universe)
    ensures LeastClosed(next, roots, s)
  {
    s := set y | y in universe && Reached(next, roots, y);
    forall x | x in roots ensures x in s {
      RootReached(next, roots, x);
    }
    forall x, y | x in s && y in next(x) ensures y in s {
      ReachedNext(next, roots, x, y);
    }
    forall c: set<T> | roots <= c && ClosedUnder(next, c) ensures s <= c {
      forall y | y in s ensures y in c {
        var p: seq<T> :| Path(next, p) && p[0] in roots && p[|p| - 1] == y;
        PathStaysIn(next, c, p);
      }
    }
  }

  // ----- exploring from the roots --------------------------------------------------

  function Elements<T(==)>(s: seq<T>): set<T> {
    set x | x in s
  }

  lemma PopElements<T>(stack: seq<T>)
    requires stack != []
    ensures Elements(stack) == Elements(stack[..|stack| - 1]) + {stack[|stack| - 1]}
  {
    var n := |stack| - 1;
    forall p | p in Elements(stack) ensures p in Elements(stack[..n]) || p == stack[n] {
      var i :| 0 <= i < |stack| && stack[i] == p;
      if i < n { assert stack[..n][i] == p; }
    }
  }

  /** Successors never leave the universe. */
  ghost predicate Bounded<T(!new)>(next: T -> seq<T>, universe: set<T>) {
    forall x, y | y in next(x) :: y in universe
  }

  /** A partial exploration: roots and successors of visited elements are visited or waiting, and
      every closed set with the roots holds all of them. */
  ghost predicate Exploring<T(!new)>(next: T -> seq<T>, roots: set<T>, seen: set<T>, waiting: set<T>) {
    roots <= seen + waiting &&
    (forall x, y | x in seen && y in next(x) :: y in seen + waiting) &&
    (forall c: set<T> | roots <= c && ClosedUnder(next, c) :: seen + waiting <= c)
  }

  ghost predicate ExploringWithin<T(!new)>(next: T -> seq<T>, roots: set<T>, universe: set<T>, seen: set<T>,
                                           waiting: set<T>) {
    Bounded(next, universe) && seen + waiting <= universe && Exploring(next, roots, seen, waiting)
  }

  /** At the start the roots are waiting and nothing is visited. */
  lemma Unexplored<T(!new)>(next: T -> seq<T>, roots: set<T>, universe: set<T>)
    requires roots <= universe && Bounded(next, universe)
    ensures ExploringWithin(next, roots, universe, {}, roots)
  {
  }

  /** Visiting a waiting element keeps the exploration going and leaves fewer elements unvisited. */
  lemma Explore<T(!new)>(next: T -> seq<T>, roots: set<T>, universe: set<T>, seen: set<T>, waiting: set<T>, x: T,
                         pushed: set<T>)
    requires ExploringWithin(next, roots, universe, seen, waiting + {x}) && x !in seen
    requires waiting <= pushed <= waiting + Elements(next(x))
    requires Elements(next(x)) <= seen + {x} + pushed
    ensures ExploringWithin(next, roots, universe, seen + {x}, pushed)
    ensures |universe - (seen + {x})| < |universe - seen|
  {
    var succ := Elements(next(x));
    assert x in seen + (waiting + {x});
    assert universe - seen == (universe - (seen + {x})) + {x};
    forall z, y | z in seen + {x} && y in next(z) ensures y in seen + {x} + pushed {
      if z == x { assert y in succ; } else { assert y in seen + (waiting + {x}); }
    }
    forall c: set<T> | roots <= c && ClosedUnder(next, c) ensures seen + {x} + pushed <= c {
      assert succ <= c;
    }
  }

  /** An element already visited can be dropped. */
  lemma Skip<T(!new)>(next: T -> seq<T>, roots: set<T>, universe: set<T>, seen: set<T>, waiting: set<T>, x: T)
    requires ExploringWithin(next, roots, universe, seen, waiting + {x}) && x in seen
    ensures ExploringWithin(next, roots, universe, seen, waiting)
  {
    assert seen + (waiting + {x}) == seen + waiting;
  }

  /** With nothing waiting the visited elements are the least closed set. */
  lemma Explored<T(!new)>(next: T -> seq<T>, roots: set<T>, universe: set<T>, seen: set<T>)
    requires ExploringWithin(next, roots, universe, seen, {})
    ensures LeastClosed(next, roots, seen)
  {
    assert seen + {} == seen;
  }
}
