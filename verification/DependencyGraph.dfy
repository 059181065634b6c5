/** The dependency graph that sat/waiting.py keeps in the `dependencies` sets of
    its members, as a value: `g[n]` holds the direct dependencies of `n`. */
module DependencyGraph {
  type Graph<N> = map<N, set<N>>

  /** Every dependency of a member is itself a member. */
  ghost predicate Closed<N>(g: Graph<N>) {
    forall n | n in g :: g[n] <= g.Keys
  }

  ghost predicate ClosedUnder<N>(g: Graph<N>, s: set<N>) {
    forall n | n in s && n in g :: g[n] <= s
  }

  ghost function Dependents<N>(g: Graph<N>, n: N): set<N> {
    set d | d in g && n in g[d]
  }

  // ----- transitive dependencies -----

  ghost function Closure<N>(g: Graph<N>, s: set<N>): (r: set<N>)
    requires Closed(g) && s <= g.Keys
    ensures s <= r <= g.Keys && ClosedUnder(g, r)
    decreases g.Keys - s
  {
    var t := s + set n, m | n in s && m in g[n] :: m;
    if t == s then s else Closure(g, t)
  }

  lemma {:induction false} ClosureIsLeast<N>(g: Graph<N>, s: set<N>, t: set<N>)
    requires Closed(g) && s <= g.Keys
    requires s <= t && ClosedUnder(g, t)
    ensures Closure(g, s) <= t
    decreases g.Keys - s
  {
    var u := s + set n, m | n in s && m in g[n] :: m;
    if u == s {
    } else {
      ClosureIsLeast(g, u, t);
    }
  }

  /** The transitive dependencies of a member, itself excluded unless it lies on a cycle. */
  ghost function FullDeps<N>(g: Graph<N>, n: N): (r: set<N>)
    requires Closed(g) && n in g
    ensures g[n] <= r <= g.Keys && ClosedUnder(g, r)
  {
    Closure(g, g[n])
  }

  lemma FullDepsLeast<N>(g: Graph<N>, n: N, t: set<N>)
    requires Closed(g) && n in g
    requires g[n] <= t && ClosedUnder(g, t)
    ensures FullDeps(g, n) <= t
  {
    ClosureIsLeast(g, g[n], t);
  }

  lemma FullDepsTransitive<N>(g: Graph<N>, n: N, m: N)
    requires Closed(g) && n in g && m in FullDeps(g, n)
    ensures FullDeps(g, m) <= FullDeps(g, n)
  {
    FullDepsLeast(g, m, FullDeps(g, n));
  }

  /** A down-closed set that holds the direct dependencies holds the transitive ones. */
  lemma FullDepsWithin<N>(g: Graph<N>, n: N, s: set<N>)
    requires Closed(g) && n in g && ClosedUnder(g, s)
    ensures g[n] <= s <==> FullDeps(g, n) <= s
  {
    if g[n] <= s {
      FullDepsLeast(g, n, s);
    }
  }

  lemma FullDepsMonotone<N>(g: Graph<N>, h: Graph<N>, n: N)
    requires Closed(g) && Closed(h) && g.Keys == h.Keys && n in g
    requires forall m | m in g :: g[m] <= h[m]
    ensures FullDeps(g, n) <= FullDeps(h, n)
  {
    FullDepsLeast(g, n, FullDeps(h, n));
  }

  /** Everything below `n` is below one of its direct dependencies or is one of them,
      and has a parent there. */
  lemma FullDepsParent<N>(g: Graph<N>, n: N, c: N) returns (b: N)
    requires Closed(g) && n in g && c in FullDeps(g, n)
    ensures b in {n} + FullDeps(g, n) && c in g[b]
  {
    var all := {n} + FullDeps(g, n);
    if forall x | x in all :: c !in g[x] {
      FullDepsLeast(g, n, FullDeps(g, n) - {c});
      assert false;
    }
    b :| b in all && c in g[b];
  }

  // ----- paths -----

  /** A dependency chain: each member depends directly on the next. */
  ghost predicate IsPath<N>(g: Graph<N>, p: seq<N>) {
    && p != []
    && (forall i | 0 <= i < |p| :: p[i] in g)
    && (forall i | 0 <= i < |p| - 1 :: p[i + 1] in g[p[i]])
  }

  ghost predicate IsPathTo<N>(g: Graph<N>, p: seq<N>, a: N, b: N) {
    IsPath(g, p) && p[0] == a && p[|p| - 1] == b
  }

  /** A closed dependency chain, listed once round. */
  ghost predicate IsCycle<N>(g: Graph<N>, c: seq<N>) {
    IsPath(g, c) && c[0] in g[c[|c| - 1]]
  }

  lemma {:induction false} PathWithinFullDeps<N>(g: Graph<N>, p: seq<N>, i: nat)
    requires Closed(g) && IsPath(g, p) && 0 < i < |p|
    ensures p[i] in FullDeps(g, p[0])
  {
    if i <= 1 {
    } else {
      PathWithinFullDeps(g, p, i - 1);
    }
  }

  lemma {:induction false} ClosurePath<N>(g: Graph<N>, s: set<N>, b: N) returns (p: seq<N>)
    requires Closed(g) && s <= g.Keys && b in Closure(g, s)
    ensures IsPath(g, p) && p[0] in s && p[|p| - 1] == b
    decreases g.Keys - s
  {
    var t := s + set n, m | n in s && m in g[n] :: m;
    if t == s {
      p := [b];
    } else {
      p := ClosurePath(g, t, b);
      if p[0] !in s {
        var n :| n in s && p[0] in g[n];
        p := [n] + p;
      }
    }
  }

  /** Transitive dependencies are exactly the members at the end of a chain of one or more edges. */
  lemma FullDepsPath<N>(g: Graph<N>, a: N, b: N) returns (p: seq<N>)
    requires Closed(g) && a in g && b in FullDeps(g, a)
    ensures IsPathTo(g, p, a, b) && |p| >= 2
  {
    p := ClosurePath(g, g[a], b);
    p := [a] + p;
  }

  lemma PrependToPath<N>(g: Graph<N>, a: N, d: N, b: N, p: seq<N>)
    requires Closed(g) && a in g && d in g[a] && IsPathTo(g, p, d, b)
    ensures IsPathTo(g, [a] + p, a, b)
    ensures Reaches(g, a, b)
  {
    PathWithinFullDeps(g, [a] + p, |p|);
  }

  /** A member reaches another one only through one of its direct dependencies. */
  lemma ReachesThroughDependency<N>(g: Graph<N>, a: N, b: N)
    requires Closed(g) && a in g && b in FullDeps(g, a)
    ensures exists d | d in g[a] :: Reaches(g, d, b)
  {
    var p := FullDepsPath(g, a, b);
    assert IsPath(g, p[1..]);
    if |p| > 2 {
      PathWithinFullDeps(g, p[1..], |p| - 2);
    }
    assert p[1] in g[a];
  }

  // ----- acyclicity -----

  ghost predicate Acyclic<N>(g: Graph<N>)
    requires Closed(g)
  {
    forall n {:trigger FullDeps(g, n)} | n in g :: n !in FullDeps(g, n)
  }

  lemma CycleRefutesAcyclic<N>(g: Graph<N>, c: seq<N>)
    requires Closed(g) && IsCycle(g, c)
    ensures !Acyclic(g)
  {
    var p := c + [c[0]];
    assert IsPath(g, p);
    PathWithinFullDeps(g, p, |c|);
  }

  lemma CyclicHasCycle<N>(g: Graph<N>) returns (c: seq<N>)
    requires Closed(g) && !Acyclic(g)
    ensures IsCycle(g, c)
  {
    var n :| n in g && n in FullDeps(g, n);
    var p := FullDepsPath(g, n, n);
    c := p[..|p| - 1];
    assert p[|p| - 1] in g[p[|p| - 2]];
  }

  /** In an acyclic graph the number of transitive dependencies falls along every edge. */
  lemma RankDecreases<N>(g: Graph<N>, n: N, m: N)
    requires Closed(g) && Acyclic(g) && n in g && m in FullDeps(g, n)
    ensures |FullDeps(g, m)| < |FullDeps(g, n)|
  {
    FullDepsTransitive(g, n, m);
    assert FullDeps(g, m) < FullDeps(g, n);
    ProperSubsetSize(FullDeps(g, m), FullDeps(g, n));
  }

  lemma ProperSubsetSize<T>(a: set<T>, b: set<T>)
    requires a < b
    ensures |a| < |b|
  {
    var rest := b - a;
    assert b == a + rest;
    assert |b| == |a| + |rest|;
  }

  // ----- adding an edge -----

  ghost function AddEdge<N>(g: Graph<N>, a: N, b: N): (h: Graph<N>)
    requires a in g
  {
    g[a := g[a] + {b}]
  }

  /** `b` is `a` or one of its transitive dependencies. */
  ghost predicate Reaches<N>(g: Graph<N>, a: N, b: N)
    requires Closed(g) && a in g
  {
    a == b || b in FullDeps(g, a)
  }

  /** A new edge `a -> b` adds at most `b` and its dependencies below the members above `a`. */
  lemma AddEdgeFullDeps<N>(g: Graph<N>, a: N, b: N, n: N)
    requires Closed(g) && a in g && b in g && n in g && Closed(AddEdge(g, a, b))
    requires !Reaches(g, b, a)
    ensures FullDeps(AddEdge(g, a, b), n)
         <= FullDeps(g, n) + if Reaches(g, n, a) then FullDeps(g, b) + {b} else {}
  {
    var low := if Reaches(g, n, a) then FullDeps(g, b) + {b} else {};
    FullDepsLeast(AddEdge(g, a, b), n, FullDeps(g, n) + low);
  }

  /** A new edge keeps an acyclic graph acyclic exactly when its target does not reach its source. */
  lemma AddEdgeAcyclic<N>(g: Graph<N>, a: N, b: N)
    requires Closed(g) && Acyclic(g) && a in g && b in g
    ensures Closed(AddEdge(g, a, b))
    ensures Acyclic(AddEdge(g, a, b)) <==> !Reaches(g, b, a)
  {
    var h := AddEdge(g, a, b);
    assert Closed(h);
    if Reaches(g, b, a) {
      FullDepsMonotone(g, h, b);
      FullDepsTransitive(h, a, b);
      assert a in FullDeps(h, a);
    } else {
      forall n | n in h ensures n !in FullDeps(h, n) {
        AddEdgeFullDeps(g, a, b, n);
        if Reaches(g, b, n) && Reaches(g, n, a) {
          FullDepsTransitiveTo(g, b, n, a);
        }
      }
    }
  }

  lemma DependentsAddEdge<N>(g: Graph<N>, a: N, b: N)
    requires a in g
    ensures forall m :: Dependents(AddEdge(g, a, b), m) == Dependents(g, m) + if m == b then {a} else {}
  {
  }

  lemma FullDepsTransitiveTo<N>(g: Graph<N>, b: N, n: N, a: N)
    requires Closed(g) && b in g && Reaches(g, b, n) && Reaches(g, n, a)
    ensures Reaches(g, b, a)
  {
    if b != n {
      FullDepsTransitive(g, b, n);
    }
  }

  lemma SubgraphAcyclic<N>(g: Graph<N>, h: Graph<N>)
    requires Closed(g) && Closed(h) && g.Keys == h.Keys && Acyclic(h)
    requires forall m | m in g :: g[m] <= h[m]
    ensures Acyclic(g)
  {
    forall n | n in g ensures n !in FullDeps(g, n) {
      FullDepsMonotone(g, h, n);
    }
  }

  // ----- longest chains -----

  ghost function MaxOf(s: set<nat>): (r: nat)
    ensures forall x | x in s :: x <= r
    ensures if s == {} then r == 0 else r in s
  {
    if s == {} then 0
    else
      var x :| x in s;
      var m := MaxOf(s - {x});
      assert forall y | y in s :: y == x || y in s - {x};
      if x <= m then m else x
  }

  lemma RanksDecrease<N>(g: Graph<N>, n: N)
    requires Closed(g) && Acyclic(g) && n in g
    ensures forall m | m in g[n] :: |FullDeps(g, m)| < |FullDeps(g, n)|
  {
    forall m | m in g[n] ensures |FullDeps(g, m)| < |FullDeps(g, n)| {
      RankDecreases(g, n, m);
    }
  }

  /** The number of members on the longest dependency chain that starts at `n`. */
  ghost function Height<N>(g: Graph<N>, n: N): (r: nat)
    requires Closed(g) && Acyclic(g) && n in g
    decreases |FullDeps(g, n)|, 1
  {
    1 + MaxOf(HeightsBelow(g, n))
  }

  ghost function HeightsBelow<N>(g: Graph<N>, n: N): set<nat>
    requires Closed(g) && Acyclic(g) && n in g
    decreases |FullDeps(g, n)|, 0
  {
    RanksDecrease(g, n);
    set m | m in g[n] :: Height(g, m)
  }

  lemma HeightPositive<N>(g: Graph<N>, n: N)
    requires Closed(g) && Acyclic(g) && n in g
    ensures Height(g, n) >= 1
  {
  }

  lemma HeightStep<N>(g: Graph<N>, n: N, m: N)
    requires Closed(g) && Acyclic(g) && n in g && m in g[n]
    ensures 1 <= Height(g, m) < Height(g, n)
  {
    assert Height(g, m) in HeightsBelow(g, n);
  }

  lemma {:induction false} HeightBoundsPaths<N>(g: Graph<N>, p: seq<N>)
    requires Closed(g) && Acyclic(g) && IsPath(g, p)
    ensures |p| <= Height(g, p[0])
  {
    if |p| <= 1 {
    } else {
      assert IsPath(g, p[1..]);
      HeightBoundsPaths(g, p[1..]);
      HeightStep(g, p[0], p[1]);
    }
  }

  lemma {:induction false} HeightHasPath<N>(g: Graph<N>, n: N) returns (p: seq<N>)
    requires Closed(g) && Acyclic(g) && n in g
    ensures IsPath(g, p) && p[0] == n && |p| == Height(g, n)
    decreases |FullDeps(g, n)|
  {
    var heights := HeightsBelow(g, n);
    if heights == {} {
      p := [n];
    } else {
      var m :| m in g[n] && Height(g, m) == MaxOf(heights);
      RankDecreases(g, n, m);
      p := HeightHasPath(g, m);
      p := [n] + p;
    }
  }

  ghost function Heights<N>(g: Graph<N>): set<nat>
    requires Closed(g) && Acyclic(g)
  {
    set n | n in g :: Height(g, n)
  }

  /** The number of members on the longest dependency chain. */
  ghost function LongestChain<N>(g: Graph<N>): nat
    requires Closed(g) && Acyclic(g)
  {
    MaxOf(Heights(g))
  }

  lemma HeightWithinLongest<N>(g: Graph<N>, n: N)
    requires Closed(g) && Acyclic(g) && n in g
    ensures Height(g, n) <= LongestChain(g)
  {
    assert Height(g, n) in Heights(g);
  }

  /** It is the length of a dependency chain and no chain is longer. */
  lemma LongestChainIsLongest<N>(g: Graph<N>) returns (p: seq<N>)
    requires Closed(g) && Acyclic(g) && g != map[]
    ensures IsPath(g, p) && |p| == LongestChain(g)
    ensures forall q: seq<N> | IsPath(g, q) :: |q| <= LongestChain(g)
  {
    var some :| some in g;
    assert Height(g, some) in Heights(g);
    var n :| n in g && Height(g, n) == MaxOf(Heights(g));
    p := HeightHasPath(g, n);
    forall q: seq<N> | IsPath(g, q) ensures |q| <= LongestChain(g) {
      HeightBoundsPaths(g, q);
      HeightWithinLongest(g, q[0]);
    }
  }
}
