/** Members of a dependency group (sat/waiting.py:367-480): objects that hold
    their direct dependencies and dependents in two sets they update in place. */
module Members {
  import opened DependencyGraph

  /** The `ims` entry of an input image: the bootprep schema has it name its base
      either by id or by name. */
  datatype ImsBase = ById(isRecipe: bool, id: string) | ByName(isRecipe: bool, name: string)

  /** `add_dependency` returns normally or raises DependencyCycleError. */
  datatype AddResult = Added | CycleError(cycle: seq<DependencyGroupMember>)

  /** InputImage is the one class that mixes in DependencyGroupMember; `name` and
      `ims` are the two fields of it that its dependencies come from. */
  class DependencyGroupMember {
    const name: string
    const ims: ImsBase
    var dependencies: set<DependencyGroupMember>
    var dependents: set<DependencyGroupMember>

    constructor (name: string, ims: ImsBase)
      ensures this.name == name && this.ims == ims
      ensures dependencies == {} && dependents == {}
    {
      this.name := name;
      this.ims := ims;
      dependencies := {};
      dependents := {};
    }

    predicate HasDependencies()
      reads this
    {
      dependencies != {}
    }

    /** Depth-first search without a visited set. It ends because the graph is acyclic. */
    method DependsOn(other: DependencyGroupMember, dependencyChain: seq<DependencyGroupMember>,
                     ghost group: set<DependencyGroupMember>)
      returns (chain: seq<DependencyGroupMember>)
      requires ValidGroup(group) && this in group
      ensures chain != [] <==> Reaches(Deps(group), this, other)
      ensures chain != [] ==> dependencyChain < chain
                              && IsPathTo(Deps(group), chain[|dependencyChain|..], this, other)
      decreases |FullDeps(Deps(group), this)|
    {
      ghost var g := Deps(group);
      assert Closed(g) && Acyclic(g);
      var extended := dependencyChain + [this];
      if this == other {
        return extended;
      }
      var rest := dependencies;
      while rest != {}
        invariant rest <= dependencies
        invariant ValidGroup(group) && Deps(group) == g
        invariant forall d | d in g[this] - rest :: !Reaches(g, d, other)
      {
        var dependency :| dependency in rest;
        RankDecreases(g, this, dependency);
        var possible := dependency.DependsOn(other, extended, group);
        assert Deps(group) == g;
        if possible != [] {
          PrependToPath(g, this, dependency, other, possible[|extended|..]);
          assert possible[|dependencyChain|..] == [this] + possible[|extended|..];
          return possible;
        }
        rest := rest - {dependency};
      }
      if other in FullDeps(g, this) {
        ReachesThroughDependency(g, this, other);
        assert false;
      }
      chain := [];
    }

    /** Worklist traversal. It needs only that dependencies stay inside the group:
        with cycles it ends as well. */
    method FullDependencies(ghost group: set<DependencyGroupMember>)
      returns (deps: set<DependencyGroupMember>)
      requires ClosedGroup(group) && this in group
      ensures deps == FullDeps<DependencyGroupMember>(Deps(group), this)
    {
      ghost var g := Deps(group);
      deps := {};
      var todo := ToSeq(dependencies);
      while todo != []
        invariant forall d | d in todo :: d in FullDeps<DependencyGroupMember>(g, this)
        invariant deps <= FullDeps<DependencyGroupMember>(g, this)
        invariant forall d | d in g[this] :: d in deps || d in todo
        invariant forall n, d | n in deps && d in g[n] :: d in deps || d in todo
        invariant Deps(group) == g
        decreases group - deps, |todo|
      {
        var dep := todo[|todo| - 1];
        ghost var before := todo;
        todo := todo[..|todo| - 1];
        assert before == todo + [dep];
        assert dep in FullDeps<DependencyGroupMember>(g, this);
        if dep !in deps {
          deps := deps + {dep};
          var more := ToSeq(dep.dependencies);
          assert forall d | d in more :: d in g[dep];
          todo := todo + more;
        }
      }
      assert ClosedUnder(g, deps);
      FullDepsLeast<DependencyGroupMember>(g, this, deps);
    }

    method AddDependency(dependency: DependencyGroupMember, ghost group: set<DependencyGroupMember>)
      returns (r: AddResult)
      requires ValidGroup(group) && this in group && dependency in group
      modifies this`dependencies, dependency`dependents
      ensures ValidGroup(group)
      ensures r.CycleError? <==> !Acyclic(AddEdge(old(Deps(group)), this, dependency))
      ensures r.Added? ==> Deps(group) == AddEdge(old(Deps(group)), this, dependency)
      ensures r.CycleError? ==> Deps(group) == old(Deps(group))
                                && dependents == old(dependents)
                                && dependency.dependents == old(dependency.dependents)
      ensures r.CycleError? ==> IsPathTo(Deps(group), r.cycle, dependency, this)
                                && IsCycle(AddEdge(old(Deps(group)), this, dependency), r.cycle)
    {
      ghost var g := Deps(group);
      AddEdgeAcyclic(g, this, dependency);
      var cycleMembers := dependency.DependsOn(this, [], group);
      if cycleMembers != [] {
        assert cycleMembers[0..] == cycleMembers;
        return CycleError(cycleMembers);
      }
      DependentsAddEdge(g, this, dependency);
      dependencies := dependencies + {dependency};
      dependency.dependents := dependency.dependents + {this};
      assert Deps(group) == AddEdge(g, this, dependency);
      r := Added;
    }
  }

  /** `list(s)`: the members of a set in some order. */
  method ToSeq<T(==)>(s: set<T>) returns (q: seq<T>)
    ensures forall x :: x in q <==> x in s
  {
    q := [];
    var rest := s;
    while rest != {}
      invariant rest <= s
      invariant forall x :: x in q <==> x in s - rest
    {
      var x :| x in rest;
      rest := rest - {x};
      q := q + [x];
    }
  }

  /** The dependency graph held by the members' fields. */
  ghost function Deps(group: set<DependencyGroupMember>): Graph<DependencyGroupMember>
    reads group
  {
    map m | m in group :: m.dependencies
  }

  ghost predicate ClosedGroup(group: set<DependencyGroupMember>)
    reads group
  {
    Closed(Deps(group))
  }

  /** What every call of `add_dependency` keeps: the group is closed under both
      relations, they are each other's inverse, and there is no cycle. */
  ghost predicate ValidGroup(group: set<DependencyGroupMember>)
    reads group
  {
    && ClosedGroup(group)
    && (forall m | m in group :: m.dependents == Dependents(Deps(group), m))
    && Acyclic(Deps(group))
  }
}
