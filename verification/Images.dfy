/** Image dependencies and image creation (sat/cli/bootprep/image.py): the one place
    that builds a dependency graph and hands it to the waiter. */
module Images {
  import opened DependencyGraph
  import opened Members
  import opened Scheduler
  import opened SchedulerResults
  import opened DrivenRuns
  import opened DependencyWaiter
  import opened Options
  import opened Polling
  import opened Sequences

  /** How `create_images` ends: normally, or with an ImageCreateError for one of three reasons. */
  datatype CreateResult =
    | Created
    | NamesNotUnique
    | CircularDependencies
    | CreationFailed(count: nat)

  ghost function Group(images: seq<Member>): set<Member> {
    set m | m in images
  }

  // ----- unique names -----

  ghost predicate UniqueNames(images: seq<Member>) {
    forall i, j | 0 <= i < j < |images| :: images[i].name != images[j].name
  }

  ghost function Count(images: seq<Member>, name: string): nat {
    if images == [] then 0
    else Count(images[..|images| - 1], name) + if images[|images| - 1].name == name then 1 else 0
  }

  lemma {:induction false} CountTwice(images: seq<Member>, name: string)
    ensures Count(images, name) >= 1 <==> exists i | 0 <= i < |images| :: images[i].name == name
    ensures Count(images, name) >= 2 <==>
            exists i, j | 0 <= i < j < |images| :: images[i].name == name == images[j].name
  {
    if images == [] {
    } else {
      CountTwice(images[..|images| - 1], name);
      assert forall i | 0 <= i < |images| - 1 :: images[..|images| - 1][i] == images[i];
    }
  }

  method ValidateUniqueImageNames(images: seq<Member>) returns (unique: bool)
    ensures unique <==> UniqueNames(images)
  {
    var counts: map<string, nat> := map[];
    for i := 0 to |images|
      invariant forall name :: Count(images[..i], name) == if name in counts then counts[name] else 0
    {
      assert images[..i + 1][..i] == images[..i];
      var name := images[i].name;
      counts := counts[name := (if name in counts then counts[name] else 0) + 1];
    }
    assert images[..|images|] == images;
    var nonUnique := set name | name in counts && counts[name] > 1;
    unique := nonUnique == {};
    forall name { CountTwice(images, name); }
    if !unique {
      var name :| name in nonUnique;
    }
    forall i, j | 0 <= i < j < |images| && images[i].name == images[j].name ensures images[i].name in nonUnique {
      assert Count(images, images[i].name) >= 2;
    }
  }

  // ----- the reference graph -----

  /** The name table: a later image takes the place of an earlier one of the same name. */
  ghost function ByName(images: seq<Member>): map<string, Member> {
    if images == [] then map[]
    else ByName(images[..|images| - 1])[images[|images| - 1].name := images[|images| - 1]]
  }

  /** The image that `m` is built from, when the name table has it. */
  ghost function BaseIn(byName: map<string, Member>, m: Member): set<Member> {
    if m.ims.isRecipe || m.ims.ById? || m.ims.name !in byName then {} else {byName[m.ims.name]}
  }

  ghost function References(images: seq<Member>): Graph<Member> {
    map m | m in Group(images) :: BaseIn(ByName(images), m)
  }

  lemma {:induction false} ByNameFinds(images: seq<Member>)
    ensures forall name | name in ByName(images) ::
              ByName(images)[name] in images && ByName(images)[name].name == name
    ensures forall m | m in images :: m.name in ByName(images)
  {
    if images == [] {
    } else {
      ByNameFinds(images[..|images| - 1]);
      assert images == images[..|images| - 1] + [images[|images| - 1]];
    }
  }

  lemma ReferencesShape(images: seq<Member>)
    ensures Closed(References(images)) && AtMostOneDependency(References(images))
  {
    ByNameFinds(images);
  }

  /** Which edges it has: an image refers to the one that has the name of its base, unless it is
      built from a recipe or names its base by id. */
  lemma ReferencesAre(images: seq<Member>, m: Member, b: Member)
    requires UniqueNames(images) && m in images
    ensures b in References(images)[m] <==>
            b in images && m.ims.ByName? && !m.ims.isRecipe && b.name == m.ims.name
  {
    ByNameFinds(images);
    if b in images && m.ims.ByName? && !m.ims.isRecipe && b.name == m.ims.name {
      assert ByName(images)[b.name].name == b.name;
    }
  }

  /** Without the names being unique it is the last image of that name. */
  lemma {:induction false} ByNameIsLast(images: seq<Member>, i: nat)
    requires i < |images| && forall j | i < j < |images| :: images[j].name != images[i].name
    ensures images[i].name in ByName(images) && ByName(images)[images[i].name] == images[i]
  {
    if i == |images| - 1 {
    } else {
      ByNameIsLast(images[..|images| - 1], i);
    }
  }

  /** With unique names the graph does not depend on the order of the input. */
  lemma ReferencesIgnoreOrder(images: seq<Member>, others: seq<Member>)
    requires Group(images) == Group(others)
    requires forall a, b | a in images && b in images && a.name == b.name :: a == b
    ensures References(images) == References(others)
  {
    ByNameFinds(images);
    ByNameFinds(others);
    assert forall m :: m in images <==> m in Group(images);
    assert forall m :: m in others <==> m in Group(others);
    forall m | m in Group(images) ensures BaseIn(ByName(images), m) == BaseIn(ByName(others), m) {
    }
  }

  /** Raises exactly when the reference graph has a cycle; otherwise records that graph. */
  method FindImageDependencies(images: seq<Member>) returns (circular: bool)
    requires forall m | m in images :: m.dependencies == {} == m.dependents
    modifies Group(images)
    ensures ValidGroup(Group(images))
    ensures Closed(References(images)) && (circular <==> !Acyclic<Member>(References(images)))
    ensures !circular ==> Deps(Group(images)) == References(images)
    ensures forall m | m in images :: m.dependencies <= References(images)[m]
    ensures !circular && UniqueNames(images) ==> forall m, b | m in images ::
              b in m.dependencies <==>
              b in images && m.ims.ByName? && !m.ims.isRecipe && b.name == m.ims.name
  {
    ghost var group := Group(images);
    ghost var refs := References(images);
    ReferencesShape(images);
    ByNameFinds(images);
    var byName: map<string, Member> := map[];
    for i := 0 to |images|
      invariant byName == ByName(images[..i])
    {
      assert images[..i + 1][..i] == images[..i];
      assert images[..i + 1][i] == images[i];
      byName := byName[images[i].name := images[i]];
    }
    assert images[..|images|] == images;
    EdgelessGroup(group);
    circular := AddBases(images, byName, group, refs);
    if UniqueNames(images) && !circular {
      forall m, b | m in images
        ensures b in m.dependencies <==>
                b in images && m.ims.ByName? && !m.ims.isRecipe && b.name == m.ims.name
      {
        ReferencesAre(images, m, b);
        assert m.dependencies == Deps(Group(images))[m];
      }
    }
  }

  /** The loop over the images, `refs` being the reference graph. */
  method AddBases(images: seq<Member>, byName: map<string, Member>, ghost group: set<Member>, ghost refs: Graph<Member>)
    returns (circular: bool)
    requires ValidGroup(group) && forall name | name in byName :: byName[name] in group
    requires forall m | m in group :: m in images && m.dependencies == {}
    requires forall m | m in images :: m in group
    requires Closed(refs) && refs.Keys == group && forall m | m in group :: refs[m] == BaseIn(byName, m)
    modifies group
    ensures ValidGroup(group) && (circular <==> !Acyclic<Member>(refs))
    ensures !circular ==> Deps(group) == refs
    ensures forall m | m in group :: m.dependencies <= refs[m]
  {
    circular := false;
    ghost var done: set<Member> := {};
    for i := 0 to |images|
      invariant ValidGroup(group)
      invariant forall m | m in group :: m.dependencies <= refs[m]
      invariant circular ==> !Acyclic<Member>(refs)
      invariant forall j | 0 <= j < i :: images[j] in done
      invariant !circular ==> forall m | m in done && m in group :: m.dependencies == refs[m]
    {
      var raised := AddBase(images[i], byName, group, refs);
      circular := circular || raised;
      done := done + {images[i]};
    }
    if !circular {
      assert forall m | m in group :: m in done;
      assert Deps(group) == refs;
    }
  }

  /** One turn of the loop over the images. */
  method AddBase(image: Member, byName: map<string, Member>, ghost group: set<Member>, ghost refs: Graph<Member>)
    returns (raised: bool)
    requires ValidGroup(group) && image in group && forall name | name in byName :: byName[name] in group
    requires Closed(refs) && refs.Keys == group && refs[image] == BaseIn(byName, image)
    requires forall m | m in group :: m.dependencies <= refs[m]
    modifies image`dependencies, group`dependents
    ensures ValidGroup(group)
    ensures raised ==> !Acyclic<Member>(refs) && image.dependencies == old(image.dependencies)
    ensures !raised ==> image.dependencies == refs[image]
    ensures !raised && !image.ims.isRecipe && image.ims.ByName? && image.ims.name in byName ==>
              image.dependencies == {byName[image.ims.name]}
    ensures image.ims.isRecipe || image.ims.ById? || image.ims.name !in byName ==>
              !raised && image.dependencies == {}
    ensures forall m | m in group :: m.dependencies <= refs[m]
  {
    raised := false;
    if image.ims.isRecipe || image.ims.ById? {
      return;
    }
    if image.ims.name in byName {
      var base := byName[image.ims.name];
      ghost var g := Deps(group);
      AddEdgeAcyclic<Member>(g, image, base);
      var r := image.AddDependency(base, group);
      raised := r.CycleError?;
      if raised && Acyclic<Member>(refs) {
        SubgraphAcyclic<Member>(AddEdge(g, image, base), refs);
      }
      assert Deps(group)[image] == image.dependencies;
    }
  }

  lemma EdgelessGroup(group: set<Member>)
    requires forall m | m in group :: m.dependencies == {} == m.dependents
    ensures ValidGroup(group)
  {
    var g := Deps(group);
    forall n | n in g ensures n !in FullDeps(g, n) {
      FullDepsLeast(g, n, {});
    }
  }

  // ----- creation -----

  /** The images left when those named in `skipped` are not to be created again. */
  function ToCreate(images: seq<Member>, skipped: set<string>): (r: seq<Member>)
    ensures forall m | m in r :: m in images && m.name !in skipped
    ensures forall m | m in images && m.name !in skipped :: m in r
  {
    if images == [] then []
    else ToCreate(images[..|images| - 1], skipped)
         + if images[|images| - 1].name in skipped then [] else [images[|images| - 1]]
  }

  /** An image that is not skipped is kept as often as it was given. */
  lemma {:induction false} ToCreateKeeps(images: seq<Member>, skipped: set<string>, m: Member)
    ensures multiset(ToCreate(images, skipped))[m] == if m.name in skipped then 0 else multiset(images)[m]
  {
    if images == [] {
    } else {
      ToCreateKeeps(images[..|images| - 1], skipped, m);
      assert images == images[..|images| - 1] + [images[|images| - 1]];
    }
  }

  /** A run on `g` that has come to its end, with everything the waiter should guarantee:
      each image begun at most once and only after all it is built from; each image created,
      failed, or never begun because one it is built from failed; and a bound on the polls. */
  ghost predicate Finished(g: Graph<Member>, run: seq<Step<Member>>, k: nat) {
    && Closed(g) && Acyclic<Member>(g) && ValidRun<Member>(g, run)
    && var s := Exec<Member>(g, run);
    && s.phase.Head? && s.pending == {}
    && OrderSafe<Member>(g, s) && BegunAtMostOnce(s)
    && (forall m | m in g :: Settled<Member>(g, s, m))
    && s.rounds <= k * LongestChain<Member>(g)
  }

  lemma RunFinishes(g: Graph<Member>, run: seq<Step<Member>>, k: nat)
    requires Closed(g) && Acyclic<Member>(g) && AtMostOneDependency(g)
    requires ValidRun<Member>(g, run) && Patient<Member>(g, run, k)
    requires Exec<Member>(g, run).phase.Head? && Exec<Member>(g, run).pending == {}
    ensures Finished(g, run, k)
    ensures Exec<Member>(g, run).failed == {} <==> Exec<Member>(g, run).succeeded == g.Keys
  {
    SingleSiblingsAgree<Member>(g);
    RunSettles<Member>(g, run);
    RunKeepsInv<Member>(g, run);
    InvOrderSafe<Member>(g, Exec<Member>(g, run));
    RunKeepsOnce<Member>(g, run);
    RoundsBounded<Member>(g, run, k);
  }

  /** The waiter's part of `create_images`, with no timeout. */
  method RunWaiter(images: seq<Member>, clock: Clock, answer: (Member, nat) -> Answer,
                   beginRaises: (Member, nat) -> bool, ghost k: nat)
    returns (failed: set<Member>, ghost run: seq<Step<Member>>, ghost attempt: seq<Event>)
    requires ValidGroup(Group(images)) && AtMostOneDependency<Member>(Deps(Group(images)))
    requires AllAnswerWithin(Group(images), answer, k)
    modifies clock
    ensures var g := Deps(Group(images));
            && Finished(g, run, k)
            && Driven<Member>(g, run, answer, beginRaises)
            && Explained<Member>(Exec<Member>(g, run), answer, beginRaises)
            && failed == Exec<Member>(g, run).failed
            && (failed == {} <==> Exec<Member>(g, run).succeeded == g.Keys)
            && |attempt| == 2 * Exec<Member>(g, run).rounds + 1
    ensures clock.events == old(clock.events) + attempt && AttemptLog(attempt, None, 10, true)
  {
    hide ValidRun, Exec, Driven, Explained, Finished, Patient, OrderSafe, BegunAtMostOnce;
    var members := set m | m in images;
    var waiter := new DependencyGroupWaiter(members, None, 10, 0, clock, answer, beginRaises);
    ghost var attempts;
    var pending;
    pending, attempts := waiter.WaitForCompletion(k);
    run := waiter.run;
    waiter.Recorded(k);
    RunFinishes(waiter.graph, run, k);
    failed := waiter.failed;
    attempt := attempts[0];
    ConcatOne(attempt);
    assert attempts == [attempt];
  }

  /** `create_images` from the check of the names on. */
  method CreateImages(images: seq<Member>, skipped: set<string>, clock: Clock,
                      answer: (Member, nat) -> Answer, beginRaises: (Member, nat) -> bool, ghost k: nat)
    returns (r: CreateResult, ghost run: seq<Step<Member>>)
    requires forall m | m in images :: m.dependencies == {} == m.dependents
    requires AllAnswerWithin(Group(images), answer, k)
    modifies Group(images), clock
    ensures r.NamesNotUnique? <==> !UniqueNames(images)
    ensures r.NamesNotUnique? || r.CircularDependencies? ==> run == [] && clock.events == old(clock.events)
    ensures var g := References(ToCreate(images, skipped));
            Closed(g) && (r.CircularDependencies? <==> UniqueNames(images) && !Acyclic<Member>(g))
    ensures r.Created? || r.CreationFailed? ==>
              var g := References(ToCreate(images, skipped));
              && Finished(g, run, k)
              && Driven<Member>(g, run, answer, beginRaises)
              && Explained<Member>(Exec<Member>(g, run), answer, beginRaises)
              && (r.Created? <==> Exec<Member>(g, run).succeeded == g.Keys)
              && (r.CreationFailed? ==> r.count == |Exec<Member>(g, run).failed| > 0)
  {
    hide Exec, Driven, Explained, Finished, ToCreate;
    run := [];
    var toCreate := ToCreate(images, skipped);
    ReferencesShape(toCreate);
    var unique := ValidateUniqueImageNames(images);
    if !unique {
      return NamesNotUnique, [];
    }
    var circular := FindImageDependencies(toCreate);
    if circular {
      return CircularDependencies, [];
    }
    var failed: set<Member>;
    ghost var attempt;
    failed, run, attempt := RunWaiter(toCreate, clock, answer, beginRaises, k);
    if failed != {} {
      r := CreationFailed(|failed|);
    } else {
      r := Created;
    }
  }
}
