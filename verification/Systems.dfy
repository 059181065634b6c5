/** The links between nodes, the components inside them and their chassis
    (sat/system/system.py:100-158). Dictionaries keyed by XNames are keyed by tokens; those
    of the component types inside a node are one dictionary keyed by type and tokens. */
module Systems {
  import opened Options
  import opened XNames
  import opened XNameOrder
  import opened ParentNodes

  type ChildKey = (nat, Tokens)

  class Chassis {
    const xname: string
    var nodes: map<Tokens, Node>

    constructor (xname: string)
      ensures this.xname == xname && nodes == map[]
    {
      this.xname := xname;
      nodes := map[];
    }
  }

  class Node {
    const xname: string
    var chassis: Chassis?
    var children: map<ChildKey, NodeComponent>

    constructor (xname: string)
      ensures this.xname == xname && chassis == null && children == map[]
    {
      this.xname := xname;
      chassis := null;
      children := map[];
    }
  }

  class NodeComponent {
    const t: nat
    const xname: string
    var node: Node?

    constructor (t: nat, xname: string)
      ensures this.t == t && this.xname == xname && node == null
    {
      this.t := t;
      this.xname := xname;
      node := null;
    }
  }

  /** The key of the node a component lies in. */
  function Home(xname: string): Option<Tokens> {
    match ParentNode(xname)
    case None => None
    case Some(p) => Some(Tokenize(p))
  }

  /** The key of the chassis looked up for a node: its first four tokens, by way of a name. */
  function ChassisKey(xname: string): Tokens {
    var toks := Tokenize(xname);
    Tokenize(Print(if |toks| < 4 then toks else toks[..4]))
  }

  lemma ChassisKeyIs(xname: string)
    ensures ChassisKey(xname) == if |Tokenize(xname)| < 4 then Tokenize(xname) else Tokenize(xname)[..4]
  {
    hide Tokenize, Print;
    TokenCountEven(xname);
    var toks := Tokenize(xname);
    PrefixRoundTrip(xname, if |toks| < 4 then |toks| else 4);
    assert toks[..|toks|] == toks;
  }

  ghost function ComponentKeys(ids: seq<(nat, string)>): set<ChildKey> {
    set id | id in ids :: (id.0, Tokenize(id.1))
  }

  lemma ComponentKeysOneMore(ids: seq<(nat, string)>, id: (nat, string))
    ensures ComponentKeys(ids + [id]) == ComponentKeys(ids) + {(id.0, Tokenize(id.1))}
  {
    hide Tokenize;
  }

  /** The name of a key given last. */
  ghost function LastNamed(ids: seq<string>, k: Tokens): string {
    if ids == [] then ""
    else if Tokenize(ids[|ids| - 1]) == k then ids[|ids| - 1]
    else LastNamed(ids[..|ids| - 1], k)
  }

  ghost function LastComponentNamed(ids: seq<(nat, string)>, k: ChildKey): string {
    if ids == [] then ""
    else if IsKeyOf(k, ids[|ids| - 1]) then ids[|ids| - 1].1
    else LastComponentNamed(ids[..|ids| - 1], k)
  }

  /** And the one given first. */
  ghost function FirstComponentNamed(ids: seq<(nat, string)>, k: ChildKey): string {
    if ids == [] then ""
    else if IsKeyOf(k, ids[0]) then ids[0].1
    else FirstComponentNamed(ids[1..], k)
  }

  predicate IsKeyOf(k: ChildKey, id: (nat, string)) {
    id.0 == k.0 && Tokenize(id.1) == k.1
  }

  lemma {:induction false} LastNamedIs(ids: seq<string>, i: nat)
    requires i < |ids| && forall j | i < j < |ids| :: Tokenize(ids[j]) != Tokenize(ids[i])
    ensures LastNamed(ids, Tokenize(ids[i])) == ids[i]
  {
    hide Tokenize;
    if i == |ids| - 1 {
    } else {
      LastNamedIs(ids[..|ids| - 1], i);
    }
  }

  lemma {:induction false} LastComponentNamedIs(ids: seq<(nat, string)>, i: nat, k: ChildKey)
    requires i < |ids| && IsKeyOf(k, ids[i]) && forall j | i < j < |ids| :: !IsKeyOf(k, ids[j])
    ensures LastComponentNamed(ids, k) == ids[i].1
  {
    hide IsKeyOf;
    if i == |ids| - 1 {
    } else {
      LastComponentNamedIs(ids[..|ids| - 1], i, k);
    }
  }

  lemma {:induction false} FirstComponentNamedIs(ids: seq<(nat, string)>, i: nat, k: ChildKey)
    requires i < |ids| && IsKeyOf(k, ids[i]) && forall j | 0 <= j < i :: !IsKeyOf(k, ids[j])
    ensures FirstComponentNamed(ids, k) == ids[i].1
  {
    hide IsKeyOf;
    if i == 0 {
    } else {
      FirstComponentNamedIs(ids[1..], i - 1, k);
    }
  }

  lemma LastNamedOneMore(ids: seq<string>, i: nat, k: Tokens)
    requires i < |ids|
    ensures LastNamed(ids[..i + 1], k) == if Tokenize(ids[i]) == k then ids[i] else LastNamed(ids[..i], k)
  {
    hide Tokenize;
    var s := ids[..i + 1];
    assert s[..|s| - 1] == ids[..i] && s[|s| - 1] == ids[i];
  }

  lemma LastOneMore(ids: seq<(nat, string)>, id: (nat, string), k: ChildKey)
    ensures LastComponentNamed(ids + [id], k) == if IsKeyOf(k, id) then id.1 else LastComponentNamed(ids, k)
  {
    hide IsKeyOf;
    assert (ids + [id])[..|ids|] == ids;
  }

  lemma {:induction false} FirstOneMore(ids: seq<(nat, string)>, id: (nat, string), k: ChildKey)
    ensures FirstComponentNamed(ids + [id], k)
         == if IsKeyOf(k, id) && k !in ComponentKeys(ids) then id.1 else FirstComponentNamed(ids, k)
  {
    hide Tokenize;
    if ids == [] {
    } else {
      FirstOneMore(ids[1..], id, k);
      assert (ids + [id])[1..] == ids[1..] + [id];
      assert ids == [ids[0]] + ids[1..];
      assert k in ComponentKeys(ids) <==> IsKeyOf(k, ids[0]) || k in ComponentKeys(ids[1..]);
    }
  }

  lemma NoTokens()
    ensures forall ids: seq<string> :: TokensOf(ids[..0]) == {}
  {
  }

  lemma NoComponents()
    ensures forall ids: seq<(nat, string)> :: ComponentKeys(ids[..0]) == {}
  {
  }

  lemma ValuesOfUpdate<K, V>(m: map<K, V>, k: K, v: V)
    ensures m[k := v].Values <= m.Values + {v}
  {
  }

  class System {
    var nodes: map<Tokens, Node>
    var chassis: map<Tokens, Chassis>
    var components: map<ChildKey, NodeComponent>
    /** The XName that is the key of each entry of `components`. A dictionary keeps the key
        it was given first, even where a later component replaces the value. */
    var childXNames: map<ChildKey, string>

    constructor ()
      ensures nodes == map[] && chassis == map[] && components == map[] && childXNames == map[]
    {
      nodes, chassis, components, childXNames := map[], map[], map[], map[];
    }

    /** Each object is stored under its own name. */
    ghost predicate Indexed()
      reads this
    {
      && (forall k | k in nodes :: Tokenize(nodes[k].xname) == k)
      && (forall k | k in chassis :: Tokenize(chassis[k].xname) == k)
      && (forall k | k in components :: components[k].t == k.0 && Tokenize(components[k].xname) == k.1)
      && (forall k | k in components :: k in childXNames && Tokenize(childXNames[k]) == k.1)
    }

    /** The components in `done` and the nodes know of each other. */
    ghost predicate ChildrenLinked(done: set<ChildKey>)
      reads this, nodes.Values`children, components.Values`node
    {
      && (forall k | k in components :: components[k].node ==
            if k in done && InNode(k) then nodes[Home(childXNames[k]).value] else null)
      && (forall n | n in nodes :: nodes[n].children == ChildrenOf(n, done))
    }

    ghost function ChildrenOf(n: Tokens, done: set<ChildKey>): map<ChildKey, NodeComponent>
      reads this`components, this`childXNames
    {
      map k | k in done && k in components && k in childXNames && Home(childXNames[k]) == Some(n) :: components[k]
    }

    lemma OneMoreChild(n: Tokens, done: set<ChildKey>, k: ChildKey)
      requires k in components && k in childXNames
      ensures ChildrenOf(n, done + {k}) ==
              if Home(childXNames[k]) == Some(n) then ChildrenOf(n, done)[k := components[k]] else ChildrenOf(n, done)
    {
      hide Home;
    }

    /** The nodes in `done` and the chassis know of each other. */
    ghost predicate ParentsLinked(done: set<Tokens>)
      reads this, nodes.Values`chassis, chassis.Values`nodes
    {
      && (forall n | n in nodes :: nodes[n].chassis ==
            if n in done && ChassisKey(nodes[n].xname) in chassis then chassis[ChassisKey(nodes[n].xname)] else null)
      && (forall c | c in chassis :: chassis[c].nodes == NodesOf(c, done))
    }

    ghost function NodesOf(c: Tokens, done: set<Tokens>): map<Tokens, Node>
      reads this`nodes
    {
      map n | n in done && n in nodes && ChassisKey(nodes[n].xname) == c :: nodes[n]
    }

    lemma OneMoreNode(c: Tokens, done: set<Tokens>, n: Tokens)
      requires n in nodes
      ensures NodesOf(c, done + {n}) ==
              if ChassisKey(nodes[n].xname) == c then NodesOf(c, done)[n := nodes[n]] else NodesOf(c, done)
    {
      hide ChassisKey;
    }

    /** The node a component lies in is known. */
    ghost predicate InNode(k: ChildKey)
      reads this
    {
      k in childXNames && Home(childXNames[k]).Some? && Home(childXNames[k]).value in nodes
    }

    /** `parse_raw_data` for nodes: a later one takes the place of an earlier one of the same name. */
    method ParseNodes(ids: seq<string>)
      requires nodes == map[]
      modifies this`nodes
      ensures nodes.Keys == TokensOf(ids) && fresh(nodes.Values)
      ensures forall k | k in nodes ::
                Tokenize(nodes[k].xname) == k && nodes[k].chassis == null && nodes[k].children == map[]
      ensures forall k | k in nodes :: nodes[k].xname == LastNamed(ids, k)
    {
      hide Tokenize, TokensOf, LastNamed;
      NoTokens();
      for i := 0 to |ids|
        invariant nodes.Keys == TokensOf(ids[..i]) && fresh(nodes.Values)
        invariant forall k | k in nodes ::
                    Tokenize(nodes[k].xname) == k && nodes[k].chassis == null && nodes[k].children == map[]
        invariant forall k | k in nodes :: nodes[k].xname == LastNamed(ids[..i], k)
      {
        TokensOfOneMore(ids, i);
        var node := new Node(ids[i]);
        ValuesOfUpdate(nodes, Tokenize(ids[i]), node);
        nodes := nodes[Tokenize(ids[i]) := node];
        forall k | k in nodes ensures nodes[k].xname == LastNamed(ids[..i + 1], k) {
          LastNamedOneMore(ids, i, k);
        }
      }
      assert ids[..|ids|] == ids;
    }

    method ParseChassis(ids: seq<string>)
      requires chassis == map[]
      modifies this`chassis
      ensures chassis.Keys == TokensOf(ids) && fresh(chassis.Values)
      ensures forall k | k in chassis :: Tokenize(chassis[k].xname) == k && chassis[k].nodes == map[]
      ensures forall k | k in chassis :: chassis[k].xname == LastNamed(ids, k)
    {
      hide Tokenize, TokensOf, LastNamed;
      NoTokens();
      for i := 0 to |ids|
        invariant chassis.Keys == TokensOf(ids[..i]) && fresh(chassis.Values)
        invariant forall k | k in chassis :: Tokenize(chassis[k].xname) == k && chassis[k].nodes == map[]
        invariant forall k | k in chassis :: chassis[k].xname == LastNamed(ids[..i], k)
      {
        TokensOfOneMore(ids, i);
        var c := new Chassis(ids[i]);
        ValuesOfUpdate(chassis, Tokenize(ids[i]), c);
        chassis := chassis[Tokenize(ids[i]) := c];
        forall k | k in chassis ensures chassis[k].xname == LastNamed(ids[..i + 1], k) {
          LastNamedOneMore(ids, i, k);
        }
      }
      assert ids[..|ids|] == ids;
    }

    method ParseComponents(ids: seq<(nat, string)>)
      requires components == map[] && childXNames == map[]
      modifies this`components, this`childXNames
      ensures components.Keys == childXNames.Keys == ComponentKeys(ids) && fresh(components.Values)
      ensures forall k | k in components :: Stored(k) && NamedBy(ids, k)
    {
      hide Tokenize, ComponentKeys, NamedBy, Stored;
      NoComponents();
      for i := 0 to |ids|
        invariant components.Keys == childXNames.Keys == ComponentKeys(ids[..i]) && fresh(components.Values)
        invariant forall k | k in components :: Stored(k) && NamedBy(ids[..i], k)
      {
        assert ids[..i + 1] == ids[..i] + [ids[i]];
        StoreComponent(ids[i], ids[..i]);
      }
      assert ids[..|ids|] == ids;
    }

    /** One turn of the loop over the components, after those in `before`. */
    method StoreComponent(id: (nat, string), ghost before: seq<(nat, string)>)
      requires components.Keys == childXNames.Keys == ComponentKeys(before)
      requires forall k | k in components :: Stored(k) && NamedBy(before, k)
      modifies this`components, this`childXNames
      ensures components.Keys == childXNames.Keys == ComponentKeys(before + [id])
      ensures forall k | k in components :: Stored(k) && NamedBy(before + [id], k)
      ensures fresh(components.Values - old(components.Values))
    {
      hide Tokenize, ComponentKeys, LastComponentNamed, FirstComponentNamed;
      ComponentKeysOneMore(before, id);
      var key := (id.0, Tokenize(id.1));
      var component := new NodeComponent(id.0, id.1);
      ValuesOfUpdate(components, key, component);
      if key !in components {
        childXNames := childXNames[key := id.1];
      }
      components := components[key := component];
      forall k | k in components ensures Stored(k) && NamedBy(before + [id], k) {
        LastOneMore(before, id, k);
        FirstOneMore(before, id, k);
      }
    }

    /** An unlinked component under its own key. */
    ghost predicate Stored(k: ChildKey)
      reads this`components, this`childXNames, components.Values
    {
      && k in components && k in childXNames
      && components[k].t == k.0 && components[k].node == null
      && Tokenize(components[k].xname) == k.1 && Tokenize(childXNames[k]) == k.1
    }

    /** The component is the last one of its key, the key the first one. */
    ghost predicate NamedBy(ids: seq<(nat, string)>, k: ChildKey)
      reads this`components, this`childXNames
      requires k in components && k in childXNames
    {
      components[k].xname == LastComponentNamed(ids, k) && childXNames[k] == FirstComponentNamed(ids, k)
    }

    /** `parse_all` of the names of the nodes, of the chassis, and of the node components
        with their types. */
    method ParseAll(nodeIds: seq<string>, chassisIds: seq<string>, componentIds: seq<(nat, string)>)
      requires nodes == map[] && chassis == map[] && components == map[] && childXNames == map[]
      modifies this
      ensures Linked()
      ensures nodes.Keys == TokensOf(nodeIds) && chassis.Keys == TokensOf(chassisIds)
      ensures components.Keys == ComponentKeys(componentIds)
      ensures forall k | k in nodes :: nodes[k].xname == LastNamed(nodeIds, k)
      ensures forall k | k in chassis :: chassis[k].xname == LastNamed(chassisIds, k)
      ensures forall k | k in components :: k in childXNames && NamedBy(componentIds, k)
    {
      hide Tokenize, TokensOf, ComponentKeys, LastNamed, LastComponentNamed, FirstComponentNamed;
      hide Home, ChassisKey;
      ParseNodes(nodeIds);
      ParseChassis(chassisIds);
      ParseComponents(componentIds);
      assert ChildrenLinked({}) && ParentsLinked({});
      RelateNodeChildren();
      RelateNodeParents();
    }

    ghost predicate Linked()
      reads this, nodes.Values, chassis.Values, components.Values
    {
      Indexed() && ChildrenLinked(components.Keys) && ParentsLinked(nodes.Keys)
    }

    /** A component points to a node exactly when the node lists it; then the node is the one
        named by the component's first ten tokens, and contains it. */
    lemma ChildLinksAreInverse(k: ChildKey, n: Tokens)
      requires Linked() && k in components && n in nodes
      ensures components[k].node == nodes[n] <==>
              k in nodes[n].children && nodes[n].children[k] == components[k]
      ensures components[k].node == nodes[n] ==>
              |k.1| >= 10 && n == k.1[..10] && Contains(nodes[n].xname, components[k].xname)
    {
      hide Tokenize, ParentNode, Contains;
      ParentNodeIs(childXNames[k]);
      ContainsIsPrefix(nodes[n].xname, components[k].xname);
    }

    /** A component is linked to a node exactly when the name it is listed under begins with
        the fields of a node and its first ten tokens name a known one. */
    lemma LinkedIffNodeKnown(k: ChildKey)
      requires Linked() && k in components
      ensures components[k].node != null <==>
              HasRawFields(SplitDigits(childXNames[k]), NODE_LETTERS) && |k.1| >= 10 && k.1[..10] in nodes
    {
      hide Tokenize, SplitDigits, ParentNode, HasRawFields;
      ParentNodeIs(childXNames[k]);
    }

    /** A node points to a chassis exactly when the chassis lists it, and to a chassis of four
        tokens exactly when it lies in that chassis. */
    lemma ChassisLinksAreInverse(n: Tokens, c: Tokens)
      requires Linked() && n in nodes && c in chassis
      ensures nodes[n].chassis == chassis[c] <==>
              n in chassis[c].nodes && chassis[c].nodes[n] == nodes[n]
      ensures nodes[n].chassis == chassis[c] <==> c == if |n| < 4 then n else n[..4]
      ensures nodes[n].chassis != null <==> (if |n| < 4 then n else n[..4]) in chassis
      ensures |c| == 4 ==> (nodes[n].chassis == chassis[c] <==> Contains(chassis[c].xname, nodes[n].xname))
    {
      hide Tokenize, ChassisKey, Contains;
      ChassisKeyIs(nodes[n].xname);
      ContainsIsPrefix(chassis[c].xname, nodes[n].xname);
    }

    method RelateNodeChildren()
      requires Indexed() && ChildrenLinked({})
      modifies nodes.Values`children, components.Values`node
      ensures ChildrenLinked(components.Keys)
    {
      hide ChildrenLinked, Indexed;
      var todo := components.Keys;
      ghost var done: set<ChildKey> := {};
      while todo != {}
        invariant todo <= components.Keys && done == components.Keys - todo && ChildrenLinked(done)
      {
        var k :| k in todo;
        todo := todo - {k};
        LinkChild(k, done);
        done := done + {k};
      }
      assert done == components.Keys;
    }

    method LinkChild(k: ChildKey, ghost done: set<ChildKey>)
      requires Indexed() && ChildrenLinked(done) && k in components && k !in done
      modifies nodes.Values`children, components.Values`node
      ensures ChildrenLinked(done + {k})
    {
      hide Tokenize, ParentNode, Home, ChildrenOf;
      var child := components[k];
      forall n | n in nodes { OneMoreChild(n, done, k); }
      match Home(childXNames[k])
      case None =>
      case Some(home) =>
        if home in nodes {
          var node := nodes[home];
          node.children := node.children[(child.t, Tokenize(child.xname)) := child];
          child.node := node;
        }
    }

    method RelateNodeParents()
      requires Indexed() && ParentsLinked({})
      modifies nodes.Values`chassis, chassis.Values`nodes
      ensures ParentsLinked(nodes.Keys)
    {
      hide ParentsLinked, Indexed;
      var todo := nodes.Keys;
      ghost var done: set<Tokens> := {};
      while todo != {}
        invariant todo <= nodes.Keys && done == nodes.Keys - todo && ParentsLinked(done)
      {
        var n :| n in todo;
        todo := todo - {n};
        LinkParent(n, done);
        done := done + {n};
      }
      assert done == nodes.Keys;
    }

    method LinkParent(n: Tokens, ghost done: set<Tokens>)
      requires Indexed() && ParentsLinked(done) && n in nodes && n !in done
      modifies nodes.Values`chassis, chassis.Values`nodes
      ensures ParentsLinked(done + {n})
    {
      hide Tokenize, Print, ChassisKey, NodesOf;
      var node := nodes[n];
      forall c | c in chassis { OneMoreNode(c, done, n); }
      var key := ChassisKey(node.xname);
      if key in chassis {
        node.chassis := chassis[key];
        chassis[key].nodes := chassis[key].nodes[Tokenize(node.xname) := node];
      }
    }
  }
}
