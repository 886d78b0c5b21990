/** The example history of the unit tests: `test`, `foo/test`, `test` and
    `foo/bar` published in that order, and what the queries answer on it. */
module Example {

  import opened Wrappers
  import opened Strings
  import opened TopicTree
  import opened Subtree
  import opened Queries
  import opened TreeItems
  import opened History

  const A := HistoryEntry(1, Text("A"))
  const B := HistoryEntry(2, Text("B"))
  const C := HistoryEntry(3, Text("C"))
  const D := HistoryEntry(4, Text("D"))

  /** The arena the four messages build: `foo` was inserted before `test`
      below the root, and `bar` before `test` below `foo`. */
  function ExampleNodes(): seq<Node>
  {
    [ Node("", [], 0, [2, 1]),
      Node("test", [A, C], 0, []),
      Node("foo", [], 0, [4, 3]),
      Node("test", [B], 2, []),
      Node("bar", [D], 2, []) ]
  }

  function ExampleIds(): map<string, nat>
  {
    map["test" := 1, "foo/test" := 3, "foo/bar" := 4]
  }

  /** The arena after `test` (A). */
  function AfterFirst(): seq<Node>
  {
    [ Node("", [], 0, [1]),
      Node("test", [A], 0, []) ]
  }

  /** The arena after `foo/test` (B): `foo` sorts before `test`. */
  function AfterSecond(): seq<Node>
  {
    [ Node("", [], 0, [2, 1]),
      Node("test", [A], 0, []),
      Node("foo", [], 0, [3]),
      Node("test", [B], 2, []) ]
  }

  /** The arena after `test` again (C): nothing is created. */
  function AfterThird(): seq<Node>
  {
    AfterSecond()[1 := Node("test", [A, C], 0, [])]
  }

  /** A walk over one segment is one step; over two, a step and then the
      walk over the second. */
  lemma IngestedShort(ns: seq<Node>, x: nat, a: string, b: string)
    requires x < |ns|
    ensures Ingested(ns, x, [a]) == Step(ns, x, a)
    ensures var r := Step(ns, x, a); Ingested(ns, x, [a, b]) == Ingested(r.0, r.1, [b])
  {
    assert [a, b][1..] == [b];
  }

  /** `add` on a topic whose walk ends at node `id` of `ns1`. */
  lemma AddedAt(ns: seq<Node>, topic: string, entry: HistoryEntry, ns1: seq<Node>, id: nat)
    requires Ingested(ns, Root, Split(topic)).0 == ns1 && Ingested(ns, Root, Split(topic)).1 == id
    requires id < |ns1|
    ensures Added(ns, topic, entry) == ns1[id := ns1[id].(history := ns1[id].history + [entry])]
  {
  }

  /** Under a node without children, a step appends the first one. */
  lemma StepFirstChild(ns: seq<Node>, p: nat, part: string)
    requires p < |ns| && ns[p].children == []
    ensures Step(ns, p, part).0 == ns[p := ns[p].(children := [|ns|])] + [Node(part, [], p, [])]
    ensures Step(ns, p, part).1 == |ns|
  {
    var cs := ns[p].children;
    assert LeavesOf(ns, cs) == [];
    assert cs[..0] + [|ns|] + cs[0..] == [|ns|];
  }

  /** A step for a leaf sorting before every child inserts in front. */
  lemma StepInFront(ns: seq<Node>, p: nat, part: string)
    requires p < |ns| && |ns[p].children| > 0 && ns[p].children[0] < |ns|
    requires Below(part, ns[ns[p].children[0]].leaf)
    ensures Step(ns, p, part).0 == ns[p := ns[p].(children := [|ns|] + ns[p].children)] + [Node(part, [], p, [])]
    ensures Step(ns, p, part).1 == |ns|
  {
    var cs := ns[p].children;
    var ls := LeavesOf(ns, cs);
    BelowAsymmetric(part, ls[0]);
    BelowIrreflexive(part);
    FirstNotBelowIs(ls, part, 0);
    assert cs[..0] + [|ns|] + cs[0..] == [|ns|] + cs;
  }

  /** A step for the leaf of the `m`-th child, all earlier ones sorting
      below it, moves to that child. */
  lemma StepToChild(ns: seq<Node>, p: nat, part: string, m: nat)
    requires p < |ns| && m < |ns[p].children| && ns[p].children[m] < |ns|
    requires ns[ns[p].children[m]].leaf == part
    requires forall q :: 0 <= q < m ==> ns[p].children[q] < |ns| && Below(ns[ns[p].children[q]].leaf, part)
    ensures Step(ns, p, part).0 == ns && Step(ns, p, part).1 == ns[p].children[m]
  {
    var ls := LeavesOf(ns, ns[p].children);
    BelowIrreflexive(part);
    FirstNotBelowIs(ls, part, m);
  }

  /** The walk of the first message creates `test` under the root. */
  lemma WalkFirst(ns: seq<Node>, topic: string)
    requires ns == [Node("", [], Root, [])] && topic == "test"
    ensures Ingested(ns, Root, Split(topic)).0 == [Node("", [], 0, [1]), Node(topic, [], 0, [])]
    ensures Ingested(ns, Root, Split(topic)).1 == 1
  {
    SplitOne(topic);
    IngestedShort(ns, Root, topic, "");
    StepFirstChild(ns, Root, topic);
  }

  /** The first message creates `test` under the root. */
  lemma AddFirst(ns: seq<Node>, topic: string)
    requires ns == [Node("", [], Root, [])] && topic == "test"
    ensures Ingested(ns, Root, Split(topic)).1 == 1 && Added(ns, topic, A) == AfterFirst()
  {
    WalkFirst(ns, topic);
    var ns1 := [Node("", [], 0, [1]), Node(topic, [], 0, [])];
    AddedAt(ns, topic, A, ns1, 1);
    assert ns1[1].history + [A] == [A];
    assert ns1[1 := Node(topic, [A], 0, [])] == AfterFirst();
  }

  /** The arena while the second message is walked: `foo` created in front
      of `test`. */
  function FooCreated(): seq<Node>
  {
    [Node("", [], 0, [2, 1]), Node("test", [A], 0, []), Node("foo", [], 0, [])]
  }

  /** Its first segment, `foo`, sorts before `test` and is inserted in front. */
  lemma StepFoo(ns: seq<Node>, foo: string)
    requires ns == AfterFirst() && foo == "foo"
    ensures Step(ns, Root, foo).0 == FooCreated() && Step(ns, Root, foo).1 == 2
  {
    assert Below(foo, ns[1].leaf);
    StepInFront(ns, Root, foo);
    assert [|ns|] + ns[Root].children == [2, 1];
    assert ns[Root := Node("", [], 0, [2, 1])] + [Node(foo, [], Root, [])] == FooCreated();
  }

  /** Its second segment, `test`, becomes the first child of `foo`. */
  lemma StepFooTest(ns: seq<Node>, test: string)
    requires ns == FooCreated() && test == "test"
    ensures Step(ns, 2, test).0 == AfterSecond()[3 := Node(test, [], 2, [])]
    ensures Step(ns, 2, test).1 == 3
  {
    StepFirstChild(ns, 2, test);
  }

  /** The walk of the second message: `foo`, then `test` below it. */
  lemma WalkSecond(ns: seq<Node>, topic: string)
    requires ns == AfterFirst() && topic == "foo/test"
    ensures Ingested(ns, Root, Split(topic)).0 == AfterSecond()[3 := Node("test", [], 2, [])]
    ensures Ingested(ns, Root, Split(topic)).1 == 3
  {
    var foo, test := "foo", "test";
    SplitTwo(foo, test);
    assert topic == foo + "/" + test;
    IngestedShort(ns, Root, foo, test);
    StepFoo(ns, foo);
    IngestedShort(FooCreated(), 2, test, "");
    StepFooTest(FooCreated(), test);
  }

  /** The second creates `foo` in front of `test`, then `test` below it. */
  lemma AddSecond(ns: seq<Node>, topic: string)
    requires ns == AfterFirst() && topic == "foo/test"
    ensures Ingested(ns, Root, Split(topic)).1 == 3 && Added(ns, topic, B) == AfterSecond()
  {
    WalkSecond(ns, topic);
    var ns2 := AfterSecond()[3 := Node("test", [], 2, [])];
    AddedAt(ns, topic, B, ns2, 3);
    assert ns2[3].history + [B] == [B];
  }

  /** The walk of the third message finds `test`, after `foo`. */
  lemma WalkThird(ns: seq<Node>, topic: string)
    requires ns == AfterSecond() && topic == "test"
    ensures Ingested(ns, Root, Split(topic)).0 == ns && Ingested(ns, Root, Split(topic)).1 == 1
  {
    SplitOne(topic);
    IngestedShort(ns, Root, topic, "");
    assert Below(ns[2].leaf, topic);
    StepToChild(ns, Root, topic, 1);
  }

  /** The third finds `test` and appends to it. */
  lemma AddThird(ns: seq<Node>, topic: string)
    requires ns == AfterSecond() && topic == "test"
    ensures Ingested(ns, Root, Split(topic)).1 == 1 && Added(ns, topic, C) == AfterThird()
  {
    WalkThird(ns, topic);
    AddedAt(ns, topic, C, ns, 1);
    assert ns[1].history + [C] == [A, C];
  }

  /** The last segment of the fourth message, `bar`, sorts before `test` and
      is inserted in front of it below `foo`. */
  lemma StepBar(ns: seq<Node>, bar: string)
    requires ns == AfterThird() && bar == "bar"
    ensures Step(ns, 2, bar).0 == ExampleNodes()[4 := Node(bar, [], 2, [])]
    ensures Step(ns, 2, bar).1 == 4
  {
    assert Below(bar, ns[3].leaf);
    StepInFront(ns, 2, bar);
    assert [|ns|] + ns[2].children == [4, 3];
  }

  /** The first segment of the fourth message, `foo`, is found. */
  lemma StepFooFound(ns: seq<Node>, foo: string)
    requires ns == AfterThird() && foo == "foo"
    ensures Step(ns, Root, foo).0 == ns && Step(ns, Root, foo).1 == 2
  {
    StepToChild(ns, Root, foo, 0);
  }

  /** The walk of the fourth message: `foo` is found, `bar` created. */
  lemma WalkFourth(ns: seq<Node>, topic: string)
    requires ns == AfterThird() && topic == "foo/bar"
    ensures Ingested(ns, Root, Split(topic)).0 == ExampleNodes()[4 := Node("bar", [], 2, [])]
    ensures Ingested(ns, Root, Split(topic)).1 == 4
  {
    var foo, bar := "foo", "bar";
    SplitTwo(foo, bar);
    assert topic == foo + "/" + bar;
    IngestedShort(ns, Root, foo, bar);
    StepFooFound(ns, foo);
    IngestedShort(ns, 2, bar, "");
    StepBar(ns, bar);
  }

  /** The fourth finds `foo` and creates `bar` in front of its `test`. */
  lemma AddFourth(ns: seq<Node>, topic: string)
    requires ns == AfterThird() && topic == "foo/bar"
    ensures Ingested(ns, Root, Split(topic)).1 == 4 && Added(ns, topic, D) == ExampleNodes()
  {
    WalkFourth(ns, topic);
    var ns1 := ExampleNodes()[4 := Node("bar", [], 2, [])];
    AddedAt(ns, topic, D, ns1, 4);
    assert ns1[4].history + [D] == [D];
  }

  /** The example history is what `MqttHistory::new` followed by the four
      `add` calls builds. */
  method ExampleHistory() returns (h: MqttHistory)
    ensures h.Valid() && h.nodes == ExampleNodes() && h.ids == ExampleIds()
  {
    h := new MqttHistory();
    AddFirst(h.nodes, "test");
    h.Add("test", A);
    AddSecond(h.nodes, "foo/test");
    h.Add("foo/test", B);
    AddThird(h.nodes, "test");
    h.Add("test", C);
    AddFourth(h.nodes, "foo/bar");
    h.Add("foo/bar", D);
    ExampleIdsBuilt(map[], "test", "foo/test", "foo/bar");
  }

  /** The index the four messages build. */
  lemma ExampleIdsBuilt(m: map<string, nat>, test: string, fooTest: string, fooBar: string)
    requires m == map[] && test == "test" && fooTest == "foo/test" && fooBar == "foo/bar"
    ensures m[test := 1][fooTest := 3][test := 1][fooBar := 4] == ExampleIds()
  {
    var r := m[test := 1][fooTest := 3][test := 1][fooBar := 4];
    assert test != fooTest && test != fooBar && fooTest != fooBar by {
      assert test[0] != fooTest[0] && test[0] != fooBar[0] && fooTest[4] != fooBar[4];
    }
    assert r.Keys == ExampleIds().Keys;
  }

  /** An arena laid out as the example: what the lemmas below assume of it,
      node by node. */
  predicate ExampleShape(ns: seq<Node>)
  {
    && |ns| == 5
    && ns[0] == Node("", [], 0, [2, 1])
    && ns[1] == Node("test", [A, C], 0, [])
    && ns[2] == Node("foo", [], 0, [4, 3])
    && ns[3] == Node("test", [B], 2, [])
    && ns[4] == Node("bar", [D], 2, [])
  }

  /** The example arena has that layout. */
  lemma ExampleNodesShape()
    ensures ExampleShape(ExampleNodes())
  {
  }

  /** A topic of two segments splits into them. */
  lemma SplitTwo(a: string, b: string)
    requires '/' !in a && '/' !in b
    ensures Split(a + "/" + b) == [a, b]
  {
    SplitJoin([a, b]);
    assert Join([a, b]) == Join([a]) + "/" + b;
  }

  /** A topic without `/` is its only segment. */
  lemma SplitOne(a: string)
    requires '/' !in a
    ensures Split(a) == [a]
  {
    SplitJoin([a]);
  }

  /** The leaves below the root and below `foo`, in order. */
  lemma ExampleLeaves(ns: seq<Node>)
    requires ExampleShape(ns)
    ensures ns[Root].children == [2, 1] && ns[2].children == [4, 3]
    ensures LeavesOf(ns, [2, 1]) == ["foo", "test"]
    ensures LeavesOf(ns, [4, 3]) == ["bar", "test"]
    ensures LeavesOf(ns, []) == []
  {
    assert LeavesOf(ns, [2, 1])[0] == "foo" && LeavesOf(ns, [2, 1])[1] == "test";
    assert LeavesOf(ns, [4, 3])[0] == "bar" && LeavesOf(ns, [4, 3])[1] == "test";
  }

  /** The positions of the leaves below the root and below `foo`. */
  lemma ExamplePositions()
    ensures IndexOf(["foo", "test"], "foo") == Some(0)
    ensures IndexOf(["foo", "test"], "test") == Some(1)
    ensures IndexOf(["foo", "test"], "whatever") == None
    ensures IndexOf(["bar", "test"], "bar") == Some(0)
    ensures IndexOf(["bar", "test"], "test") == Some(1)
  {
    assert ["foo", "test"][1..] == ["test"] && ["bar", "test"][1..] == ["test"];
  }

  /** One step of `get_tree_identifier`: the position of the first
      segment, then the identifier of the rest below that child. */
  lemma IdentifierStep(ns: seq<Node>, x: nat, leaf: string, rest: seq<string>, k: nat, r: seq<nat>)
    requires x < |ns| && IndexOf(LeavesOf(ns, ns[x].children), leaf) == Some(k)
    requires TreeIdentifier(ns, ns[x].children[k], rest) == Some(r)
    ensures TreeIdentifier(ns, x, [leaf] + rest) == Some([k] + r)
  {
    TreeIdentifierStep(ns, x, [leaf] + rest);
    assert ([leaf] + rest)[0] == leaf && ([leaf] + rest)[1..] == rest;
  }

  /** `get_tree_identifier`: a missing topic has none. */
  lemma IdentifierMissing(ns: seq<Node>)
    requires ExampleShape(ns)
    ensures TreeIdentifier(ns, Root, Split("whatever")) == None
  {
    SplitOne("whatever");
    ExampleLeaves(ns);
    ExamplePositions();
    TreeIdentifierStep(ns, Root, ["whatever"]);
  }

  /** `get_tree_identifier("test")` is `[1]`. */
  lemma IdentifierTest(ns: seq<Node>)
    requires ExampleShape(ns)
    ensures TreeIdentifier(ns, Root, Split("test")) == Some([1])
  {
    SplitOne("test");
    IdentifierTestParts(ns);
  }

  lemma IdentifierTestParts(ns: seq<Node>)
    requires ExampleShape(ns)
    ensures TreeIdentifier(ns, Root, ["test"]) == Some([1])
  {
    ExampleLeaves(ns);
    ExamplePositions();
    IdentifierStep(ns, Root, "test", [], 1, []);
    assert ["test"] + [] == ["test"] && [1] + [] == [1];
  }

  /** `get_tree_identifier("foo/bar")` is `[0, 0]`. */
  lemma IdentifierFooBar(ns: seq<Node>)
    requires ExampleShape(ns)
    ensures TreeIdentifier(ns, Root, Split("foo/bar")) == Some([0, 0])
  {
    SplitTwo("foo", "bar");
    assert "foo" + "/" + "bar" == "foo/bar";
    IdentifierBelowFoo(ns, "bar", 0);
  }

  /** `get_tree_identifier("foo/test")` is `[0, 1]`. */
  lemma IdentifierFooTest(ns: seq<Node>)
    requires ExampleShape(ns)
    ensures TreeIdentifier(ns, Root, Split("foo/test")) == Some([0, 1])
  {
    SplitTwo("foo", "test");
    assert "foo" + "/" + "test" == "foo/test";
    IdentifierBelowFoo(ns, "test", 1);
  }

  /** The identifier of a child of `foo` is `foo`'s position followed by
      the child's. */
  lemma IdentifierBelowFoo(ns: seq<Node>, leaf: string, k: nat)
    requires ExampleShape(ns)
    requires (leaf == "bar" && k == 0) || (leaf == "test" && k == 1)
    ensures TreeIdentifier(ns, Root, ["foo", leaf]) == Some([0, k])
  {
    ExampleLeaves(ns);
    ExamplePositions();
    IdentifierStep(ns, 2, leaf, [], k, []);
    assert [leaf] + [] == [leaf] && [k] + [] == [k];
    IdentifierStep(ns, Root, "foo", [leaf], 0, [k]);
    assert ["foo"] + [leaf] == ["foo", leaf] && [0] + [k] == [0, k];
  }

  lemma ExampleNodeOk(ns: seq<Node>, i: nat)
    requires ExampleShape(ns) && i < |ns|
    ensures NodeOk(ns, i)
  {
    ExampleLeaves(ns);
    if i == 0 {
      assert Below("foo", "test");
      assert StrictlySorted(["foo", "test"]);
    } else if i == 2 {
      assert Below("bar", "test");
      assert StrictlySorted(["bar", "test"]);
    } else {
      assert ns[i].children == [];
    }
  }

  /** The example arena satisfies the tree invariant. */
  lemma ExampleWellFormed(ns: seq<Node>)
    requires ExampleShape(ns)
    ensures WellFormed(ns)
  {
    forall i | 0 <= i < |ns|
      ensures NodeOk(ns, i)
    {
      ExampleNodeOk(ns, i);
    }
  }

  /** The full topics of the example's nodes. */
  lemma ExampleTopics(ns: seq<Node>)
    requires ExampleShape(ns)
    ensures Topic(ns, 1) == "test" && Topic(ns, 2) == "foo"
    ensures Topic(ns, 3) == "foo/test" && Topic(ns, 4) == "foo/bar"
  {
    assert Path(ns, 1) == [] + ["test"];
    assert Path(ns, 2) == [] + ["foo"];
    assert Path(ns, 3) == Path(ns, 2) + ["test"] == ["foo", "test"];
    assert Path(ns, 4) == Path(ns, 2) + ["bar"] == ["foo", "bar"];
    assert Join(["foo", "test"]) == Join(["foo"]) + "/" + "test";
    assert Join(["foo", "bar"]) == Join(["foo"]) + "/" + "bar";
  }

  /** Each indexed topic walks to its node. */
  lemma ExampleWalk(ns: seq<Node>, j: nat)
    requires ExampleShape(ns) && 0 < j < 5
    ensures Walk(ns, Root, Split(Topic(ns, j))) == Some(j)
  {
    ExampleWellFormed(ns);
    TopicSplit(ns, j);
    PathWalk(ns, j);
  }

  lemma ExampleIndexWalks(ns: seq<Node>)
    requires ExampleShape(ns)
    ensures IndexWalks(ns, ExampleIds())
  {
    var ids := ExampleIds();
    ExampleTopics(ns);
    assert ids.Keys == {"test", "foo/test", "foo/bar"};
    assert ids["test"] == 1 && ids["foo/test"] == 3 && ids["foo/bar"] == 4;
    ExampleWalk(ns, 1);
    ExampleWalk(ns, 3);
    ExampleWalk(ns, 4);
  }

  lemma ExampleHistoriesIndexed(ns: seq<Node>)
    requires ExampleShape(ns)
    ensures forall j :: 0 < j && HasHistory(ns, j) ==> Topic(ns, j) in ExampleIds()
  {
    ExampleTopics(ns);
    forall j | 0 < j && HasHistory(ns, j)
      ensures Topic(ns, j) in ExampleIds()
    {
      assert j == 1 || j == 3 || j == 4;
    }
  }

  /** The example arena and index are a valid history. */
  lemma ExampleConsistent(ns: seq<Node>)
    requires ExampleShape(ns)
    ensures Consistent(ns, ExampleIds())
  {
    ExampleWellFormed(ns);
    ExampleIndexWalks(ns);
    ExampleHistoriesIndexed(ns);
    ExampleIndexedHaveHistory(ns);
  }

  lemma ExampleIndexedHaveHistory(ns: seq<Node>)
    requires ExampleShape(ns)
    ensures forall t :: t in ExampleIds() ==> ExampleIds()[t] < |ns| && |ns[ExampleIds()[t]].history| > 0
  {
    assert ExampleIds().Keys == {"test", "foo/test", "foo/bar"};
  }

  /** The pre-order listings of the example: `foo`'s subtree first, as the
      children are sorted. */
  lemma ExamplePreOrder(ns: seq<Node>)
    requires ExampleShape(ns)
    ensures PreOrder(ns, 2) == [2, 4, 3]
    ensures PreOrder(ns, 1) == [1]
    ensures PreOrder(ns, Root) == [0, 2, 4, 3, 1]
  {
    assert PreOrder(ns, 4) == [4] && PreOrder(ns, 3) == [3] && PreOrder(ns, 1) == [1];
    assert PreOrderList(ns, 2, [3]) == [3];
    assert PreOrderList(ns, 2, [4, 3]) == [4, 3];
    assert PreOrderList(ns, 0, [1]) == [1];
    assert PreOrder(ns, 2) == [2, 4, 3];
    assert PreOrderList(ns, 0, [2, 1]) == [2, 4, 3, 1];
  }

  /** The subtrees of `foo` and `test`, with the nodes that have messages. */
  lemma ExampleSubtreesWithHistory(ns: seq<Node>)
    requires ExampleShape(ns)
    ensures WithHistory(ns, PreOrder(ns, 2)) == [4, 3]
    ensures WithHistory(ns, PreOrder(ns, 1)) == [1]
  {
    ExamplePreOrder(ns);
    assert WithHistory(ns, []) == [];
    assert WithHistory(ns, [1]) == [1] + [];
    assert WithHistory(ns, [3]) == [3] + [];
    assert [4, 3][1..] == [3];
    assert WithHistory(ns, [4, 3]) == [4] + [3];
    assert [2, 4, 3][1..] == [4, 3];
    assert WithHistory(ns, [2, 4, 3]) == [] + [4, 3];
  }

  /** `foo` and `test` walk to their nodes. */
  lemma ExampleWalkTop(ns: seq<Node>)
    requires ExampleShape(ns)
    ensures Walk(ns, Root, Split("foo")) == Some(2)
    ensures Walk(ns, Root, Split("test")) == Some(1)
  {
    ExampleTopics(ns);
    ExampleWalk(ns, 2);
    ExampleWalk(ns, 1);
  }

  /** `get_topics_below` on a topic of the example whose node is `j`. */
  lemma ExampleTopicsBelowAt(ns: seq<Node>, topic: string, j: nat)
    requires ExampleShape(ns) && (j == 1 || j == 2)
    requires Walk(ns, Root, Split(topic)) == Some(j)
    ensures TopicsBelow(ns, topic) == TopicsOf(ns, WithHistory(ns, PreOrder(ns, j)))
  {
    ExampleWellFormed(ns);
    TopicsBelowMeaning(ns, topic);
  }

  /** `get_topics_below("foo")` lists `foo/bar` and `foo/test`. */
  lemma ExampleTopicsBelowFoo(ns: seq<Node>)
    requires ExampleShape(ns)
    ensures TopicsBelow(ns, "foo") == ["foo/bar", "foo/test"]
  {
    ExampleWalkTop(ns);
    ExampleTopicsBelowAt(ns, "foo", 2);
    ExampleSubtreesWithHistory(ns);
    ExampleTopics(ns);
    var r := TopicsOf(ns, [4, 3]);
    assert r[0] == "foo/bar" && r[1] == "foo/test";
  }

  /** `get_topics_below("test")` lists `test` itself. */
  lemma ExampleTopicsBelowTest(ns: seq<Node>)
    requires ExampleShape(ns)
    ensures TopicsBelow(ns, "test") == ["test"]
  {
    ExampleWalkTop(ns);
    ExampleTopicsBelowAt(ns, "test", 1);
    ExampleSubtreesWithHistory(ns);
    ExampleTopics(ns);
    var r := TopicsOf(ns, [1]);
    assert r[0] == "test";
  }

  /** Which nodes are shown: the children of the root always, the
      children of `foo` only when `foo` is opened, the root never. */
  lemma ExampleShownNodes(ns: seq<Node>, o: set<string>)
    requires ExampleShape(ns)
    ensures !Shown(ns, o, 0)
    ensures Shown(ns, o, 1) && Shown(ns, o, 2)
    ensures Shown(ns, o, 3) <==> "foo" in o
    ensures Shown(ns, o, 4) <==> "foo" in o
  {
    ExampleTopics(ns);
  }

  /** Filtering a list one node at a time. */
  lemma KeepCons(x: nat, rest: seq<nat>, keep: set<nat>)
    ensures Keep([x] + rest, keep) == (if x in keep then [x] else []) + Keep(rest, keep)
  {
    assert ([x] + rest)[0] == x && ([x] + rest)[1..] == rest;
  }

  /** The shown nodes of the example in pre-order: every node but the root
      when `foo` is opened, only the children of the root otherwise. */
  lemma ExampleShownList(ns: seq<Node>, o: set<string>)
    requires ExampleShape(ns)
    ensures ShownOnly(ns, o, [0, 2, 4, 3, 1]) == if "foo" in o then [2, 4, 3, 1] else [2, 1]
  {
    var keep := ShownSet(ns, o);
    ExampleShownNodes(ns, o);
    assert 0 !in keep && 1 in keep && 2 in keep;
    assert 3 in keep <==> "foo" in o;
    assert 4 in keep <==> "foo" in o;
    KeepCons(1, [], keep);
    assert [1] + [] == [1];
    assert Keep([1], keep) == [1];
    KeepCons(3, [1], keep);
    assert [3] + [1] == [3, 1];
    KeepCons(4, [3, 1], keep);
    assert [4] + [3, 1] == [4, 3, 1];
    KeepCons(2, [4, 3, 1], keep);
    assert [2] + [4, 3, 1] == [2, 4, 3, 1];
    KeepCons(0, [2, 4, 3, 1], keep);
    assert [0] + [2, 4, 3, 1] == [0, 2, 4, 3, 1];
    if "foo" in o {
      assert Keep([3, 1], keep) == [3, 1];
      assert Keep([4, 3, 1], keep) == [4, 3, 1];
      assert Keep([2, 4, 3, 1], keep) == [2, 4, 3, 1];
    } else {
      assert Keep([3, 1], keep) == [1];
      assert Keep([4, 3, 1], keep) == [1];
      assert Keep([2, 4, 3, 1], keep) == [2, 1];
    }
  }

  /** Without a query, the example's visible topics are those of its
      shown nodes in pre-order. */
  lemma ExampleVisibleShown(ns: seq<Node>, o: set<string>)
    requires ExampleShape(ns)
    ensures VisibleTopics(ns, o, None) == TopicsOf(ns, if "foo" in o then [2, 4, 3, 1] else [2, 1])
  {
    ExampleWellFormed(ns);
    VisibleUnfiltered(ns, o);
    ExamplePreOrder(ns);
    ExampleShownList(ns, o);
  }

  /** Without a query and with `foo` closed, the example shows `foo` and
      `test` (the test opens nothing). */
  lemma ExampleVisibleClosed(ns: seq<Node>, o: set<string>)
    requires ExampleShape(ns) && "foo" !in o
    ensures VisibleTopics(ns, o, None) == ["foo", "test"]
  {
    ExampleVisibleShown(ns, o);
    ExampleTopics(ns);
    var r := TopicsOf(ns, [2, 1]);
    assert r[0] == "foo" && r[1] == "test";
  }

  /** Opening `foo` shows its children right after it. */
  lemma ExampleVisibleOpened(ns: seq<Node>, o: set<string>)
    requires ExampleShape(ns) && "foo" in o
    ensures VisibleTopics(ns, o, None) == ["foo", "foo/bar", "foo/test", "test"]
  {
    ExampleVisibleShown(ns, o);
    ExampleTopics(ns);
    var r := TopicsOf(ns, [2, 4, 3, 1]);
    assert r[0] == "foo" && r[1] == "foo/bar" && r[2] == "foo/test" && r[3] == "test";
  }

  /** With the empty query of the unit tests, nothing is visible at all,
      where the tests expect the unfiltered lists above. */
  lemma ExampleEmptyQuery(ns: seq<Node>)
    requires ExampleShape(ns)
    ensures VisibleTopics(ns, {}, Some({})) == []
    ensures VisibleTopics(ns, {"foo"}, Some({})) == []
  {
    VisibleFiltered(ns, {}, {}, "");
    VisibleFiltered(ns, {"foo"}, {}, "");
  }

  /** `to_tree_items` counts three topics with messages. */
  lemma ExampleTopicCount(ns: seq<Node>, query: Option<set<string>>)
    requires ExampleShape(ns)
    ensures ToTreeItems(ns, query).0 == 3
  {
    ExampleWellFormed(ns);
    ToTreeItemsTotal(ns, query);
    assert (set x | 0 < x < |ns| && |ns[x].history| > 0) == {1, 3, 4};
  }

  /** `to_tree_items` returns one item per child of the root: `foo` with two
      child items, `test` with none. */
  lemma ExampleItems(ns: seq<Node>, query: Option<set<string>>)
    requires ExampleShape(ns)
    ensures var items := ToTreeItems(ns, query).1;
      |items| == 2 && |items[0].children| == 2 && |items[1].children| == 0
  {
    ExampleWellFormed(ns);
    ToTreeItemsShape(ns, query);
    assert Path(ns, 2) == ["foo"] && Path(ns, 1) == ["test"];
    GenerateItem(ns, query, [], 2);
    GenerateItem(ns, query, [], 1);
  }
}
