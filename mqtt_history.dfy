/** The topic history: the arena tree of topic segments plus the index from
    full topic to node, and the ingestion of messages into it. */
module History {

  import opened Wrappers
  import opened Strings
  import opened TopicTree
  import opened Subtree
  import opened Queries
  import opened TreeItems
  import opened Search

  /** Every indexed topic walks, segment by segment, to its indexed node. */
  ghost predicate IndexWalks(ns: seq<Node>, ids: map<string, nat>)
  {
    forall t :: t in ids ==> Walk(ns, Root, Split(t)) == Some(ids[t])
  }

  /** A well-formed tree whose root has no messages, and an index that
      follows it. */
  ghost predicate Indexed(ns: seq<Node>, ids: map<string, nat>)
  {
    WellFormed(ns) && ns[Root].history == [] && IndexWalks(ns, ids)
  }

  /** The index and the histories agree: an indexed node has messages, and a
      node with messages is indexed under its topic; the root never has any. */
  ghost predicate Consistent(ns: seq<Node>, ids: map<string, nat>)
  {
    && Indexed(ns, ids)
    && (forall t :: t in ids ==> ids[t] < |ns| && |ns[ids[t]].history| > 0)
    && (forall j :: 0 < j && HasHistory(ns, j) ==> Topic(ns, j) in ids)
  }

  /** `ns'` differs from `ns` at most in histories. */
  ghost predicate SameShape(ns: seq<Node>, ns': seq<Node>)
  {
    && |ns'| == |ns|
    && forall i :: 0 <= i < |ns| ==>
         ns'[i].leaf == ns[i].leaf && ns'[i].parent == ns[i].parent && ns'[i].children == ns[i].children
  }

  /** Histories play no part in the shape of the tree: lookups, walks, paths
      and the tree invariant are the same. */
  lemma SameShapeLookups(ns: seq<Node>, ns': seq<Node>)
    requires SameShape(ns, ns')
    ensures WellFormed(ns) ==> WellFormed(ns')
    ensures forall x: nat, s: string :: ChildNamed(ns', x, s) == ChildNamed(ns, x, s)
    ensures forall j: nat :: Path(ns', j) == Path(ns, j)
  {
    forall cs: seq<nat>
      ensures LeavesOf(ns', cs) == LeavesOf(ns, cs)
    {
    }
    if WellFormed(ns) {
      forall i | 0 <= i < |ns'|
        ensures NodeOk(ns', i)
      {
        assert NodeOk(ns, i);
      }
    }
    forall j: nat
      ensures Path(ns', j) == Path(ns, j)
    {
      SameShapePath(ns, ns', j);
    }
  }

  lemma {:induction false} SameShapePath(ns: seq<Node>, ns': seq<Node>, j: nat)
    requires SameShape(ns, ns')
    ensures Path(ns', j) == Path(ns, j)
    decreases j
  {
    if j != Root && j < |ns| && ns[j].parent < j {
      SameShapePath(ns, ns', ns[j].parent);
    }
  }

  lemma {:induction false} SameShapeWalk(ns: seq<Node>, ns': seq<Node>, x: nat, parts: seq<string>)
    requires forall y: nat, s: string :: ChildNamed(ns', y, s) == ChildNamed(ns, y, s)
    ensures Walk(ns', x, parts) == Walk(ns, x, parts)
    decreases |parts|
  {
    if |parts| > 0 && ChildNamed(ns, x, parts[0]).Some? {
      SameShapeWalk(ns, ns', ChildNamed(ns, x, parts[0]).value, parts[1..]);
    }
  }

  /** Appending a message to the node of `topic`, just indexed by the
      ingestion walk, restores the agreement of index and histories. */
  lemma AppendedConsistent(ns0: seq<Node>, ids0: map<string, nat>, ns1: seq<Node>, topic: string, id: nat, entry: HistoryEntry)
    requires Consistent(ns0, ids0)
    requires Indexed(ns1, ids0[topic := id]) && Extends(ns0, ns1)
    requires 0 < id < |ns1| && Topic(ns1, id) == topic
    ensures Consistent(ns1[id := ns1[id].(history := ns1[id].history + [entry])], ids0[topic := id])
  {
    var ids1 := ids0[topic := id];
    var ns2 := ns1[id := ns1[id].(history := ns1[id].history + [entry])];
    assert SameShape(ns1, ns2);
    SameShapeLookups(ns1, ns2);
    forall t | t in ids1
      ensures Walk(ns2, Root, Split(t)) == Some(ids1[t])
    {
      SameShapeWalk(ns1, ns2, Root, Split(t));
    }
    forall j | 0 < j && HasHistory(ns2, j)
      ensures Topic(ns2, j) in ids1
    {
      if j != id {
        PathExtends(ns0, ns1, j);
        assert HasHistory(ns0, j);
      }
    }
  }

  /** What the ingestion walk found: the history of the node of `topic`
      (empty unless `topic` was indexed before), and the other indexed
      topics' nodes, which are old nodes different from it. */
  lemma EntryFacts(ns0: seq<Node>, ids0: map<string, nat>, ns1: seq<Node>, topic: string, id: nat)
    requires Consistent(ns0, ids0)
    requires Indexed(ns1, ids0[topic := id]) && Extends(ns0, ns1)
    requires 0 < id < |ns1| && Topic(ns1, id) == topic
    requires topic in ids0 ==> id == ids0[topic] && ns1 == ns0
    ensures ns1[id].history == (if topic in ids0 then ns0[id].history else [])
    ensures forall t :: t in ids0 && t != topic ==> ids0[t] != id && ids0[t] < |ns0|
  {
    if topic !in ids0 && HasHistory(ns0, id) {
      PathExtends(ns0, ns1, id);
    }
    forall t | t in ids0 && t != topic
      ensures ids0[t] != id && ids0[t] < |ns0|
    {
      OtherEntry(ns0, ids0, ns1, topic, id, t);
    }
  }

  /** Another indexed topic's node is an old node, different from the node
      of `topic`. */
  lemma OtherEntry(ns0: seq<Node>, ids0: map<string, nat>, ns1: seq<Node>, topic: string, id: nat, t: string)
    requires Consistent(ns0, ids0)
    requires Indexed(ns1, ids0[topic := id])
    requires 0 < id < |ns1| && Topic(ns1, id) == topic
    requires t in ids0 && t != topic
    ensures ids0[t] != id && ids0[t] < |ns0|
  {
    var ids1 := ids0[topic := id];
    assert t in ids1 && ids1[t] == ids0[t];
    assert Walk(ns1, Root, Split(t)) == Some(ids0[t]);
    WalkTopic(ns1, t);
  }

  /** The history recorded for `topic`, when it is indexed. */
  function Lookup(ns: seq<Node>, ids: map<string, nat>, topic: string): Option<seq<HistoryEntry>>
  {
    if topic in ids && ids[topic] < |ns| then Some(ns[ids[topic]].history) else None
  }

  /** The messages recorded for `topic` so far (none when not indexed). */
  function Recorded(ns: seq<Node>, ids: map<string, nat>, topic: string): seq<HistoryEntry>
  {
    match Lookup(ns, ids, topic)
    case None => []
    case Some(h) => h
  }

  /** The arena after `add(topic, entry)`: the ingestion walk along the
      segments of `topic`, then `entry` appended to the history of the node it
      ends at. */
  function Added(ns: seq<Node>, topic: string, entry: HistoryEntry): seq<Node>
  {
    var r := Ingested(ns, Root, Split(topic));
    if r.1 < |r.0| then r.0[r.1 := r.0[r.1].(history := r.0[r.1].history + [entry])] else r.0
  }

  /** The effect of `add` on the pure state: the arena `ns1` and index left
      by the ingestion walk, with `entry` appended at the node of `topic`. */
  lemma AddEffect(ns0: seq<Node>, ids0: map<string, nat>, ns1: seq<Node>, topic: string, id: nat, entry: HistoryEntry)
    requires Consistent(ns0, ids0)
    requires Indexed(ns1, ids0[topic := id]) && Extends(ns0, ns1)
    requires 0 < id < |ns1| && Topic(ns1, id) == topic
    requires topic in ids0 ==> id == ids0[topic] && ns1 == ns0
    ensures var ns2 := ns1[id := ns1[id].(history := ns1[id].history + [entry])];
      var ids1 := ids0[topic := id];
      && Consistent(ns2, ids1)
      && Lookup(ns2, ids1, topic) == Some(Recorded(ns0, ids0, topic) + [entry])
      && (forall t :: t != topic ==> Lookup(ns2, ids1, t) == Lookup(ns0, ids0, t))
      && |ns0| <= |ns2|
      && (forall i :: 0 <= i < |ns0| && i != id ==> ns2[i].history == ns0[i].history)
  {
    EntryFacts(ns0, ids0, ns1, topic, id);
    AppendedConsistent(ns0, ids0, ns1, topic, id, entry);
    LookupEffect(ns0, ids0, ns1, topic, id, entry);
  }

  lemma LookupEffect(ns0: seq<Node>, ids0: map<string, nat>, ns1: seq<Node>, topic: string, id: nat, entry: HistoryEntry)
    requires Extends(ns0, ns1) && 0 < id < |ns1|
    requires topic in ids0 ==> id == ids0[topic] && id < |ns0|
    requires ns1[id].history == (if topic in ids0 then ns0[id].history else [])
    requires forall t :: t in ids0 && t != topic ==> ids0[t] != id && ids0[t] < |ns0|
    ensures var ns2 := ns1[id := ns1[id].(history := ns1[id].history + [entry])];
      var ids1 := ids0[topic := id];
      && Lookup(ns2, ids1, topic) == Some(Recorded(ns0, ids0, topic) + [entry])
      && (forall t :: t != topic ==> Lookup(ns2, ids1, t) == Lookup(ns0, ids0, t))
      && |ns0| <= |ns2|
      && (forall i :: 0 <= i < |ns0| && i != id ==> ns2[i].history == ns0[i].history)
  {
  }

  /** `add` as a function of the pure state: on a consistent history it
      keeps index and histories in agreement, indexes `topic` at the end of
      its ingestion walk, extends the history of `topic` by `entry` and leaves
      every other topic's history as it was. */
  lemma AddedLookups(ns: seq<Node>, ids: map<string, nat>, topic: string, entry: HistoryEntry)
    requires Consistent(ns, ids)
    ensures var ids' := ids[topic := Ingested(ns, Root, Split(topic)).1];
      && Consistent(Added(ns, topic, entry), ids')
      && Lookup(Added(ns, topic, entry), ids', topic) == Some(Recorded(ns, ids, topic) + [entry])
      && (forall t :: t != topic ==> Lookup(Added(ns, topic, entry), ids', t) == Lookup(ns, ids, t))
  {
    var r := Ingested(ns, Root, Split(topic));
    IngestedGrows(ns, Root, Split(topic));
    IngestedWalks(ns, Root, Split(topic));
    forall t | t in ids
      ensures Walk(r.0, Root, Split(t)) == Some(ids[t])
    {
      assert Walk(ns, Root, Split(t)).Some?;
    }
    assert Indexed(r.0, ids);
    IndexedAdd(r.0, ids, topic, r.1);
    if topic in ids {
      IngestedFound(ns, Root, Split(topic));
    }
    AddEffect(ns, ids, r.0, topic, r.1, entry);
  }

  /** Indexing a topic under the node its segments walk to keeps the index
      walking. */
  lemma IndexedAdd(ns: seq<Node>, ids: map<string, nat>, topic: string, id: nat)
    requires Indexed(ns, ids) && Walk(ns, Root, Split(topic)) == Some(id)
    ensures Indexed(ns, ids[topic := id])
    ensures 0 < id < |ns| && Topic(ns, id) == topic
  {
    WalkTopic(ns, topic);
  }

  /** The message history of an MQTT session, as an arena of topic nodes
      (`nodes`, node 0 the root) and the index from full topic to node id. */
  class MqttHistory {
    var nodes: seq<Node>
    var ids: map<string, nat>

    ghost predicate Valid()
      reads this
    {
      Consistent(nodes, ids)
    }

    /** An empty history: only the root, nothing indexed. */
    constructor ()
      ensures Valid()
      ensures nodes == [Node("", [], Root, [])] && ids == map[]
    {
      nodes := [Node("", [], Root, [])];
      ids := map[];
      new;
      assert NodeOk(nodes, Root);
    }

    /** The history of `topic`, when `topic` has been published to. */
    function Get(topic: string): (r: Option<seq<HistoryEntry>>)
      reads this
      ensures r.Some? ==> topic in ids
      ensures Valid() ==> (r.Some? <==> topic in ids)
      ensures Valid() && r.Some? ==> |r.value| > 0
    {
      Lookup(nodes, ids, topic)
    }

    /** The last message of `topic`, when `topic` has been published to. */
    function GetLast(topic: string): (r: Option<HistoryEntry>)
      reads this
      ensures r.Some? <==> Get(topic).Some? && |Get(topic).value| > 0
      ensures r.Some? ==> r.value == Get(topic).value[|Get(topic).value| - 1]
      ensures Valid() ==> (r.Some? <==> topic in ids)
    {
      if topic in ids && ids[topic] < |nodes| && |nodes[ids[topic]].history| > 0
      then Some(nodes[ids[topic]].history[|nodes[ids[topic]].history| - 1])
      else None
    }

    /** Record a message on `topic`: the node of `topic` (created with its
        missing ancestors when new) gets `entry` appended to its history;
        no other topic's history changes. */
    method Add(topic: string, entry: HistoryEntry)
      requires Valid()
      modifies this
      ensures Valid()
      ensures ids.Keys == old(ids.Keys) + {topic}
      ensures Get(topic) == Some(Recorded(old(nodes), old(ids), topic) + [entry])
      ensures GetLast(topic) == Some(entry)
      ensures forall t :: t != topic ==> Get(t) == Lookup(old(nodes), old(ids), t)
      ensures |old(nodes)| <= |nodes|
      ensures forall i :: 0 <= i < |old(nodes)| && i != ids[topic] ==> nodes[i].history == old(nodes)[i].history
      ensures nodes == Added(old(nodes), topic, entry)
      ensures ids == old(ids)[topic := Ingested(old(nodes), Root, Split(topic)).1]
    {
      ghost var ns0 := nodes;
      ghost var ids0 := ids;
      var id := Entry(topic);
      AddEffect(ns0, ids0, nodes, topic, id, entry);
      nodes := nodes[id := nodes[id].(history := nodes[id].history + [entry])];
    }

    /** The node of `topic`: the indexed one, or the one reached by walking
        the segments of `topic` from the root, creating each missing segment
        at its sorted place among its siblings; the topic is then indexed. */
    method Entry(topic: string) returns (id: nat)
      requires Indexed(nodes, ids)
      modifies this
      ensures Indexed(nodes, ids)
      ensures Extends(old(nodes), nodes)
      ensures ids == old(ids)[topic := id]
      ensures 0 < id < |nodes| && Walk(nodes, Root, Split(topic)) == Some(id)
      ensures Topic(nodes, id) == topic
      ensures topic in old(ids) ==> id == old(ids)[topic] && nodes == old(nodes)
      ensures (nodes, id) == Ingested(old(nodes), Root, Split(topic))
    {
      if topic in ids {
        id := ids[topic];
        WalkTopic(nodes, topic);
        IngestedFound(nodes, Root, Split(topic));
      } else {
        id := EntryNew(topic);
      }
    }

    /** `entry` for a topic not indexed yet. */
    method EntryNew(topic: string) returns (id: nat)
      requires Indexed(nodes, ids) && topic !in ids
      modifies this
      ensures Indexed(nodes, ids) && Extends(old(nodes), nodes)
      ensures ids == old(ids)[topic := id]
      ensures 0 < id < |nodes| && Walk(nodes, Root, Split(topic)) == Some(id)
      ensures Topic(nodes, id) == topic
      ensures (nodes, id) == Ingested(old(nodes), Root, Split(topic))
    {
      var parts := Split(topic);
      id := WalkCreating(parts);
      IndexedAdd(nodes, ids, topic, id);
      ids := ids[topic := id];
    }

    /** The walk of `Entry` over the segments `parts`, creating each missing
        one: it ends at the node those segments name. */
    method WalkCreating(parts: seq<string>) returns (parent: nat)
      requires Indexed(nodes, ids) && NoSlash(parts)
      modifies this
      ensures Indexed(nodes, ids) && ids == old(ids) && Extends(old(nodes), nodes)
      ensures parent < |nodes| && Walk(nodes, Root, parts) == Some(parent)
      ensures (nodes, parent) == Ingested(old(nodes), Root, parts)
    {
      parent := Root;
      var i := 0;
      while i < |parts|
        invariant 0 <= i <= |parts|
        invariant Indexed(nodes, ids) && ids == old(ids) && parent < |nodes|
        invariant Walk(nodes, Root, parts[..i]) == Some(parent)
        invariant Extends(old(nodes), nodes)
        invariant Ingested(old(nodes), Root, parts) == Ingested(nodes, parent, parts[i..])
      {
        assert '/' !in parts[i];
        ghost var before := nodes;
        parent := Descend(parent, parts[i], parts[..i]);
        ExtendsTrans(old(nodes), before, nodes);
        TakeOneMore(parts, i);
        DropOneMore(parts, i);
        i := i + 1;
      }
      assert parts[..i] == parts;
      assert parts[i..] == [];
    }

    /** One segment of the walk in `Entry`: the child of `p` named `part`,
        found as the first child whose leaf is not below `part`; when that
        child is not equal to `part` (or there is none) a new child is
        inserted before it (or appended). */
    method Descend(p: nat, part: string, ghost prefix: seq<string>) returns (c: nat)
      requires Indexed(nodes, ids) && p < |nodes| && '/' !in part
      requires Walk(nodes, Root, prefix) == Some(p)
      modifies this
      ensures ids == old(ids)
      ensures Indexed(nodes, ids) && Extends(old(nodes), nodes)
      ensures ChildNamed(nodes, p, part) == Some(c) && c < |nodes|
      ensures ChildNamed(old(nodes), p, part).Some? ==> nodes == old(nodes)
      ensures Walk(nodes, Root, prefix + [part]) == Some(c)
      ensures (nodes, c) == Step(old(nodes), p, part)
    {
      var cs := nodes[p].children;
      var ls := LeavesOf(nodes, cs);
      var k := FirstNotBelow(ls, part);
      if k < |cs| {
        if ls[k] == part {
          forall q | 0 <= q < k
            ensures ls[q] != part
          {
            BelowIrreflexive(part);
          }
          IndexOfIs(ls, part, k);
          ChildNamedIsChild(nodes, p, part);
          c := cs[k];
          WalkStep(nodes, prefix, part, p, c);
          return;
        }
        BelowTotal(ls[k], part);
        c := InsertChild(p, k, part, prefix);
      } else {
        c := InsertChild(p, |cs|, part, prefix);
      }
      WalkStep(nodes, prefix, part, p, c);
    }

    /** ego_tree's `insert_before` the `k`-th child of `p`, or `append` when
        `k` is past the last child: a new node with leaf `part` and no
        history gets the next free id. */
    method InsertChild(p: nat, k: nat, part: string, ghost prefix: seq<string>) returns (c: nat)
      requires Indexed(nodes, ids) && p < |nodes| && SortedSlot(nodes, p, k, part)
      requires Walk(nodes, Root, prefix) == Some(p)
      modifies this
      ensures nodes == Inserted(old(nodes), p, k, part) && ids == old(ids)
      ensures c == |old(nodes)|
      ensures Indexed(nodes, ids) && Extends(old(nodes), nodes)
      ensures ChildNamed(nodes, p, part) == Some(c) && ChildNamed(old(nodes), p, part) == None
      ensures Walk(nodes, Root, prefix) == Some(p)
    {
      ghost var ns := nodes;
      InsertedWellFormed(ns, p, k, part);
      InsertedLookupNew(ns, p, k, part);
      forall x: nat, parts: seq<string> | Walk(ns, x, parts).Some?
        ensures Walk(Inserted(ns, p, k, part), x, parts) == Walk(ns, x, parts)
      {
        WalkKept(ns, p, k, part, x, parts);
      }
      WalkKept(ns, p, k, part, Root, prefix);
      c := |nodes|;
      var cs := nodes[p].children;
      nodes := nodes[p := nodes[p].(children := cs[..k] + [c] + cs[k..])] + [Node(part, [], p, [])];
    }

    /** The child positions along the segments of `topic`, for selecting
        and opening rows of the tree widget; `None` when a segment is
        missing. */
    method GetTreeIdentifier(topic: string) returns (r: Option<seq<nat>>)
      requires Valid()
      ensures r == TreeIdentifier(nodes, Root, Split(topic))
      ensures r.Some? <==> Walk(nodes, Root, Split(topic)).Some?
      ensures r.Some? ==> |r.value| == |Split(topic)| && FollowIndices(nodes, Root, r.value) == Walk(nodes, Root, Split(topic))
    {
      TreeIdentifierWalk(nodes, Root, Split(topic));
      var parts := Split(topic);
      var identifier: seq<nat> := [];
      var parent: nat := Root;
      var i := 0;
      assert parts[i..] == parts;
      PrefixedEmpty(TreeIdentifier(nodes, Root, parts));
      while i < |parts|
        invariant 0 <= i <= |parts| && parent < |nodes|
        invariant TreeIdentifier(nodes, Root, parts) == Prefixed(identifier, TreeIdentifier(nodes, parent, parts[i..]))
      {
        assert NodeOk(nodes, parent);
        var cs := nodes[parent].children;
        var found := IndexOf(LeavesOf(nodes, cs), parts[i]);
        TreeIdentifierStep(nodes, parent, parts[i..]);
        if found.None? {
          return None;
        }
        var k := found.value;
        assert parts[i..][1..] == parts[i + 1..];
        PrefixedAppend(identifier, k, TreeIdentifier(nodes, cs[k], parts[i + 1..]));
        identifier := identifier + [k];
        parent := cs[k];
        i := i + 1;
      }
      assert parts[i..] == [] && identifier + [] == identifier;
      r := Some(identifier);
    }

    /** The topics with messages at or below `topic`, in pre-order; none when
        a segment of `topic` is missing. */
    method GetTopicsBelow(topic: string) returns (r: seq<string>)
      requires Valid()
      ensures r == TopicsBelow(nodes, topic)
    {
      var parts := Split(topic);
      var node := Root;
      var i := 0;
      while i < |parts|
        invariant 0 <= i <= |parts|
        invariant Walk(nodes, Root, parts) == Walk(nodes, node, parts[i..])
      {
        var child := ChildNamed(nodes, node, parts[i]);
        if child.None? {
          return [];
        }
        assert parts[i..][1..] == parts[i + 1..];
        node := child.value;
        i := i + 1;
      }
      assert parts[i..] == [];
      r := TopicsBelowFrom(nodes, parts[..|parts| - 1], node);
    }

    /** The topics listed in the overview, given the opened topics and the
        search query. */
    function GetVisibleTopics(openedTopics: set<string>, query: Option<set<string>>): (r: seq<string>)
      reads this
      ensures r == VisibleTopics(nodes, openedTopics, query)
    {
      VisibleTopics(nodes, openedTopics, query)
    }

    /** The number of topics with messages and the rows of the tree widget. */
    function GetTreeItems(query: Option<set<string>>): (r: (nat, seq<TreeItem>))
      reads this
      ensures r == ToTreeItems(nodes, query)
    {
      ToTreeItems(nodes, query)
    }

    /** The topics whose leaf contains `word`: a pre-order pass collects the
        matches and remembers the leaf of the last one; a second pass builds
        each match's topic from the leaves above it and that remembered
        leaf. */
    method Search(word: string) returns (r: Option<set<string>>)
      requires Valid()
      ensures r == SearchResult(nodes, word)
    {
      var order := PreOrder(nodes, Root);
      var matches, last := CollectMatches(order, word);
      var results := BuildResults(matches, last);
      ResultTopicsEmpty(nodes, matches, last);
      if results == {} {
        return None;
      }
      r := Some(results);
    }

    /** The first pass of `search`: the nodes of `order` whose leaf contains
        `word`, and the leaf of the last of them. */
    method CollectMatches(order: seq<nat>, word: string) returns (matches: seq<nat>, last: string)
      ensures matches == Matching(nodes, word, order) && last == LastLeaf(nodes, matches)
    {
      last := "";
      matches := [];
      var i := 0;
      while i < |order|
        invariant 0 <= i <= |order|
        invariant matches == Matching(nodes, word, order[..i]) && last == LastLeaf(nodes, matches)
      {
        var x := order[i];
        MatchingAppend(nodes, word, order[..i], [x]);
        TakeOneMore(order, i);
        if x < |nodes| && Contains(nodes[x].leaf, word) {
          last := nodes[x].leaf;
          matches := matches + [x];
        }
        i := i + 1;
      }
      assert order[..i] == order;
    }

    /** The second pass of `search`: one rebuilt topic per match. */
    method BuildResults(matches: seq<nat>, last: string) returns (results: set<string>)
      requires Valid()
      ensures results == ResultTopics(nodes, matches, last)
    {
      results := {};
      var k := 0;
      while k < |matches|
        invariant 0 <= k <= |matches|
        invariant results == ResultTopics(nodes, matches[..k], last)
      {
        var full := FullTopic(matches[k], last);
        assert matches[..k + 1] == matches[..k] + [matches[k]];
        results := results + {full};
        k := k + 1;
      }
      assert matches[..k] == matches;
    }

    /** The parent walk of `search` for match `m`: prepend the leaf of each
        parent until the root or a parent with an empty leaf. */
    method FullTopic(m: nat, last: string) returns (topic: string)
      requires Valid()
      ensures topic == ResultTopic(nodes, m, last)
    {
      var full := [last];
      var current: nat := m;
      while current != Root && current < |nodes|
        invariant UpLeaves(nodes, m) + [last] == UpLeaves(nodes, current) + full
        decreases current
      {
        assert NodeOk(nodes, current);
        var p := nodes[current].parent;
        if nodes[p].leaf == "" {
          assert UpLeaves(nodes, current) == [];
          break;
        }
        full := [nodes[p].leaf] + full;
        current := p;
      }
      assert UpLeaves(nodes, current) == [];
      assert UpLeaves(nodes, m) + [last] == full;
      topic := Join(full);
    }
  }
}
