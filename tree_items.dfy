/** `to_tree_items`: the items of the topic overview, one per node below the
    root, with the aggregate counts the overview shows for topics without a
    message of their own. */
module TreeItems {

  import opened Wrappers
  import opened Strings
  import opened TopicTree
  import opened Subtree
  import opened Queries

  /** The text after a topic's leaf: its last payload, or for a topic
      without messages the number of topics and messages below it. */
  datatype Meta = LastPayload(payload: Payload) | Summary(topics: nat, messages: nat)

  /** One row of the tree widget: its leaf, its meta text, its child rows
      and whether the query lets it show. */
  datatype TreeItem = TreeItem(leaf: string, meta: Meta, children: seq<TreeItem>, visible: bool)

  /** What the recursion returns for one node. */
  datatype Generated = Generated(messagesBelow: nat, messages: nat, topicsBelow: nat, item: TreeItem)

  /** The query lets a topic show: always without a query, otherwise when
      the filter of the visible list matches it. */
  predicate MustShow(query: Option<set<string>>, t: string)
  {
    query.None? || Matches(query.value, t)
  }

  /** Messages of the rows `gs` and of everything below them. */
  function SumMessages(gs: seq<Generated>): nat
    decreases |gs|
  {
    if |gs| == 0 then 0 else gs[0].messages + gs[0].messagesBelow + SumMessages(gs[1..])
  }

  /** Topics with messages among the rows `gs` and below them. */
  function SumTopics(gs: seq<Generated>): nat
    decreases |gs|
  {
    if |gs| == 0 then 0
    else (if gs[0].messages > 0 then 1 else 0) + gs[0].topicsBelow + SumTopics(gs[1..])
  }

  function Items(gs: seq<Generated>): (items: seq<TreeItem>)
    ensures |items| == |gs| && forall m :: 0 <= m < |gs| ==> items[m] == gs[m].item
  {
    seq(|gs|, m requires 0 <= m < |gs| => gs[m].item)
  }

  /** The inner recursion of `to_tree_items` for node `j`, whose topic is
      `prefix` followed by its leaf. */
  function Generate(ns: seq<Node>, query: Option<set<string>>, prefix: seq<string>, j: nat): Generated
    requires j < |ns|
    decreases |ns| - j, 1
  {
    var topic := prefix + [ns[j].leaf];
    var below := GenerateList(ns, query, topic, j, ns[j].children);
    var messagesBelow := SumMessages(below);
    var topicsBelow := SumTopics(below);
    var h := ns[j].history;
    var meta := if |h| > 0 then LastPayload(h[|h| - 1].payload) else Summary(topicsBelow, messagesBelow);
    Generated(messagesBelow, |h|, topicsBelow, TreeItem(ns[j].leaf, meta, Items(below), MustShow(query, Join(topic))))
  }

  function GenerateList(ns: seq<Node>, query: Option<set<string>>, prefix: seq<string>, j: nat, cs: seq<nat>): seq<Generated>
    decreases |ns| - j, 0, |cs|
  {
    if |cs| == 0 then []
    else (if j < cs[0] < |ns| then [Generate(ns, query, prefix, cs[0])] else [])
         + GenerateList(ns, query, prefix, j, cs[1..])
  }

  /** `to_tree_items`: the number of topics with messages, and one item per
      child of the root. */
  function ToTreeItems(ns: seq<Node>, query: Option<set<string>>): (nat, seq<TreeItem>)
  {
    if |ns| == 0 then (0, [])
    else
      var gs := GenerateList(ns, query, [], Root, ns[Root].children);
      (SumTopics(gs), Items(gs))
  }

  /** Total history length of the nodes `s`. */
  function MessagesIn(ns: seq<Node>, s: seq<nat>): nat
    decreases |s|
  {
    if |s| == 0 then 0
    else (if s[0] < |ns| then |ns[s[0]].history| else 0) + MessagesIn(ns, s[1..])
  }

  lemma {:induction false} MessagesInAppend(ns: seq<Node>, a: seq<nat>, b: seq<nat>)
    ensures MessagesIn(ns, a + b) == MessagesIn(ns, a) + MessagesIn(ns, b)
    decreases |a|
  {
    if |a| == 0 {
      assert a + b == b;
    } else {
      assert (a + b)[1..] == a[1..] + b;
      MessagesInAppend(ns, a[1..], b);
    }
  }

  lemma {:induction false} SumsAppend(a: seq<Generated>, b: seq<Generated>)
    ensures SumMessages(a + b) == SumMessages(a) + SumMessages(b)
    ensures SumTopics(a + b) == SumTopics(a) + SumTopics(b)
    decreases |a|
  {
    if |a| == 0 {
      assert a + b == b;
    } else {
      assert (a + b)[1..] == a[1..] + b;
      SumsAppend(a[1..], b);
    }
  }

  /** The counts of a node: its own history length, the messages of its
      strict subtree, and the number of nodes with messages in its strict
      subtree. */
  lemma {:induction false} GenerateCounts(ns: seq<Node>, query: Option<set<string>>, prefix: seq<string>, j: nat)
    requires j < |ns|
    ensures var g := Generate(ns, query, prefix, j);
      && g.messages == |ns[j].history|
      && g.messagesBelow == MessagesIn(ns, PreOrderList(ns, j, ns[j].children))
      && g.topicsBelow == |WithHistory(ns, PreOrderList(ns, j, ns[j].children))|
    decreases |ns| - j, 1
  {
    GenerateListCounts(ns, query, prefix + [ns[j].leaf], j, ns[j].children);
  }

  lemma {:induction false} GenerateListCounts(ns: seq<Node>, query: Option<set<string>>, prefix: seq<string>, j: nat, cs: seq<nat>)
    ensures var gs := GenerateList(ns, query, prefix, j, cs);
      && SumMessages(gs) == MessagesIn(ns, PreOrderList(ns, j, cs))
      && SumTopics(gs) == |WithHistory(ns, PreOrderList(ns, j, cs))|
    decreases |ns| - j, 0, |cs|
  {
    if |cs| > 0 {
      var c := cs[0];
      var first := if j < c < |ns| then [Generate(ns, query, prefix, c)] else [];
      var ps := if j < c < |ns| then PreOrder(ns, c) else [];
      GenerateListCounts(ns, query, prefix, j, cs[1..]);
      SumsAppend(first, GenerateList(ns, query, prefix, j, cs[1..]));
      MessagesInAppend(ns, ps, PreOrderList(ns, j, cs[1..]));
      WithHistoryAppend(ns, ps, PreOrderList(ns, j, cs[1..]));
      if j < c < |ns| {
        GenerateSubtreeCounts(ns, query, prefix, c);
      }
    }
  }

  /** The counts of a node's row including the node itself. */
  lemma {:induction false} GenerateSubtreeCounts(ns: seq<Node>, query: Option<set<string>>, prefix: seq<string>, c: nat)
    requires c < |ns|
    ensures var first := [Generate(ns, query, prefix, c)];
      && SumMessages(first) == MessagesIn(ns, PreOrder(ns, c))
      && SumTopics(first) == |WithHistory(ns, PreOrder(ns, c))|
    decreases |ns| - c, 2
  {
    var first := [Generate(ns, query, prefix, c)];
    GenerateCounts(ns, query, prefix, c);
    var rest := PreOrderList(ns, c, ns[c].children);
    MessagesInAppend(ns, [c], rest);
    WithHistoryAppend(ns, [c], rest);
    assert SumMessages(first) == first[0].messages + first[0].messagesBelow;
    assert SumTopics(first) == (if first[0].messages > 0 then 1 else 0) + first[0].topicsBelow;
  }

  /** A duplicate-free listing has as many nodes with messages as the set
      of its nodes with messages. */
  lemma {:induction false} WithHistoryCard(ns: seq<Node>, s: seq<nat>)
    requires Distinct(s)
    ensures |WithHistory(ns, s)| == |set x | x in s && HasHistory(ns, x)|
    decreases |s|
  {
    if |s| > 0 {
      var rest := s[1..];
      assert Distinct(rest) by {
        forall a, b | 0 <= a < b < |rest|
          ensures rest[a] != rest[b]
        {
          assert rest[a] == s[a + 1] && rest[b] == s[b + 1];
        }
      }
      WithHistoryCard(ns, rest);
      var all := set x | x in s && HasHistory(ns, x);
      var tail := set x | x in rest && HasHistory(ns, x);
      assert s[0] !in rest by {
        forall m | 0 <= m < |rest|
          ensures rest[m] != s[0]
        {
          assert rest[m] == s[m + 1];
        }
      }
      if HasHistory(ns, s[0]) {
        assert all == {s[0]} + tail;
      } else {
        assert all == tail;
      }
    }
  }

  /** Below the root, the pre-order listing holds every other node once. */
  lemma RootListing(ns: seq<Node>)
    requires WellFormed(ns)
    ensures var s := PreOrderList(ns, Root, ns[Root].children);
      Distinct(s) && forall x :: x in s <==> 0 < x < |ns|
  {
    var s := PreOrderList(ns, Root, ns[Root].children);
    var whole := PreOrder(ns, Root);
    assert whole == [Root] + s;
    RootListingDistinct(ns, whole, s);
    forall x | x in s
      ensures 0 < x < |ns|
    {
      RootListingSound(ns, whole, s, x);
    }
    forall x | 0 < x < |ns|
      ensures x in s
    {
      DescendsRoot(ns, x);
      PreOrderComplete(ns, Root, x);
    }
  }

  lemma RootListingDistinct(ns: seq<Node>, whole: seq<nat>, s: seq<nat>)
    requires WellFormed(ns) && whole == PreOrder(ns, Root) && whole == [Root] + s
    ensures Distinct(s)
  {
    PreOrderDistinct(ns, Root);
    forall a, b | 0 <= a < b < |s|
      ensures s[a] != s[b]
    {
      assert s[a] == whole[a + 1] && s[b] == whole[b + 1];
    }
  }

  lemma RootListingSound(ns: seq<Node>, whole: seq<nat>, s: seq<nat>, x: nat)
    requires WellFormed(ns) && whole == PreOrder(ns, Root) && whole == [Root] + s && x in s
    ensures 0 < x < |ns|
  {
    PreOrderDistinct(ns, Root);
    var m :| 0 <= m < |s| && s[m] == x;
    assert whole[m + 1] == x && whole[0] == Root;
    PreOrderSound(ns, Root, x);
  }

  /** The number of topics shown in the overview's title is the number of
      nodes other than the root that have received a message. */
  lemma ToTreeItemsTotal(ns: seq<Node>, query: Option<set<string>>)
    requires WellFormed(ns)
    ensures ToTreeItems(ns, query).0 == |set x | 0 < x < |ns| && |ns[x].history| > 0|
  {
    var s := PreOrderList(ns, Root, ns[Root].children);
    GenerateListCounts(ns, query, [], Root, ns[Root].children);
    RootListing(ns);
    WithHistoryCard(ns, s);
    assert (set x | x in s && HasHistory(ns, x)) == (set x | 0 < x < |ns| && |ns[x].history| > 0);
  }

  /** Each item mirrors its node: the node's leaf, one child item per child
      node, the last payload as meta text when there is one (otherwise the
      counts below), and shown exactly when the query lets the node's topic
      show. */
  lemma {:induction false} GenerateItem(ns: seq<Node>, query: Option<set<string>>, prefix: seq<string>, j: nat)
    requires WellFormed(ns) && j < |ns| && prefix + [ns[j].leaf] == Path(ns, j)
    ensures var g := Generate(ns, query, prefix, j);
      && g.item.leaf == ns[j].leaf
      && |g.item.children| == |ns[j].children|
      && (forall m :: 0 <= m < |ns[j].children| ==> g.item.children[m].leaf == ns[ns[j].children[m]].leaf)
      && g.item.visible == MustShow(query, Topic(ns, j))
      && (|ns[j].history| > 0 ==> g.item.meta == LastPayload(ns[j].history[|ns[j].history| - 1].payload))
      && (|ns[j].history| == 0 ==> g.item.meta == Summary(g.topicsBelow, g.messagesBelow))
  {
    ChildrenOfNode(ns, j);
    GenerateListShape(ns, query, prefix + [ns[j].leaf], j, ns[j].children);
  }

  lemma {:induction false} GenerateListShape(ns: seq<Node>, query: Option<set<string>>, prefix: seq<string>, j: nat, cs: seq<nat>)
    requires WellFormed(ns) && ChildrenOf(ns, j, cs)
    ensures var gs := GenerateList(ns, query, prefix, j, cs);
      |gs| == |cs| && forall m :: 0 <= m < |cs| ==> gs[m] == Generate(ns, query, prefix, cs[m])
    decreases |cs|
  {
    if |cs| > 0 {
      ChildrenOfTail(ns, j, cs);
      GenerateListShape(ns, query, prefix, j, cs[1..]);
      var gs := GenerateList(ns, query, prefix, j, cs);
      forall m | 0 < m < |cs|
        ensures gs[m] == Generate(ns, query, prefix, cs[m])
      {
        assert cs[1..][m - 1] == cs[m];
      }
    }
  }

  /** The item list mirrors the children of the root, in order, each item
      described by `GenerateItem`. */
  lemma ToTreeItemsShape(ns: seq<Node>, query: Option<set<string>>)
    requires WellFormed(ns)
    ensures var items := ToTreeItems(ns, query).1;
      |items| == |ns[Root].children| &&
      forall m :: 0 <= m < |items| ==>
        items[m] == Generate(ns, query, [], ns[Root].children[m]).item &&
        items[m].leaf == ns[ns[Root].children[m]].leaf &&
        items[m].visible == MustShow(query, Topic(ns, ns[Root].children[m]))
  {
    var cs := ns[Root].children;
    ChildrenOfNode(ns, Root);
    GenerateListShape(ns, query, [], Root, cs);
    forall m | 0 <= m < |cs|
      ensures Generate(ns, query, [], cs[m]).item.visible == MustShow(query, Topic(ns, cs[m]))
      ensures Generate(ns, query, [], cs[m]).item.leaf == ns[cs[m]].leaf
    {
      PathOfChild(ns, Root, cs[m]);
      GenerateItem(ns, query, [], cs[m]);
    }
  }
}
