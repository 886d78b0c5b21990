/** The read-only projections of the topic history: tree identifiers, the
    topics below a node, and the list of topics visible in the collapsible
    overview, each with the reference definition over the pre-order listing
    that it agrees with. */
module Queries {

  import opened Wrappers
  import opened Strings
  import opened TopicTree
  import opened Subtree

  /** The nodes of `s` that have messages, in order. */
  function WithHistory(ns: seq<Node>, s: seq<nat>): (r: seq<nat>)
    ensures forall x :: x in r <==> x in s && HasHistory(ns, x)
    decreases |s|
  {
    if |s| == 0 then []
    else (if HasHistory(ns, s[0]) then [s[0]] else []) + WithHistory(ns, s[1..])
  }

  lemma {:induction false} WithHistoryAppend(ns: seq<Node>, a: seq<nat>, b: seq<nat>)
    ensures WithHistory(ns, a + b) == WithHistory(ns, a) + WithHistory(ns, b)
    decreases |a|
  {
    if |a| == 0 {
      assert a + b == b;
    } else {
      assert (a + b)[1..] == a[1..] + b;
      WithHistoryAppend(ns, a[1..], b);
    }
  }

  /** The full topics of the nodes `s`, in order. */
  function TopicsOf(ns: seq<Node>, s: seq<nat>): (r: seq<string>)
    ensures |r| == |s| && forall m :: 0 <= m < |s| ==> r[m] == Topic(ns, s[m])
  {
    seq(|s|, m requires 0 <= m < |s| => Topic(ns, s[m]))
  }

  lemma TopicsOfAppend(ns: seq<Node>, a: seq<nat>, b: seq<nat>)
    ensures TopicsOf(ns, a + b) == TopicsOf(ns, a) + TopicsOf(ns, b)
  {
  }

  /** A child's path is its parent's path followed by its leaf. */
  lemma PathOfChild(ns: seq<Node>, j: nat, c: nat)
    requires j < c < |ns| && ns[c].parent == j
    ensures Path(ns, c) == Path(ns, j) + [ns[c].leaf]
  {
  }

  // ---------------------------------------------------------------------
  // get_tree_identifier

  /** The positions among their siblings of the nodes met when walking
      `parts` down from `x`: at each step the first child whose leaf is the
      segment; `None` as soon as a segment has no such child. */
  function TreeIdentifier(ns: seq<Node>, x: nat, parts: seq<string>): Option<seq<nat>>
    decreases |parts|
  {
    if |parts| == 0 then Some([])
    else if x >= |ns| then None
    else match IndexOf(LeavesOf(ns, ns[x].children), parts[0])
      case None => None
      case Some(k) =>
        Prefixed([k], TreeIdentifier(ns, ns[x].children[k], parts[1..]))
  }

  /** `rest` behind the positions `pre`, when there is a rest. */
  function Prefixed(pre: seq<nat>, rest: Option<seq<nat>>): Option<seq<nat>>
  {
    match rest
    case None => None
    case Some(r) => Some(pre + r)
  }

  lemma PrefixedEmpty(rest: Option<seq<nat>>)
    ensures Prefixed([], rest) == rest
  {
    if rest.Some? {
      assert [] + rest.value == rest.value;
    }
  }

  /** One step of the tree identifier: the position of the first segment
      among the children, followed by the identifier of the rest. */
  lemma TreeIdentifierStep(ns: seq<Node>, x: nat, parts: seq<string>)
    requires |parts| > 0 && x < |ns|
    ensures var found := IndexOf(LeavesOf(ns, ns[x].children), parts[0]);
      TreeIdentifier(ns, x, parts) ==
        if found.None? then None
        else Prefixed([found.value], TreeIdentifier(ns, ns[x].children[found.value], parts[1..]))
  {
  }

  lemma PrefixedAppend(pre: seq<nat>, k: nat, rest: Option<seq<nat>>)
    ensures Prefixed(pre, Prefixed([k], rest)) == Prefixed(pre + [k], rest)
  {
    if rest.Some? {
      assert pre + ([k] + rest.value) == (pre + [k]) + rest.value;
    }
  }

  /** Following child positions `idx` down from `x`. */
  function FollowIndices(ns: seq<Node>, x: nat, idx: seq<nat>): Option<nat>
    decreases |idx|
  {
    if |idx| == 0 then Some(x)
    else if x >= |ns| || idx[0] >= |ns[x].children| then None
    else FollowIndices(ns, ns[x].children[idx[0]], idx[1..])
  }

  /** A tree identifier exists exactly when the walk along the same segments
      succeeds; it has one position per segment, and following those
      positions reaches the node the walk reaches. */
  lemma {:induction false} TreeIdentifierWalk(ns: seq<Node>, x: nat, parts: seq<string>)
    ensures TreeIdentifier(ns, x, parts).Some? <==> Walk(ns, x, parts).Some?
    ensures TreeIdentifier(ns, x, parts).Some? ==>
              |TreeIdentifier(ns, x, parts).value| == |parts| &&
              FollowIndices(ns, x, TreeIdentifier(ns, x, parts).value) == Walk(ns, x, parts)
    decreases |parts|
  {
    if |parts| > 0 && x < |ns| {
      match IndexOf(LeavesOf(ns, ns[x].children), parts[0])
      case None =>
      case Some(k) =>
        var c := ns[x].children[k];
        TreeIdentifierWalk(ns, c, parts[1..]);
        match TreeIdentifier(ns, c, parts[1..])
        case None =>
        case Some(rest) =>
          var idx := [k] + rest;
          assert idx[1..] == rest;
    }
  }

  // ---------------------------------------------------------------------
  // get_topics_below

  /** The inner recursion of `get_topics_below`: the topic of `j`, spelled as
      `prefix` followed by `j`'s leaf, when `j` has messages, then the same
      for each child in order with that topic as the new prefix. */
  function TopicsBelowFrom(ns: seq<Node>, prefix: seq<string>, j: nat): seq<string>
    decreases |ns| - j, 1
  {
    if j >= |ns| then []
    else
      var topic := prefix + [ns[j].leaf];
      (if |ns[j].history| > 0 then [Join(topic)] else []) + TopicsBelowList(ns, topic, j, ns[j].children)
  }

  function TopicsBelowList(ns: seq<Node>, prefix: seq<string>, j: nat, cs: seq<nat>): seq<string>
    decreases |ns| - j, 0, |cs|
  {
    if |cs| == 0 then []
    else (if j < cs[0] < |ns| then TopicsBelowFrom(ns, prefix, cs[0]) else [])
         + TopicsBelowList(ns, prefix, j, cs[1..])
  }

  /** `get_topics_below`: walk the segments of `topic` (nothing when one is
      missing), then list from the node reached, whose prefix is every
      segment but the last. */
  function TopicsBelow(ns: seq<Node>, topic: string): seq<string>
  {
    var parts := Split(topic);
    match Walk(ns, Root, parts)
    case None => []
    case Some(j) => TopicsBelowFrom(ns, parts[..|parts| - 1], j)
  }

  /** Spelling the topic from prefixes gives the full topic of each listed
      node: the listing is the topics of the subtree's nodes that have
      messages, in pre-order. */
  lemma {:induction false} TopicsBelowFromIs(ns: seq<Node>, prefix: seq<string>, j: nat)
    requires WellFormed(ns) && j < |ns| && prefix + [ns[j].leaf] == Path(ns, j)
    ensures TopicsBelowFrom(ns, prefix, j) == TopicsOf(ns, WithHistory(ns, PreOrder(ns, j)))
    decreases |ns| - j, 1
  {
    var topic := prefix + [ns[j].leaf];
    var cs := ns[j].children;
    ChildrenOfNode(ns, j);
    TopicsBelowListIs(ns, topic, j, cs);
    var rest := PreOrderList(ns, j, cs);
    WithHistoryAppend(ns, [j], rest);
    TopicsOfAppend(ns, WithHistory(ns, [j]), WithHistory(ns, rest));
  }

  lemma {:induction false} TopicsBelowListIs(ns: seq<Node>, prefix: seq<string>, j: nat, cs: seq<nat>)
    requires WellFormed(ns) && ChildrenOf(ns, j, cs) && prefix == Path(ns, j)
    ensures TopicsBelowList(ns, prefix, j, cs) == TopicsOf(ns, WithHistory(ns, PreOrderList(ns, j, cs)))
    decreases |ns| - j, 0, |cs|
  {
    if |cs| > 0 {
      var c := cs[0];
      ChildrenOfTail(ns, j, cs);
      PathOfChild(ns, j, c);
      TopicsBelowFromIs(ns, prefix, c);
      TopicsBelowListIs(ns, prefix, j, cs[1..]);
      WithHistoryAppend(ns, PreOrder(ns, c), PreOrderList(ns, j, cs[1..]));
      TopicsOfAppend(ns, WithHistory(ns, PreOrder(ns, c)), WithHistory(ns, PreOrderList(ns, j, cs[1..])));
    }
  }

  /** `get_topics_below(topic)` is empty when a segment of `topic` is
      missing; otherwise it lists, in pre-order and each once, the topics of
      the nodes with messages at or below the node of `topic`. */
  lemma TopicsBelowMeaning(ns: seq<Node>, topic: string)
    requires WellFormed(ns)
    ensures Walk(ns, Root, Split(topic)).None? ==> TopicsBelow(ns, topic) == []
    ensures Walk(ns, Root, Split(topic)).Some? ==>
              var j := Walk(ns, Root, Split(topic)).value;
              0 < j < |ns| && Topic(ns, j) == topic &&
              TopicsBelow(ns, topic) == TopicsOf(ns, WithHistory(ns, PreOrder(ns, j)))
  {
    var parts := Split(topic);
    if Walk(ns, Root, parts).Some? {
      var j := Walk(ns, Root, parts).value;
      WalkTopic(ns, topic);
      WalkPath(ns, Root, parts);
      assert parts == parts[..|parts| - 1] + [parts[|parts| - 1]];
      assert NodeOk(ns, j);
      var p := ns[j].parent;
      assert Path(ns, j) == Path(ns, p) + [ns[j].leaf];
      TopicsBelowFromIs(ns, parts[..|parts| - 1], j);
    }
  }

  /** A topic is listed below node `j` exactly when it is the topic of a
      node with messages at or below `j`. */
  lemma TopicsBelowMember(ns: seq<Node>, j: nat, x: nat)
    requires WellFormed(ns) && j < |ns| && x < |ns|
    ensures x in WithHistory(ns, PreOrder(ns, j)) <==> Descends(ns, x, j) && HasHistory(ns, x)
  {
    if x in PreOrder(ns, j) {
      PreOrderSound(ns, j, x);
    }
    if Descends(ns, x, j) {
      PreOrderComplete(ns, j, x);
    }
  }

  // ---------------------------------------------------------------------
  // get_visible_topics

  /** The inner recursion of `get_visible_topics`: the topic of `j`, and when
      that topic is opened, the same for each child in order. */
  function VisibleFrom(ns: seq<Node>, openedTopics: set<string>, prefix: seq<string>, j: nat): seq<string>
    decreases |ns| - j, 1
  {
    if j >= |ns| then []
    else
      var topic := prefix + [ns[j].leaf];
      var name := Join(topic);
      if name in openedTopics then [name] + VisibleList(ns, openedTopics, topic, j, ns[j].children)
      else [name]
  }

  function VisibleList(ns: seq<Node>, openedTopics: set<string>, prefix: seq<string>, j: nat, cs: seq<nat>): seq<string>
    decreases |ns| - j, 0, |cs|
  {
    if |cs| == 0 then []
    else (if j < cs[0] < |ns| then VisibleFrom(ns, openedTopics, prefix, cs[0]) else [])
         + VisibleList(ns, openedTopics, prefix, j, cs[1..])
  }

  /** The query filter: some query item contains the topic, or the topic
      starts with some query item.  An empty query matches nothing. */
  predicate Matches(q: set<string>, t: string)
  {
    exists i :: i in q && (Contains(i, t) || StartsWith(t, i))
  }

  /** The topics of `s` that the query matches, in order. */
  function KeepMatching(q: set<string>, s: seq<string>): (r: seq<string>)
    ensures forall t :: t in r <==> t in s && Matches(q, t)
    decreases |s|
  {
    if |s| == 0 then []
    else (if Matches(q, s[0]) then [s[0]] else []) + KeepMatching(q, s[1..])
  }

  lemma {:induction false} EmptyQueryKeepsNothing(s: seq<string>)
    ensures KeepMatching({}, s) == []
    decreases |s|
  {
    if |s| > 0 {
      EmptyQueryKeepsNothing(s[1..]);
    }
  }

  /** `get_visible_topics`: the listing from each child of the root with an
      empty prefix, filtered by the query when there is one. */
  function VisibleTopics(ns: seq<Node>, openedTopics: set<string>, query: Option<set<string>>): seq<string>
  {
    var all := if |ns| == 0 then [] else VisibleList(ns, openedTopics, [], Root, ns[Root].children);
    match query
    case None => all
    case Some(q) => KeepMatching(q, all)
  }

  /** Node `x` is shown in the overview: it is not the root, and every node
      strictly between the root and `x` has its topic opened. */
  predicate Shown(ns: seq<Node>, openedTopics: set<string>, x: nat)
    decreases x
  {
    && x != Root && x < |ns| && ns[x].parent < x
    && (ns[x].parent == Root || (Topic(ns, ns[x].parent) in openedTopics && Shown(ns, openedTopics, ns[x].parent)))
  }

  /** The shown nodes of the tree. */
  function ShownSet(ns: seq<Node>, openedTopics: set<string>): set<nat>
  {
    set x | 0 <= x < |ns| && Shown(ns, openedTopics, x)
  }

  /** The members of `s` that lie in `keep`, in order. */
  function Keep(s: seq<nat>, keep: set<nat>): seq<nat>
    decreases |s|
  {
    if |s| == 0 then []
    else (if s[0] in keep then [s[0]] else []) + Keep(s[1..], keep)
  }

  lemma {:induction false} KeepMember(s: seq<nat>, keep: set<nat>)
    ensures forall x :: x in Keep(s, keep) <==> x in s && x in keep
    decreases |s|
  {
    if |s| > 0 {
      KeepMember(s[1..], keep);
      assert forall x :: x in s <==> x == s[0] || x in s[1..];
    }
  }

  lemma {:induction false} KeepAppend(a: seq<nat>, b: seq<nat>, keep: set<nat>)
    ensures Keep(a + b, keep) == Keep(a, keep) + Keep(b, keep)
    decreases |a|
  {
    if |a| == 0 {
      assert a + b == b;
    } else {
      var head := if a[0] in keep then [a[0]] else [];
      assert (a + b)[0] == a[0] && (a + b)[1..] == a[1..] + b;
      KeepAppend(a[1..], b, keep);
      calc {
        Keep(a + b, keep);
        head + Keep(a[1..] + b, keep);
        head + (Keep(a[1..], keep) + Keep(b, keep));
        (head + Keep(a[1..], keep)) + Keep(b, keep);
      }
    }
  }

  lemma {:induction false} KeepNone(s: seq<nat>, keep: set<nat>)
    requires forall x :: x in s ==> x !in keep
    ensures Keep(s, keep) == []
    decreases |s|
  {
    if |s| > 0 {
      assert s[0] in s;
      assert forall x :: x in s[1..] ==> x in s;
      KeepNone(s[1..], keep);
    }
  }

  /** The shown nodes of `s`, in order. */
  function ShownOnly(ns: seq<Node>, openedTopics: set<string>, s: seq<nat>): seq<nat>
  {
    Keep(s, ShownSet(ns, openedTopics))
  }

  /** The filtered list holds exactly the shown nodes of `s`. */
  lemma ShownOnlyMember(ns: seq<Node>, openedTopics: set<string>, s: seq<nat>)
    ensures forall x :: x in ShownOnly(ns, openedTopics, s) <==> x in s && Shown(ns, openedTopics, x)
  {
    KeepMember(s, ShownSet(ns, openedTopics));
  }

  lemma ShownOnlyAppend(ns: seq<Node>, openedTopics: set<string>, a: seq<nat>, b: seq<nat>)
    ensures ShownOnly(ns, openedTopics, a + b) == ShownOnly(ns, openedTopics, a) + ShownOnly(ns, openedTopics, b)
  {
    KeepAppend(a, b, ShownSet(ns, openedTopics));
  }

  lemma ShownOnlyNone(ns: seq<Node>, openedTopics: set<string>, s: seq<nat>)
    requires forall x :: x in s ==> !Shown(ns, openedTopics, x)
    ensures ShownOnly(ns, openedTopics, s) == []
  {
    KeepNone(s, ShownSet(ns, openedTopics));
  }

  /** Nothing below a closed non-root node is shown. */
  lemma {:induction false} ClosedHidesBelow(ns: seq<Node>, openedTopics: set<string>, j: nat, c: nat, x: nat)
    requires 0 < j < c < |ns| && ns[c].parent == j && Topic(ns, j) !in openedTopics
    requires Descends(ns, x, c)
    ensures !Shown(ns, openedTopics, x)
    decreases x
  {
    if x != c {
      var p := ns[x].parent;
      DescendsAtLeast(ns, p, c);
      ClosedHidesBelow(ns, openedTopics, j, c, p);
    }
  }

  /** The listing from a shown node `j` is the topics of the shown nodes of
      its subtree, in pre-order. */
  lemma {:induction false} VisibleFromIs(ns: seq<Node>, openedTopics: set<string>, prefix: seq<string>, j: nat)
    requires WellFormed(ns) && j < |ns| && prefix + [ns[j].leaf] == Path(ns, j)
    requires Shown(ns, openedTopics, j)
    ensures VisibleFrom(ns, openedTopics, prefix, j) == TopicsOf(ns, ShownOnly(ns, openedTopics, PreOrder(ns, j)))
    decreases |ns| - j, 1
  {
    var topic := prefix + [ns[j].leaf];
    var cs := ns[j].children;
    var rest := PreOrderList(ns, j, cs);
    ChildrenOfNode(ns, j);
    ShownOnlyAppend(ns, openedTopics, [j], rest);
    if Join(topic) in openedTopics {
      VisibleListIs(ns, openedTopics, topic, j, cs);
      TopicsOfAppend(ns, [j], ShownOnly(ns, openedTopics, rest));
    } else {
      forall x | x in rest
        ensures !Shown(ns, openedTopics, x)
      {
        ClosedHidesListing(ns, openedTopics, j, x);
      }
      ShownOnlyNone(ns, openedTopics, rest);
    }
  }

  /** Nothing listed below a closed node is shown. */
  lemma ClosedHidesListing(ns: seq<Node>, openedTopics: set<string>, j: nat, x: nat)
    requires WellFormed(ns) && 0 < j < |ns| && Topic(ns, j) !in openedTopics
    requires x in PreOrderList(ns, j, ns[j].children)
    ensures !Shown(ns, openedTopics, x)
  {
    var cs := ns[j].children;
    ChildrenOfNode(ns, j);
    PreOrderListMember(ns, j, cs, x);
    var m :| 0 <= m < |cs| && j < cs[m] < |ns| && x in PreOrder(ns, cs[m]);
    assert NodeOk(ns, j);
    PreOrderSound(ns, cs[m], x);
    ClosedHidesBelow(ns, openedTopics, j, cs[m], x);
  }

  lemma {:induction false} VisibleListIs(ns: seq<Node>, openedTopics: set<string>, prefix: seq<string>, j: nat, cs: seq<nat>)
    requires WellFormed(ns) && ChildrenOf(ns, j, cs) && prefix == Path(ns, j)
    requires j == Root || (Topic(ns, j) in openedTopics && Shown(ns, openedTopics, j))
    ensures VisibleList(ns, openedTopics, prefix, j, cs) == TopicsOf(ns, ShownOnly(ns, openedTopics, PreOrderList(ns, j, cs)))
    decreases |ns| - j, 0, |cs|
  {
    if |cs| > 0 {
      var c := cs[0];
      ChildrenOfTail(ns, j, cs);
      PathOfChild(ns, j, c);
      VisibleFromIs(ns, openedTopics, prefix, c);
      VisibleListIs(ns, openedTopics, prefix, j, cs[1..]);
      ShownOnlyAppend(ns, openedTopics, PreOrder(ns, c), PreOrderList(ns, j, cs[1..]));
      TopicsOfAppend(ns, ShownOnly(ns, openedTopics, PreOrder(ns, c)), ShownOnly(ns, openedTopics, PreOrderList(ns, j, cs[1..])));
    }
  }

  /** Without a query, the visible topics are the topics of the shown nodes
      in pre-order: a child of the root is always listed, and the children
      of a node follow it only when its topic is opened. */
  lemma VisibleUnfiltered(ns: seq<Node>, openedTopics: set<string>)
    requires WellFormed(ns)
    ensures VisibleTopics(ns, openedTopics, None) == TopicsOf(ns, ShownOnly(ns, openedTopics, PreOrder(ns, Root)))
  {
    var cs := ns[Root].children;
    ChildrenOfNode(ns, Root);
    VisibleListIs(ns, openedTopics, [], Root, cs);
    ShownOnlyAppend(ns, openedTopics, [Root], PreOrderList(ns, Root, cs));
  }

  /** Without a query, the topic of a node is visible exactly when the node
      is shown. */
  lemma VisibleMember(ns: seq<Node>, openedTopics: set<string>, x: nat)
    requires WellFormed(ns) && 0 < x < |ns|
    ensures Topic(ns, x) in VisibleTopics(ns, openedTopics, None) <==> Shown(ns, openedTopics, x)
  {
    VisibleUnfiltered(ns, openedTopics);
    ShownOnlyMember(ns, openedTopics, PreOrder(ns, Root));
    var shown := ShownOnly(ns, openedTopics, PreOrder(ns, Root));
    var vis := TopicsOf(ns, shown);
    if Shown(ns, openedTopics, x) {
      DescendsRoot(ns, x);
      PreOrderComplete(ns, Root, x);
      var m :| 0 <= m < |shown| && shown[m] == x;
      assert vis[m] == Topic(ns, x);
    }
    if Topic(ns, x) in vis {
      var m :| 0 <= m < |vis| && vis[m] == Topic(ns, x);
      var y := shown[m];
      assert y in shown;
      PreOrderSound(ns, Root, y);
      TopicInjective(ns, x, y);
    }
  }

  /** With a query, a visible topic is one of the unfiltered ones that the
      query matches; an empty query hides everything. */
  lemma VisibleFiltered(ns: seq<Node>, openedTopics: set<string>, q: set<string>, t: string)
    ensures t in VisibleTopics(ns, openedTopics, Some(q)) <==> t in VisibleTopics(ns, openedTopics, None) && Matches(q, t)
    ensures VisibleTopics(ns, openedTopics, Some({})) == []
  {
    EmptyQueryKeepsNothing(VisibleTopics(ns, openedTopics, None));
  }
}
