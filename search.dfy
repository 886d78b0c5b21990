/** `search`: the topics whose leaf contains a word.  The topic of each
    match is rebuilt from the leaves above it followed by the leaf of the
    last match in pre-order (not the match's own leaf), and the walk upwards
    stops at the first ancestor with an empty leaf. */
module Search {

  import opened Wrappers
  import opened Strings
  import opened TopicTree
  import opened Subtree

  /** The nodes of `s` whose leaf contains `word`, in order. */
  function Matching(ns: seq<Node>, word: string, s: seq<nat>): seq<nat>
    decreases |s|
  {
    if |s| == 0 then []
    else (if s[0] < |ns| && Contains(ns[s[0]].leaf, word) then [s[0]] else []) + Matching(ns, word, s[1..])
  }

  /** The matches of `s` are exactly its existing nodes whose leaf contains
      `word`. */
  lemma {:induction false} MatchingMember(ns: seq<Node>, word: string, s: seq<nat>)
    ensures forall x :: x in Matching(ns, word, s) <==> x in s && x < |ns| && Contains(ns[x].leaf, word)
    decreases |s|
  {
    if |s| > 0 {
      MatchingMember(ns, word, s[1..]);
      assert forall x :: x in s <==> x == s[0] || x in s[1..];
    }
  }

  lemma {:induction false} MatchingAppend(ns: seq<Node>, word: string, a: seq<nat>, b: seq<nat>)
    ensures Matching(ns, word, a + b) == Matching(ns, word, a) + Matching(ns, word, b)
    decreases |a|
  {
    if |a| == 0 {
      assert a + b == b;
    } else {
      assert (a + b)[1..] == a[1..] + b;
      MatchingAppend(ns, word, a[1..], b);
    }
  }

  /** The leaves collected above `j`, outermost first: walking up the parent
      links until the root, which has no parent, or until a parent whose
      leaf is empty. */
  function UpLeaves(ns: seq<Node>, j: nat): seq<string>
    decreases j
  {
    if j == Root || j >= |ns| || ns[j].parent >= j then []
    else
      var p := ns[j].parent;
      if ns[p].leaf == "" then [] else UpLeaves(ns, p) + [ns[p].leaf]
  }

  /** The topic `search` builds for match `m` when the last match has leaf
      `last`. */
  function ResultTopic(ns: seq<Node>, m: nat, last: string): string
  {
    Join(UpLeaves(ns, m) + [last])
  }

  /** The leaf of the last node of `ms` (empty when there is none). */
  function LastLeaf(ns: seq<Node>, ms: seq<nat>): string
  {
    if |ms| == 0 || ms[|ms| - 1] >= |ns| then "" else ns[ms[|ms| - 1]].leaf
  }

  /** There are no rebuilt topics exactly when there are no matches. */
  lemma ResultTopicsEmpty(ns: seq<Node>, ms: seq<nat>, last: string)
    ensures ResultTopics(ns, ms, last) == {} <==> |ms| == 0
  {
    if |ms| > 0 {
      assert ResultTopic(ns, ms[0], last) in ResultTopics(ns, ms, last);
    }
  }

  /** `search(word)`: `None` when no leaf in the tree (root included)
      contains `word`; otherwise one topic per match. */
  function SearchResult(ns: seq<Node>, word: string): Option<set<string>>
  {
    var ms := Matching(ns, word, PreOrder(ns, Root));
    if |ms| == 0 then None else Some(ResultTopics(ns, ms, LastLeaf(ns, ms)))
  }

  /** One rebuilt topic per match in `ms`. */
  function ResultTopics(ns: seq<Node>, ms: seq<nat>, last: string): set<string>
  {
    set m | m in ms :: ResultTopic(ns, m, last)
  }

  /** Searching finds nothing exactly when no node's leaf contains the
      word. */
  lemma SearchNone(ns: seq<Node>, word: string)
    requires WellFormed(ns)
    ensures SearchResult(ns, word).None? <==> forall x :: 0 <= x < |ns| ==> !Contains(ns[x].leaf, word)
  {
    var ms := Matching(ns, word, PreOrder(ns, Root));
    MatchingMember(ns, word, PreOrder(ns, Root));
    if |ms| > 0 {
      assert ms[0] in ms;
      PreOrderSound(ns, Root, ms[0]);
    }
    forall x | 0 <= x < |ns| && Contains(ns[x].leaf, word)
      ensures x in ms
    {
      DescendsRoot(ns, x);
      PreOrderComplete(ns, Root, x);
    }
  }

  /** No ancestor of `j` below the root has an empty leaf. */
  predicate NamedAbove(ns: seq<Node>, j: nat)
    decreases j
  {
    j == Root || (j < |ns| && ns[j].parent < j &&
      (ns[j].parent == Root || (ns[ns[j].parent].leaf != "" && NamedAbove(ns, ns[j].parent))))
  }

  /** When no ancestor's leaf is empty, the leaves collected above a node,
      followed by its own leaf, are its path. */
  lemma {:induction false} UpLeavesPath(ns: seq<Node>, j: nat)
    requires WellFormed(ns) && 0 < j < |ns| && NamedAbove(ns, j)
    ensures UpLeaves(ns, j) + [ns[j].leaf] == Path(ns, j)
    decreases j
  {
    var p := ns[j].parent;
    if p != Root {
      UpLeavesPath(ns, p);
    }
  }

  /** The leaf of the last match in pre-order. */
  function LastMatchLeaf(ns: seq<Node>, word: string): string
  {
    LastLeaf(ns, Matching(ns, word, PreOrder(ns, Root)))
  }

  /** Every topic `search` returns ends in the leaf of the last match. */
  lemma SearchUsesLastLeaf(ns: seq<Node>, word: string, t: string)
    requires WellFormed(ns) && SearchResult(ns, word).Some? && t in SearchResult(ns, word).value
    ensures var parts := Split(t); parts[|parts| - 1] == LastMatchLeaf(ns, word)
  {
    var ms := Matching(ns, word, PreOrder(ns, Root));
    var last := LastMatchLeaf(ns, word);
    if ms[|ms| - 1] < |ns| {
      assert NodeOk(ns, ms[|ms| - 1]);
    }
    assert SearchResult(ns, word) == Some(ResultTopics(ns, ms, last));
    ResultTopicsEnd(ns, ms, last, t);
  }

  lemma ResultTopicsEnd(ns: seq<Node>, ms: seq<nat>, last: string, t: string)
    requires WellFormed(ns) && '/' !in last && t in ResultTopics(ns, ms, last)
    ensures var parts := Split(t); parts[|parts| - 1] == last
  {
    var m := ResultTopicFrom(ns, ms, last, t);
    ResultTopicEnds(ns, m, last);
  }

  /** A rebuilt topic comes from one of the matches. */
  lemma ResultTopicFrom(ns: seq<Node>, ms: seq<nat>, last: string, t: string) returns (m: nat)
    requires t in ResultTopics(ns, ms, last)
    ensures m in ms && t == ResultTopic(ns, m, last)
  {
    m :| m in ms && t == ResultTopic(ns, m, last);
  }

  /** Every match contributes the topic built from the leaves above it and
      the last match's leaf. */
  lemma SearchHasEveryMatch(ns: seq<Node>, word: string, m: nat)
    requires WellFormed(ns) && m < |ns| && Contains(ns[m].leaf, word)
    ensures SearchResult(ns, word).Some?
    ensures ResultTopic(ns, m, LastMatchLeaf(ns, word)) in SearchResult(ns, word).value
  {
    DescendsRoot(ns, m);
    PreOrderComplete(ns, Root, m);
    var ms := Matching(ns, word, PreOrder(ns, Root));
    MatchingMember(ns, word, PreOrder(ns, Root));
    assert m in ms;
  }

  lemma ResultTopicEnds(ns: seq<Node>, m: nat, last: string)
    requires WellFormed(ns) && '/' !in last
    ensures var parts := Split(ResultTopic(ns, m, last)); parts[|parts| - 1] == last
  {
    var parts := UpLeaves(ns, m) + [last];
    UpLeavesNoSlash(ns, m);
    SplitJoin(parts);
  }

  lemma {:induction false} UpLeavesNoSlash(ns: seq<Node>, j: nat)
    requires WellFormed(ns)
    ensures NoSlash(UpLeaves(ns, j))
    decreases j
  {
    if j != Root && j < |ns| && ns[j].parent < j {
      var p := ns[j].parent;
      assert NodeOk(ns, p);
      UpLeavesNoSlash(ns, p);
    }
  }

  /** With a single match whose ancestors all have leaves, `search` returns
      exactly the topic of that node. */
  lemma SearchSingleMatch(ns: seq<Node>, word: string, m: nat)
    requires WellFormed(ns) && 0 < m < |ns| && NamedAbove(ns, m)
    requires Contains(ns[m].leaf, word)
    requires forall x :: 0 <= x < |ns| && x != m ==> !Contains(ns[x].leaf, word)
    ensures SearchResult(ns, word) == Some({Topic(ns, m)})
  {
    var ms := Matching(ns, word, PreOrder(ns, Root));
    MatchingMember(ns, word, PreOrder(ns, Root));
    DescendsRoot(ns, m);
    PreOrderComplete(ns, Root, m);
    assert m in ms;
    forall x | x in ms
      ensures x == m
    {
      PreOrderSound(ns, Root, x);
    }
    assert ms[|ms| - 1] in ms;
    UpLeavesPath(ns, m);
    assert ResultTopics(ns, ms, ns[m].leaf) == {Topic(ns, m)};
  }
}
