/** Subtrees of the topic arena: the pre-order listing of a node and its
    descendants (ego_tree's `traverse`, keeping the `Open` edges), and what
    that listing contains. */
module Subtree {

  import opened Strings
  import opened TopicTree

  /** `x` is `j` or lies below it, following parent links upwards. */
  predicate Descends(ns: seq<Node>, x: nat, j: nat)
    decreases x
  {
    x == j || (x != Root && x < |ns| && ns[x].parent < x && Descends(ns, ns[x].parent, j))
  }

  /** Node `j` followed by the pre-order listings of its children, in order. */
  function PreOrder(ns: seq<Node>, j: nat): seq<nat>
    decreases |ns| - j, 1
  {
    if j >= |ns| then [] else [j] + PreOrderList(ns, j, ns[j].children)
  }

  /** The pre-order listings of the children `cs` of `j`, one after another. */
  function PreOrderList(ns: seq<Node>, j: nat, cs: seq<nat>): seq<nat>
    decreases |ns| - j, 0, |cs|
  {
    if |cs| == 0 then []
    else (if j < cs[0] < |ns| then PreOrder(ns, cs[0]) else []) + PreOrderList(ns, j, cs[1..])
  }

  /** No element occurs twice. */
  predicate Distinct(s: seq<nat>)
  {
    forall a, b :: 0 <= a < b < |s| ==> s[a] != s[b]
  }

  /** The children `cs` of `j` as the tree invariant lays them out: distinct,
      stored after `j` and linked back to it. */
  ghost predicate ChildrenOf(ns: seq<Node>, j: nat, cs: seq<nat>)
  {
    && Distinct(cs)
    && forall m :: 0 <= m < |cs| ==> j < cs[m] < |ns| && ns[cs[m]].parent == j
  }

  lemma ChildrenOfNode(ns: seq<Node>, j: nat)
    requires WellFormed(ns) && j < |ns|
    ensures ChildrenOf(ns, j, ns[j].children)
  {
    assert NodeOk(ns, j);
    var cs := ns[j].children;
    var ls := LeavesOf(ns, cs);
    forall a, b | 0 <= a < b < |cs|
      ensures cs[a] != cs[b]
    {
      SortedDistinct(ls, a, b);
    }
  }

  lemma ChildrenOfTail(ns: seq<Node>, j: nat, cs: seq<nat>)
    requires ChildrenOf(ns, j, cs) && |cs| > 0
    ensures ChildrenOf(ns, j, cs[1..]) && cs[0] !in cs[1..]
  {
    assert forall m :: 0 <= m < |cs[1..]| ==> cs[1..][m] == cs[m + 1];
  }

  /** A descendant is never stored before its ancestor. */
  lemma {:induction false} DescendsAtLeast(ns: seq<Node>, x: nat, j: nat)
    requires Descends(ns, x, j)
    ensures j <= x
    decreases x
  {
    if x != j {
      DescendsAtLeast(ns, ns[x].parent, j);
    }
  }

  /** What lies below a child of `j` lies below `j`. */
  lemma {:induction false} DescendsThroughChild(ns: seq<Node>, x: nat, c: nat, j: nat)
    requires Descends(ns, x, c) && c < |ns| && ns[c].parent == j && j < c
    ensures Descends(ns, x, j)
    decreases x
  {
    if x != c {
      DescendsThroughChild(ns, ns[x].parent, c, j);
    }
  }

  /** A node lies below at most one child of any node. */
  lemma {:induction false} DescendsOneChild(ns: seq<Node>, x: nat, a: nat, b: nat, j: nat)
    requires Descends(ns, x, a) && Descends(ns, x, b)
    requires a < |ns| && b < |ns| && ns[a].parent == j && ns[b].parent == j && j < a && j < b
    ensures a == b
    decreases x
  {
    if x == a {
      if a != b {
        DescendsAtLeast(ns, j, b);
      }
    } else if x == b {
      DescendsAtLeast(ns, j, a);
    } else {
      DescendsOneChild(ns, ns[x].parent, a, b, j);
    }
  }

  /** Every node lies below the root. */
  lemma {:induction false} DescendsRoot(ns: seq<Node>, x: nat)
    requires WellFormed(ns) && x < |ns|
    ensures Descends(ns, x, Root)
    decreases x
  {
    if x != Root {
      assert NodeOk(ns, x);
      DescendsRoot(ns, ns[x].parent);
    }
  }

  /** Membership in the listing of several children is membership in the
      listing of one of them. */
  lemma {:induction false} PreOrderListMember(ns: seq<Node>, j: nat, cs: seq<nat>, x: nat)
    ensures x in PreOrderList(ns, j, cs) <==>
              exists m :: 0 <= m < |cs| && j < cs[m] < |ns| && x in PreOrder(ns, cs[m])
    decreases |cs|
  {
    if |cs| > 0 {
      PreOrderListMember(ns, j, cs[1..], x);
      if x in PreOrderList(ns, j, cs[1..]) {
        var m :| 0 <= m < |cs[1..]| && j < cs[1..][m] < |ns| && x in PreOrder(ns, cs[1..][m]);
        assert cs[m + 1] == cs[1..][m];
      }
      if exists m :: 0 <= m < |cs| && j < cs[m] < |ns| && x in PreOrder(ns, cs[m]) {
        var m :| 0 <= m < |cs| && j < cs[m] < |ns| && x in PreOrder(ns, cs[m]);
        if m > 0 {
          assert cs[1..][m - 1] == cs[m];
        }
      }
    }
  }

  /** The listing of `j` holds only `j` and nodes below it. */
  lemma {:induction false} PreOrderSound(ns: seq<Node>, j: nat, x: nat)
    requires WellFormed(ns) && x in PreOrder(ns, j)
    ensures x < |ns| && Descends(ns, x, j)
    decreases |ns| - j
  {
    if x != j {
      ChildrenOfNode(ns, j);
      PreOrderListMember(ns, j, ns[j].children, x);
      var m :| 0 <= m < |ns[j].children| && j < ns[j].children[m] < |ns| && x in PreOrder(ns, ns[j].children[m]);
      var c := ns[j].children[m];
      PreOrderSound(ns, c, x);
      DescendsThroughChild(ns, x, c, j);
    }
  }

  /** The listing of `j` holds every node below `j`. */
  lemma {:induction false} PreOrderComplete(ns: seq<Node>, j: nat, x: nat)
    requires WellFormed(ns) && j < |ns| && x < |ns| && Descends(ns, x, j)
    ensures x in PreOrder(ns, j)
    decreases x
  {
    if x != j {
      var p := ns[x].parent;
      PreOrderComplete(ns, j, p);
      ChildInPreOrder(ns, j, p, x);
    }
  }

  /** A listing that holds `p` holds the children of `p`. */
  lemma {:induction false} ChildInPreOrder(ns: seq<Node>, j: nat, p: nat, x: nat)
    requires WellFormed(ns) && p in PreOrder(ns, j) && 0 < x < |ns| && ns[x].parent == p
    ensures x in PreOrder(ns, j)
    decreases |ns| - j
  {
    assert NodeOk(ns, x);
    assert NodeOk(ns, j);
    var cs := ns[j].children;
    if p == j {
      var m :| 0 <= m < |cs| && cs[m] == x;
      assert x in PreOrder(ns, x);
      PreOrderListMember(ns, j, cs, x);
    } else {
      PreOrderListMember(ns, j, cs, p);
      var m :| 0 <= m < |cs| && j < cs[m] < |ns| && p in PreOrder(ns, cs[m]);
      ChildInPreOrder(ns, cs[m], p, x);
      PreOrderListMember(ns, j, cs, x);
    }
  }

  /** The listing of `j` holds each node of the subtree exactly once. */
  lemma {:induction false} PreOrderDistinct(ns: seq<Node>, j: nat)
    requires WellFormed(ns)
    ensures Distinct(PreOrder(ns, j))
    decreases |ns| - j, 1
  {
    if j < |ns| {
      var cs := ns[j].children;
      ChildrenOfNode(ns, j);
      PreOrderListDistinct(ns, j, cs);
      var rest := PreOrderList(ns, j, cs);
      if j in rest {
        PreOrderListMember(ns, j, cs, j);
        var m :| 0 <= m < |cs| && j < cs[m] < |ns| && j in PreOrder(ns, cs[m]);
        PreOrderSound(ns, cs[m], j);
        DescendsAtLeast(ns, j, cs[m]);
      }
      DistinctAppend([j], rest);
    }
  }

  lemma {:induction false} PreOrderListDistinct(ns: seq<Node>, j: nat, cs: seq<nat>)
    requires WellFormed(ns) && ChildrenOf(ns, j, cs)
    ensures Distinct(PreOrderList(ns, j, cs))
    decreases |ns| - j, 0, |cs|
  {
    if |cs| > 0 {
      var c := cs[0];
      ChildrenOfTail(ns, j, cs);
      PreOrderDistinct(ns, c);
      PreOrderListDistinct(ns, j, cs[1..]);
      var a := PreOrder(ns, c);
      var b := PreOrderList(ns, j, cs[1..]);
      forall x | x in a && x in b
        ensures false
      {
        PreOrderListMember(ns, j, cs[1..], x);
        var m :| 0 <= m < |cs[1..]| && j < cs[1..][m] < |ns| && x in PreOrder(ns, cs[1..][m]);
        PreOrderSound(ns, c, x);
        PreOrderSound(ns, cs[1..][m], x);
        DescendsOneChild(ns, x, c, cs[1..][m], j);
      }
      DistinctAppend(a, b);
    }
  }

  lemma DistinctAppend(a: seq<nat>, b: seq<nat>)
    requires Distinct(a) && Distinct(b)
    requires forall x :: x in a ==> x !in b
    ensures Distinct(a + b)
  {
    var s := a + b;
    forall p, q | 0 <= p < q < |s|
      ensures s[p] != s[q]
    {
      if p < |a| && q >= |a| {
        assert s[q] in b;
      }
    }
  }
}
