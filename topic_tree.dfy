/** The arena behind the topic history: a flat store of topic nodes addressed
    by stable identifiers (their position in the store), each holding its
    leaf segment, its message history, its parent and its ordered children.
    Node 0 is the root, whose leaf is empty and which is never published to. */
module TopicTree {

  import opened Wrappers
  import opened Strings

  /** Interpretation of a payload, fixed once when the message arrives. */
  datatype Payload = Text(text: string) | Json(dump: string) | NotUtf8(error: string)

  /** One received message; the time is supplied by the caller. */
  datatype HistoryEntry = HistoryEntry(time: int, payload: Payload)

  /** A topic segment: `foo/bar` has the leaf `bar`. */
  datatype Node = Node(leaf: string, history: seq<HistoryEntry>, parent: nat, children: seq<nat>)

  const Root: nat := 0

  /** Node `x` exists and has received at least one message. */
  predicate HasHistory(ns: seq<Node>, x: nat)
  {
    x < |ns| && |ns[x].history| > 0
  }

  /** The leaves of the nodes `cs`, in order. */
  function LeavesOf(ns: seq<Node>, cs: seq<nat>): (ls: seq<string>)
    ensures |ls| == |cs|
    ensures forall m :: 0 <= m < |cs| && cs[m] < |ns| ==> ls[m] == ns[cs[m]].leaf
  {
    seq(|cs|, m requires 0 <= m < |cs| => if cs[m] < |ns| then ns[cs[m]].leaf else "")
  }

  /** Children are stored after their parent, so every downward walk ends. */
  ghost predicate Arena(ns: seq<Node>)
  {
    forall i, k {:trigger ns[i].children[k]} ::
      0 <= i < |ns| && 0 <= k < |ns[i].children| ==> i < ns[i].children[k] < |ns|
  }

  /** The invariant at one node: its leaf is a topic segment (no slash), it
      is listed among its parent's children (the root has no parent), each of
      its children links back to it, and its children are strictly sorted by
      leaf, hence unique. */
  ghost predicate NodeOk(ns: seq<Node>, i: nat)
    requires i < |ns|
  {
    && '/' !in ns[i].leaf
    && (i != Root ==> ns[i].parent < i && i in ns[ns[i].parent].children)
    && (forall k :: 0 <= k < |ns[i].children| ==>
          i < ns[i].children[k] < |ns| && ns[ns[i].children[k]].parent == i)
    && StrictlySorted(LeavesOf(ns, ns[i].children))
  }

  /** The tree invariant: a root with an empty leaf and every node in order. */
  ghost predicate WellFormed(ns: seq<Node>)
  {
    && |ns| > 0 && ns[Root].leaf == ""
    && Arena(ns)
    && (forall i :: 0 <= i < |ns| ==> NodeOk(ns, i))
  }

  /** The child of `x` whose leaf is `s` (Rust: `children().find(|o| o.leaf == s)`). */
  function ChildNamed(ns: seq<Node>, x: nat, s: string): (r: Option<nat>)
  {
    if x >= |ns| then None
    else match IndexOf(LeavesOf(ns, ns[x].children), s)
      case None => None
      case Some(k) => Some(ns[x].children[k])
  }

  /** Follow the segments `parts` downwards from `x`. */
  function Walk(ns: seq<Node>, x: nat, parts: seq<string>): (r: Option<nat>)
    decreases |parts|
  {
    if |parts| == 0 then Some(x)
    else match ChildNamed(ns, x, parts[0])
      case None => None
      case Some(c) => Walk(ns, c, parts[1..])
  }

  /** The segments from the root down to `j`, read off the parent links. */
  function Path(ns: seq<Node>, j: nat): seq<string>
    decreases j
  {
    if j == Root || j >= |ns| then []
    else if ns[j].parent >= j then [ns[j].leaf]
    else Path(ns, ns[j].parent) + [ns[j].leaf]
  }

  /** The full topic of node `j`. */
  function Topic(ns: seq<Node>, j: nat): string
  {
    Join(Path(ns, j))
  }

  /** `ns'` is `ns` grown by insertions: old nodes keep their leaf, parent and
      history, new nodes have no history yet. */
  ghost predicate Extends(ns: seq<Node>, ns': seq<Node>)
  {
    && |ns| <= |ns'|
    && (forall i :: 0 <= i < |ns| ==>
          ns'[i].leaf == ns[i].leaf && ns'[i].parent == ns[i].parent && ns'[i].history == ns[i].history)
    && (forall i :: |ns| <= i < |ns'| ==> ns'[i].history == [])
  }

  /** Growing twice is growing. */
  lemma ExtendsTrans(a: seq<Node>, b: seq<Node>, c: seq<Node>)
    requires Extends(a, b) && Extends(b, c)
    ensures Extends(a, c)
  {
  }

  /** A found child is a real child: stored after `x`, linked back to it and
      carrying the leaf asked for. */
  lemma ChildNamedIsChild(ns: seq<Node>, x: nat, s: string)
    requires WellFormed(ns)
    requires ChildNamed(ns, x, s).Some?
    ensures var c := ChildNamed(ns, x, s).value;
      x < c < |ns| && ns[c].parent == x && ns[c].leaf == s && c in ns[x].children
  {
    assert NodeOk(ns, x);
    var ls := LeavesOf(ns, ns[x].children);
    var k := IndexOf(ls, s).value;
    assert ns[x].children[k] < |ns|;
  }

  /** Every non-root node is the child of its parent named by its leaf. */
  lemma ChildNamedOfParent(ns: seq<Node>, j: nat)
    requires WellFormed(ns) && 0 < j < |ns|
    ensures ChildNamed(ns, ns[j].parent, ns[j].leaf) == Some(j)
  {
    assert NodeOk(ns, j);
    var p := ns[j].parent;
    assert NodeOk(ns, p);
    var cs := ns[p].children;
    var ls := LeavesOf(ns, cs);
    var m :| 0 <= m < |cs| && cs[m] == j;
    forall q | 0 <= q < m
      ensures ls[q] != ns[j].leaf
    {
      SortedDistinct(ls, q, m);
    }
    IndexOfIs(ls, ns[j].leaf, m);
  }

  /** Walking `a + b` is walking `a` then `b`. */
  lemma {:induction false} WalkAppend(ns: seq<Node>, x: nat, a: seq<string>, b: seq<string>)
    ensures Walk(ns, x, a + b) == match Walk(ns, x, a) case None => None case Some(y) => Walk(ns, y, b)
    decreases |a|
  {
    if |a| == 0 {
      assert a + b == b;
    } else {
      assert (a + b)[1..] == a[1..] + b;
      match ChildNamed(ns, x, a[0])
      case None =>
      case Some(c) => WalkAppend(ns, c, a[1..], b);
    }
  }

  /** One more segment: walking to `p` and then to its child named `part`. */
  lemma WalkStep(ns: seq<Node>, a: seq<string>, part: string, p: nat, c: nat)
    requires Walk(ns, Root, a) == Some(p) && ChildNamed(ns, p, part) == Some(c)
    ensures Walk(ns, Root, a + [part]) == Some(c)
  {
    WalkAppend(ns, Root, a, [part]);
    assert Walk(ns, c, []) == Some(c);
  }

  /** A walk from `x` along `parts` ends at a node whose path is `x`'s path
      followed by `parts`. */
  lemma {:induction false} WalkPath(ns: seq<Node>, x: nat, parts: seq<string>)
    requires WellFormed(ns) && x < |ns|
    requires Walk(ns, x, parts).Some?
    ensures Walk(ns, x, parts).value < |ns|
    ensures Path(ns, Walk(ns, x, parts).value) == Path(ns, x) + parts
    decreases |parts|
  {
    if |parts| == 0 {
      assert Path(ns, x) + parts == Path(ns, x);
    } else {
      var c := ChildNamed(ns, x, parts[0]).value;
      ChildNamedIsChild(ns, x, parts[0]);
      assert Walk(ns, x, parts) == Walk(ns, c, parts[1..]);
      assert Path(ns, c) == Path(ns, x) + [parts[0]];
      WalkPath(ns, c, parts[1..]);
      AppendHead(Path(ns, x), parts);
    }
  }

  /** Walking a node's path from the root reaches that node. */
  lemma {:induction false} PathWalk(ns: seq<Node>, j: nat)
    requires WellFormed(ns) && j < |ns|
    ensures Walk(ns, Root, Path(ns, j)) == Some(j)
    decreases j
  {
    if j != Root {
      assert NodeOk(ns, j);
      var p := ns[j].parent;
      PathWalk(ns, p);
      WalkAppend(ns, Root, Path(ns, p), [ns[j].leaf]);
      ChildNamedOfParent(ns, j);
      assert Walk(ns, j, []) == Some(j);
    }
  }

  /** Paths are made of leaves, so they hold no slash, and every non-root
      node has a path of at least one segment. */
  lemma {:induction false} PathShape(ns: seq<Node>, j: nat)
    requires WellFormed(ns) && j < |ns|
    ensures NoSlash(Path(ns, j))
    ensures j != Root <==> |Path(ns, j)| >= 1
    decreases j
  {
    assert NodeOk(ns, j);
    if j != Root {
      PathShape(ns, ns[j].parent);
    }
  }

  /** The topic of a node, split, is its path. */
  lemma TopicSplit(ns: seq<Node>, j: nat)
    requires WellFormed(ns) && 0 < j < |ns|
    ensures Split(Topic(ns, j)) == Path(ns, j)
  {
    PathShape(ns, j);
    SplitJoin(Path(ns, j));
  }

  /** Walking the split of a topic from the root ends at a node with that
      topic. */
  lemma WalkTopic(ns: seq<Node>, t: string)
    requires WellFormed(ns)
    requires Walk(ns, Root, Split(t)).Some?
    ensures var j := Walk(ns, Root, Split(t)).value; 0 < j < |ns| && Topic(ns, j) == t
  {
    WalkPath(ns, Root, Split(t));
    var j := Walk(ns, Root, Split(t)).value;
    assert Path(ns, j) == Split(t);
    PathShape(ns, j);
    JoinSplit(t);
  }

  /** Different non-root nodes have different topics. */
  lemma TopicInjective(ns: seq<Node>, i: nat, j: nat)
    requires WellFormed(ns) && 0 < i < |ns| && 0 < j < |ns|
    requires Topic(ns, i) == Topic(ns, j)
    ensures i == j
  {
    TopicSplit(ns, i);
    TopicSplit(ns, j);
    PathWalk(ns, i);
    PathWalk(ns, j);
  }

  /** Growing the arena leaves the paths of old nodes as they were. */
  lemma {:induction false} PathExtends(ns: seq<Node>, ns': seq<Node>, j: nat)
    requires Extends(ns, ns') && j < |ns|
    ensures Path(ns', j) == Path(ns, j)
    decreases j
  {
    if j != Root && ns[j].parent < j {
      PathExtends(ns, ns', ns[j].parent);
    }
  }

  /** The arena after inserting a new node with leaf `part` as the `k`-th
      child of `p` (ego_tree's `insert_before` the `k`-th child, or `append`
      when `k` is past the last child); the new node gets the next free id. */
  function Inserted(ns: seq<Node>, p: nat, k: nat, part: string): seq<Node>
    requires p < |ns| && k <= |ns[p].children|
  {
    var cs := ns[p].children;
    ns[p := ns[p].(children := cs[..k] + [|ns|] + cs[k..])] + [Node(part, [], p, [])]
  }

  /** The precondition of an insertion at the sorted position `k` under `p`:
      every child before `k` sorts below `part`, the `k`-th (if any) above. */
  ghost predicate SortedSlot(ns: seq<Node>, p: nat, k: nat, part: string)
    requires p < |ns|
  {
    var ls := LeavesOf(ns, ns[p].children);
    && k <= |ls| && '/' !in part
    && (forall m :: 0 <= m < k ==> Below(ls[m], part))
    && (k < |ls| ==> Below(part, ls[k]))
  }

  /** The parent's children after the insertion hold the new leaf in order. */
  lemma InsertedLeaves(ns: seq<Node>, p: nat, k: nat, part: string)
    requires WellFormed(ns) && p < |ns| && SortedSlot(ns, p, k, part)
    ensures var ns' := Inserted(ns, p, k, part);
      var ls := LeavesOf(ns, ns[p].children);
      && LeavesOf(ns', ns'[p].children) == ls[..k] + [part] + ls[k..]
      && StrictlySorted(LeavesOf(ns', ns'[p].children))
      && part !in ls
  {
    var ns' := Inserted(ns, p, k, part);
    var ls := LeavesOf(ns, ns[p].children);
    assert NodeOk(ns, p);
    SortedInsert(ls, k, part);
    assert LeavesOf(ns', ns'[p].children) == ls[..k] + [part] + ls[k..];
  }

  /** Inserting at the sorted position keeps every node in order. */
  lemma InsertedNodeOk(ns: seq<Node>, p: nat, k: nat, part: string, i: nat)
    requires WellFormed(ns) && p < |ns| && SortedSlot(ns, p, k, part)
    requires i <= |ns|
    ensures NodeOk(Inserted(ns, p, k, part), i)
  {
    if i == |ns| {
      InsertedNewNodeOk(ns, p, k, part);
    } else if i == p {
      InsertedParentOk(ns, p, k, part);
    } else {
      InsertedOtherOk(ns, p, k, part, i);
    }
  }

  /** The new node is a child of `p` without children of its own. */
  lemma InsertedNewNodeOk(ns: seq<Node>, p: nat, k: nat, part: string)
    requires WellFormed(ns) && p < |ns| && SortedSlot(ns, p, k, part)
    ensures NodeOk(Inserted(ns, p, k, part), |ns|)
  {
    var ns' := Inserted(ns, p, k, part);
    var cs := ns[p].children;
    var cs' := cs[..k] + [|ns|] + cs[k..];
    assert ns'[p].children == cs';
    assert cs'[k] == |ns|;
    assert LeavesOf(ns', []) == [];
  }

  /** The parent keeps its place and its children stay sorted, the new one
      included. */
  lemma InsertedParentOk(ns: seq<Node>, p: nat, k: nat, part: string)
    requires WellFormed(ns) && p < |ns| && SortedSlot(ns, p, k, part)
    ensures NodeOk(Inserted(ns, p, k, part), p)
  {
    var ns' := Inserted(ns, p, k, part);
    var cs := ns[p].children;
    var cs' := cs[..k] + [|ns|] + cs[k..];
    assert ns'[p].children == cs';
    assert NodeOk(ns, p);
    InsertedLeaves(ns, p, k, part);
    forall m | 0 <= m < |cs'|
      ensures p < cs'[m] < |ns'| && ns'[cs'[m]].parent == p
    {
      if m < k {
        assert cs'[m] == cs[m];
      } else if m > k {
        assert cs'[m] == cs[m - 1];
      }
    }
    if p != Root {
      var q := ns[p].parent;
      assert p in ns[q].children;
      assert q != p;
      assert ns'[q].children == ns[q].children;
    }
  }

  /** Every other node keeps its leaf, its children and its place. */
  lemma InsertedOtherOk(ns: seq<Node>, p: nat, k: nat, part: string, i: nat)
    requires WellFormed(ns) && p < |ns| && SortedSlot(ns, p, k, part)
    requires i < |ns| && i != p
    ensures NodeOk(Inserted(ns, p, k, part), i)
  {
    var ns' := Inserted(ns, p, k, part);
    var cs := ns[p].children;
    var cs' := cs[..k] + [|ns|] + cs[k..];
    assert ns'[p].children == cs';
    assert NodeOk(ns, i);
    assert ns'[i] == ns[i];
    assert LeavesOf(ns', ns'[i].children) == LeavesOf(ns, ns[i].children);
    if i != Root {
      var q := ns[i].parent;
      assert i in ns[q].children;
      if q == p {
        var m :| 0 <= m < |cs| && cs[m] == i;
        if m < k {
          assert cs'[m] == i;
        } else {
          assert cs'[m + 1] == i;
        }
      } else {
        assert ns'[q] == ns[q];
      }
    }
  }

  /** Inserting at the sorted position keeps the tree well formed and only
      grows the arena. */
  lemma InsertedWellFormed(ns: seq<Node>, p: nat, k: nat, part: string)
    requires WellFormed(ns) && p < |ns| && SortedSlot(ns, p, k, part)
    ensures WellFormed(Inserted(ns, p, k, part))
    ensures Extends(ns, Inserted(ns, p, k, part))
  {
    var ns' := Inserted(ns, p, k, part);
    forall i | 0 <= i < |ns'|
      ensures NodeOk(ns', i)
    {
      InsertedNodeOk(ns, p, k, part, i);
    }
    forall i, m | 0 <= i < |ns'| && 0 <= m < |ns'[i].children|
      ensures i < ns'[i].children[m] < |ns'|
    {
      assert NodeOk(ns', i);
    }
  }

  /** After the insertion `part` names the new node under `p`; it named
      nothing before. */
  lemma InsertedLookupNew(ns: seq<Node>, p: nat, k: nat, part: string)
    requires WellFormed(ns) && p < |ns| && SortedSlot(ns, p, k, part)
    ensures ChildNamed(ns, p, part) == None
    ensures ChildNamed(Inserted(ns, p, k, part), p, part) == Some(|ns|)
  {
    var ns' := Inserted(ns, p, k, part);
    var cs' := ns'[p].children;
    var ls' := LeavesOf(ns', cs');
    InsertedLeaves(ns, p, k, part);
    assert cs'[k] == |ns|;
    forall q | 0 <= q < k
      ensures ls'[q] != part
    {
      SortedDistinct(ls', q, k);
    }
    IndexOfIs(ls', part, k);
  }

  /** A lookup that succeeded before the insertion still finds the same node. */
  lemma InsertedLookupKept(ns: seq<Node>, p: nat, k: nat, part: string, x: nat, s: string)
    requires WellFormed(ns) && p < |ns| && SortedSlot(ns, p, k, part)
    requires ChildNamed(ns, x, s).Some?
    ensures ChildNamed(Inserted(ns, p, k, part), x, s) == ChildNamed(ns, x, s)
  {
    if x == p {
      InsertedLookupKeptAtParent(ns, p, k, part, s);
    } else {
      var ns' := Inserted(ns, p, k, part);
      assert NodeOk(ns, x);
      assert ns'[x].children == ns[x].children;
      assert LeavesOf(ns', ns'[x].children) == LeavesOf(ns, ns[x].children);
    }
  }

  lemma InsertedLookupKeptAtParent(ns: seq<Node>, p: nat, k: nat, part: string, s: string)
    requires WellFormed(ns) && p < |ns| && SortedSlot(ns, p, k, part)
    requires ChildNamed(ns, p, s).Some?
    ensures ChildNamed(Inserted(ns, p, k, part), p, s) == ChildNamed(ns, p, s)
  {
    var ns' := Inserted(ns, p, k, part);
    var cs := ns[p].children;
    var cs' := ns'[p].children;
    var ls := LeavesOf(ns, cs);
    var ls' := LeavesOf(ns', cs');
    InsertedLeaves(ns, p, k, part);
    assert cs' == cs[..k] + [|ns|] + cs[k..];
    var m := IndexOf(ls, s).value;
    var m' := if m < k then m else m + 1;
    InsertIndex(cs, k, |ns|, m);
    InsertIndex(ls, k, part, m);
    assert cs'[m'] == cs[m] && ls'[m'] == ls[m];
    StrictlySortedDistinctAt(ls', m', s);
    IndexOfIs(ls', s, m');
  }

  /** In a strictly sorted list, nothing before the position of `s` is `s`. */
  lemma StrictlySortedDistinctAt(ls: seq<string>, m: nat, s: string)
    requires StrictlySorted(ls) && m < |ls| && ls[m] == s
    ensures forall q :: 0 <= q < m ==> ls[q] != s
  {
    forall q | 0 <= q < m
      ensures ls[q] != s
    {
      SortedDistinct(ls, q, m);
    }
  }

  /** Insertions do not change where old successful walks end. */
  lemma {:induction false} WalkKept(ns: seq<Node>, p: nat, k: nat, part: string, x: nat, parts: seq<string>)
    requires WellFormed(ns) && p < |ns| && SortedSlot(ns, p, k, part)
    requires Walk(ns, x, parts).Some?
    ensures Walk(Inserted(ns, p, k, part), x, parts) == Walk(ns, x, parts)
    decreases |parts|
  {
    if |parts| > 0 {
      InsertedLookupKept(ns, p, k, part, x, parts[0]);
      WalkKept(ns, p, k, part, ChildNamed(ns, x, parts[0]).value, parts[1..]);
    }
  }

  /** One segment of the ingestion walk, as a pure step: under `p`, the first
      child whose leaf does not sort below `part` is taken when its leaf is
      `part`; otherwise a new child `part` is inserted in front of it (or
      appended), and the walk moves to it. */
  function Step(ns: seq<Node>, p: nat, part: string): (seq<Node>, nat)
    requires p < |ns|
  {
    var cs := ns[p].children;
    var ls := LeavesOf(ns, cs);
    var k := FirstNotBelow(ls, part);
    if k < |cs| && ls[k] == part then (ns, cs[k]) else (Inserted(ns, p, k, part), |ns|)
  }

  /** The whole ingestion walk from `x` along `parts`: the arena it leaves and
      the node it ends at. */
  function Ingested(ns: seq<Node>, x: nat, parts: seq<string>): (seq<Node>, nat)
    decreases |parts|
  {
    if |parts| == 0 || x >= |ns| then (ns, x)
    else
      var next := Step(ns, x, parts[0]);
      Ingested(next.0, next.1, parts[1..])
  }

  /** When `part` already names a child of `p`, the step goes to that child
      and leaves the arena alone: in sorted children the first leaf not below
      `part` is `part` itself. */
  lemma StepFound(ns: seq<Node>, p: nat, part: string)
    requires WellFormed(ns) && p < |ns| && ChildNamed(ns, p, part).Some?
    ensures Step(ns, p, part) == (ns, ChildNamed(ns, p, part).value)
  {
    assert NodeOk(ns, p);
    var cs := ns[p].children;
    var ls := LeavesOf(ns, cs);
    var k := FirstNotBelow(ls, part);
    var m := IndexOf(ls, part).value;
    BelowIrreflexive(part);
    assert k == m;
  }

  /** When no child of `p` is named `part`, the step inserts one at the
      sorted slot and moves to it, the next free id. */
  lemma StepNew(ns: seq<Node>, p: nat, part: string)
    requires WellFormed(ns) && p < |ns| && '/' !in part && ChildNamed(ns, p, part).None?
    ensures var k := FirstNotBelow(LeavesOf(ns, ns[p].children), part);
      && SortedSlot(ns, p, k, part)
      && Step(ns, p, part) == (Inserted(ns, p, k, part), |ns|)
  {
    var ls := LeavesOf(ns, ns[p].children);
    var k := FirstNotBelow(ls, part);
    assert part !in ls;
    if k < |ls| {
      BelowTotal(ls[k], part);
    }
  }

  /** Walks that succeed in `ns` end at the same node in `ns'`. */
  ghost predicate KeepsWalks(ns: seq<Node>, ns': seq<Node>)
  {
    forall y: nat, ps: seq<string> :: Walk(ns, y, ps).Some? ==> Walk(ns', y, ps) == Walk(ns, y, ps)
  }

  /** A step keeps the tree well formed, only grows the arena, keeps every
      walk that succeeded, and ends at the child of `p` named `part`. */
  lemma StepChild(ns: seq<Node>, p: nat, part: string)
    requires WellFormed(ns) && p < |ns| && '/' !in part
    ensures var r := Step(ns, p, part);
      && WellFormed(r.0) && Extends(ns, r.0) && r.1 < |r.0|
      && ChildNamed(r.0, p, part) == Some(r.1) && KeepsWalks(ns, r.0)
  {
    if ChildNamed(ns, p, part).Some? {
      StepFound(ns, p, part);
      ChildNamedIsChild(ns, p, part);
    } else {
      StepNew(ns, p, part);
      var k := FirstNotBelow(LeavesOf(ns, ns[p].children), part);
      InsertedWellFormed(ns, p, k, part);
      InsertedLookupNew(ns, p, k, part);
      forall y: nat, ps: seq<string> | Walk(ns, y, ps).Some?
        ensures Walk(Inserted(ns, p, k, part), y, ps) == Walk(ns, y, ps)
      {
        WalkKept(ns, p, k, part, y, ps);
      }
    }
  }

  /** The ingestion walk keeps the tree well formed, only grows the arena and
      keeps every walk that succeeded. */
  lemma {:induction false} IngestedGrows(ns: seq<Node>, x: nat, parts: seq<string>)
    requires WellFormed(ns) && x < |ns| && NoSlash(parts)
    ensures var r := Ingested(ns, x, parts);
      WellFormed(r.0) && Extends(ns, r.0) && r.1 < |r.0| && KeepsWalks(ns, r.0)
    decreases |parts|
  {
    if |parts| > 0 {
      var next := Step(ns, x, parts[0]);
      StepChild(ns, x, parts[0]);
      NoSlashTail(parts);
      IngestedGrows(next.0, next.1, parts[1..]);
      ExtendsTrans(ns, next.0, Ingested(ns, x, parts).0);
    }
  }

  lemma NoSlashTail(parts: seq<string>)
    requires NoSlash(parts) && |parts| > 0
    ensures '/' !in parts[0] && NoSlash(parts[1..])
  {
    assert forall i :: 0 <= i < |parts[1..]| ==> parts[1..][i] == parts[i + 1];
  }

  /** The ingestion walk ends at the node the segments name from `x`. */
  lemma {:induction false} IngestedWalks(ns: seq<Node>, x: nat, parts: seq<string>)
    requires WellFormed(ns) && x < |ns| && NoSlash(parts)
    ensures var r := Ingested(ns, x, parts); Walk(r.0, x, parts) == Some(r.1)
    decreases |parts|
  {
    if |parts| > 0 {
      var next := Step(ns, x, parts[0]);
      StepChild(ns, x, parts[0]);
      NoSlashTail(parts);
      IngestedWalks(next.0, next.1, parts[1..]);
      IngestedGrows(next.0, next.1, parts[1..]);
      var r := Ingested(ns, x, parts);
      assert Walk(next.0, x, [parts[0]]) == Some(next.1);
      assert Walk(r.0, x, [parts[0]]) == Some(next.1);
    }
  }

  /** A walk that already succeeds changes nothing: ingestion follows it and
      ends where it ends. */
  lemma {:induction false} IngestedFound(ns: seq<Node>, x: nat, parts: seq<string>)
    requires WellFormed(ns) && x < |ns| && Walk(ns, x, parts).Some?
    ensures Ingested(ns, x, parts) == (ns, Walk(ns, x, parts).value)
    decreases |parts|
  {
    if |parts| > 0 {
      StepFound(ns, x, parts[0]);
      ChildNamedIsChild(ns, x, parts[0]);
      IngestedFound(ns, ChildNamed(ns, x, parts[0]).value, parts[1..]);
    }
  }

  /** After a step the children of `p` are still strictly sorted, and their
      leaves are the old ones plus `part`. */
  lemma StepLeaves(ns: seq<Node>, p: nat, part: string)
    requires WellFormed(ns) && p < |ns| && '/' !in part
    ensures var r := Step(ns, p, part);
      var ls := LeavesOf(r.0, r.0[p].children);
      && StrictlySorted(ls)
      && (forall x :: x in ls <==> x in LeavesOf(ns, ns[p].children) || x == part)
  {
    assert NodeOk(ns, p);
    if ChildNamed(ns, p, part).Some? {
      StepFound(ns, p, part);
    } else {
      StepNew(ns, p, part);
      var k := FirstNotBelow(LeavesOf(ns, ns[p].children), part);
      InsertedLeaves(ns, p, k, part);
      InsertedWellFormed(ns, p, k, part);
      var ls := LeavesOf(ns, ns[p].children);
      assert ls == ls[..k] + ls[k..];
    }
  }

  /** Under one parent, the order of the children does not depend on the
      order in which their segments arrived: two steps in either order leave
      the same leaves in the same order. */
  lemma StepsCommute(ns: seq<Node>, p: nat, a: string, b: string)
    requires WellFormed(ns) && p < |ns| && '/' !in a && '/' !in b
    ensures var ab := Step(Step(ns, p, a).0, p, b).0;
      var ba := Step(Step(ns, p, b).0, p, a).0;
      LeavesOf(ab, ab[p].children) == LeavesOf(ba, ba[p].children)
  {
    var na := Step(ns, p, a).0;
    var nb := Step(ns, p, b).0;
    StepChild(ns, p, a);
    StepChild(ns, p, b);
    StepLeaves(ns, p, a);
    StepLeaves(ns, p, b);
    StepLeaves(na, p, b);
    StepLeaves(nb, p, a);
    var ab := Step(na, p, b).0;
    var ba := Step(nb, p, a).0;
    SortedSameElements(LeavesOf(ab, ab[p].children), LeavesOf(ba, ba[p].children));
  }
}
