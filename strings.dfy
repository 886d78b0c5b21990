/** Text helpers with the meaning of the Rust `str` operations the topic tree
    relies on: ordering, `starts_with`, `contains`, `split('/')` and `join("/")`. */
module Strings {

  import opened Wrappers

  /** Rust's `Ord for str`: lexicographic, element by element, a proper prefix
      sorting first.  On valid UTF-8 the byte order Rust uses and the order of
      code points agree, so comparing characters is the same relation. */
  predicate Below(a: string, b: string)
    decreases |a|
  {
    if |a| == 0 then |b| > 0
    else if |b| == 0 then false
    else a[0] < b[0] || (a[0] == b[0] && Below(a[1..], b[1..]))
  }

  lemma {:induction false} BelowIrreflexive(a: string)
    ensures !Below(a, a)
    decreases |a|
  {
    if |a| > 0 {
      BelowIrreflexive(a[1..]);
    }
  }

  lemma {:induction false} BelowTransitive(a: string, b: string, c: string)
    requires Below(a, b) && Below(b, c)
    ensures Below(a, c)
    decreases |a|
  {
    if |a| > 0 && a[0] == b[0] && b[0] == c[0] {
      BelowTransitive(a[1..], b[1..], c[1..]);
    }
  }

  /** Any two strings are equal or ordered one way or the other. */
  lemma {:induction false} BelowTotal(a: string, b: string)
    ensures a == b || Below(a, b) || Below(b, a)
    decreases |a|
  {
    if |a| > 0 && |b| > 0 && a[0] == b[0] {
      BelowTotal(a[1..], b[1..]);
      if a[1..] == b[1..] {
        assert a == [a[0]] + a[1..] && b == [b[0]] + b[1..];
      }
    }
  }

  lemma BelowAsymmetric(a: string, b: string)
    requires Below(a, b)
    ensures !Below(b, a)
  {
    if Below(b, a) {
      BelowTransitive(a, b, a);
      BelowIrreflexive(a);
    }
  }

  /** Rust's `s.starts_with(p)`. */
  predicate StartsWith(s: string, p: string)
  {
    |p| <= |s| && s[..|p|] == p
  }

  /** Rust's `s.contains(p)` for a string pattern `p`: `p` occurs somewhere in
      `s`; the empty pattern occurs everywhere. */
  predicate Contains(s: string, p: string)
    decreases |s|
  {
    StartsWith(s, p) || (|s| > 0 && Contains(s[1..], p))
  }

  /** `p` occurs in `s` at position `i`. */
  predicate OccursAt(s: string, p: string, i: int)
  {
    0 <= i && i + |p| <= |s| && s[i..i + |p|] == p
  }

  /** `Contains` is the usual "occurs at some position" relation. */
  lemma {:induction false} ContainsIffOccurs(s: string, p: string)
    ensures Contains(s, p) <==> exists i :: OccursAt(s, p, i)
    decreases |s|
  {
    if StartsWith(s, p) {
      assert OccursAt(s, p, 0);
    } else if |s| > 0 {
      ContainsIffOccurs(s[1..], p);
      if exists i :: OccursAt(s[1..], p, i) {
        var i :| OccursAt(s[1..], p, i);
        assert s[i + 1..i + 1 + |p|] == s[1..][i..i + |p|];
        assert OccursAt(s, p, i + 1);
      }
      if exists i :: OccursAt(s, p, i) {
        var i :| OccursAt(s, p, i);
        assert i != 0;
        assert s[1..][i - 1..i - 1 + |p|] == s[i..i + |p|];
        assert OccursAt(s[1..], p, i - 1);
      }
    }
  }

  /** A prefix one element longer. */
  lemma TakeOneMore<T>(s: seq<T>, i: nat)
    requires i < |s|
    ensures s[..i + 1] == s[..i] + [s[i]]
  {
  }

  /** A suffix one element shorter. */
  lemma DropOneMore<T>(s: seq<T>, i: nat)
    requires i < |s|
    ensures s[i..][0] == s[i] && s[i..][1..] == s[i + 1..]
  {
  }

  /** Rust's `s.split('/')`: never empty, and no part holds a slash. */
  function Split(s: string): (parts: seq<string>)
    ensures |parts| >= 1
    ensures forall i :: 0 <= i < |parts| ==> '/' !in parts[i]
    decreases |s|
  {
    if |s| == 0 then [""]
    else
      var init := Split(s[..|s| - 1]);
      var c := s[|s| - 1];
      if c == '/' then init + [""]
      else init[..|init| - 1] + [init[|init| - 1] + [c]]
  }

  /** `parts.join("/")`. */
  function Join(parts: seq<string>): string
    decreases |parts|
  {
    if |parts| == 0 then ""
    else if |parts| == 1 then parts[0]
    else Join(parts[..|parts| - 1]) + "/" + parts[|parts| - 1]
  }

  predicate NoSlash(parts: seq<string>)
  {
    forall i :: 0 <= i < |parts| ==> '/' !in parts[i]
  }

  /** A non-empty sequence is its front followed by its last element. */
  lemma FrontLast<T>(s: seq<T>)
    requires |s| > 0
    ensures s == s[..|s| - 1] + [s[|s| - 1]]
  {
  }

  /** Where the elements of `s` sit after inserting `x` at position `k`. */
  lemma InsertIndex<T>(s: seq<T>, k: nat, x: T, m: nat)
    requires k <= |s| && m < |s|
    ensures var t := s[..k] + [x] + s[k..];
      |t| == |s| + 1 && t[k] == x && (m < k ==> t[m] == s[m]) && (m >= k ==> t[m + 1] == s[m])
  {
  }

  lemma AppendAssoc<T>(a: seq<T>, b: seq<T>, c: seq<T>)
    ensures a + (b + c) == (a + b) + c
  {
  }

  /** Moving the first element of `s` over to `a`. */
  lemma AppendHead<T>(a: seq<T>, s: seq<T>)
    requires |s| > 0
    ensures (a + [s[0]]) + s[1..] == a + s
  {
  }

  /** Replacing the last element of `p + [x]` gives `p + [y]`. */
  lemma ReplaceLast<T>(p: seq<T>, x: T, y: T)
    ensures var q := p + [x]; q[..|q| - 1] + [y] == p + [y]
  {
    var q := p + [x];
    assert q[..|q| - 1] == p;
  }

  /** Joining one more part adds a slash and the part. */
  lemma JoinSnoc(p: seq<string>, x: string)
    requires |p| >= 1
    ensures Join(p + [x]) == Join(p) + "/" + x
  {
    var q := p + [x];
    assert q[..|q| - 1] == p;
  }

  /** Extending the last part by a character extends the join by it. */
  lemma JoinExtendLast(p: seq<string>, c: char)
    requires |p| >= 1
    ensures Join(p[..|p| - 1] + [p[|p| - 1] + [c]]) == Join(p) + [c]
  {
    var n := |p|;
    var front := p[..n - 1];
    if n == 1 {
      assert front == [];
      assert front + [p[0] + [c]] == [p[0] + [c]];
    } else {
      FrontLast(p);
      JoinSnoc(front, p[n - 1] + [c]);
      JoinSnoc(front, p[n - 1]);
      AppendAssoc(Join(front) + "/", p[n - 1], [c]);
    }
  }

  /** One step of `Split` on a non-empty string. */
  lemma SplitLast(s: string)
    requires |s| > 0
    ensures var init := Split(s[..|s| - 1]);
      Split(s) == if s[|s| - 1] == '/' then init + [""]
                  else init[..|init| - 1] + [init[|init| - 1] + [s[|s| - 1]]]
  {
  }

  /** Joining the parts of a split gives back the string. */
  lemma {:induction false} JoinSplit(s: string)
    ensures Join(Split(s)) == s
    decreases |s|
  {
    if |s| > 0 {
      var s' := s[..|s| - 1];
      var c := s[|s| - 1];
      var init := Split(s');
      JoinSplit(s');
      FrontLast(s);
      SplitLast(s);
      if c == '/' {
        JoinSnoc(init, "");
        assert s' + "/" + "" == s' + [c];
      } else {
        JoinExtendLast(init, c);
      }
    }
  }

  /** Splitting after a trailing slash adds an empty part. */
  lemma SplitSlash(a: string)
    ensures Split(a + "/") == Split(a) + [""]
  {
    var s := a + "/";
    assert s[..|s| - 1] == a && s[|s| - 1] == '/';
    SplitLast(s);
  }

  /** Appending text without a slash extends the last part. */
  lemma {:induction false} SplitAppendPlain(a: string, y: string)
    requires '/' !in y
    ensures var p := Split(a); Split(a + y) == p[..|p| - 1] + [p[|p| - 1] + y]
    decreases |y|
  {
    var p := Split(a);
    if |y| == 0 {
      assert a + y == a;
      assert p[|p| - 1] + y == p[|p| - 1];
      FrontLast(p);
    } else {
      var y' := y[..|y| - 1];
      var c := y[|y| - 1];
      SplitAppendPlain(a, y');
      var s := a + y;
      assert s[..|s| - 1] == a + y' && s[|s| - 1] == c;
      SplitLast(s);
      var init := Split(a + y');
      var front := p[..|p| - 1];
      assert init == front + [p[|p| - 1] + y'];
      ReplaceLast(front, p[|p| - 1] + y', p[|p| - 1] + y' + [c]);
      FrontLast(y);
      assert p[|p| - 1] + y' + [c] == p[|p| - 1] + y;
    }
  }

  /** Splitting a join of slash-free parts gives back the parts. */
  lemma {:induction false} SplitJoin(parts: seq<string>)
    requires |parts| >= 1 && NoSlash(parts)
    ensures Split(Join(parts)) == parts
    decreases |parts|
  {
    var n := |parts|;
    var last := parts[n - 1];
    if n == 1 {
      SplitAppendPlain("", last);
      assert "" + last == last;
    } else {
      var init := parts[..n - 1];
      assert NoSlash(init) by {
        forall i | 0 <= i < |init|
          ensures '/' !in init[i]
        {
          assert init[i] == parts[i];
        }
      }
      SplitJoin(init);
      FrontLast(parts);
      JoinSnoc(init, last);
      var a := Join(init) + "/";
      SplitSlash(Join(init));
      SplitAppendPlain(a, last);
      ReplaceLast(init, "", "" + last);
      assert "" + last == last;
    }
  }

  /** Distinct slash-free part lists join to distinct strings. */
  lemma JoinInjective(p: seq<string>, q: seq<string>)
    requires |p| >= 1 && |q| >= 1 && NoSlash(p) && NoSlash(q)
    requires Join(p) == Join(q)
    ensures p == q
  {
    SplitJoin(p);
    SplitJoin(q);
  }

  /** Every earlier string sorts strictly before every later one; in
      particular no string occurs twice. */
  predicate StrictlySorted(ls: seq<string>)
  {
    forall a, b :: 0 <= a < b < |ls| ==> Below(ls[a], ls[b])
  }

  lemma SortedDistinct(ls: seq<string>, a: int, b: int)
    requires StrictlySorted(ls) && 0 <= a < |ls| && 0 <= b < |ls| && a != b
    ensures ls[a] != ls[b]
  {
    if a < b {
      BelowIrreflexive(ls[a]);
    } else {
      BelowIrreflexive(ls[b]);
    }
  }

  /** Inserting `x` at the place where everything before it sorts below `x`
      and the next element sorts above it keeps the sequence strictly sorted,
      and `x` was not there already. */
  lemma SortedInsert(ls: seq<string>, k: int, x: string)
    requires StrictlySorted(ls) && 0 <= k <= |ls|
    requires forall m :: 0 <= m < k ==> Below(ls[m], x)
    requires k < |ls| ==> Below(x, ls[k])
    ensures StrictlySorted(ls[..k] + [x] + ls[k..])
    ensures x !in ls
  {
    var r := ls[..k] + [x] + ls[k..];
    forall a, b | 0 <= a < b < |r|
      ensures Below(r[a], r[b])
    {
      if b < k {
      } else if b == k {
      } else if a == k {
        if b - 1 > k {
          BelowTransitive(x, ls[k], ls[b - 1]);
        }
      } else if a < k {
        if b - 1 > k {
          BelowTransitive(x, ls[k], ls[b - 1]);
        }
        BelowTransitive(ls[a], x, ls[b - 1]);
      }
    }
    if x in ls {
      var m :| 0 <= m < |ls| && ls[m] == x;
      BelowIrreflexive(x);
      if m > k {
        BelowTransitive(x, ls[k], ls[m]);
      }
    }
  }

  /** Position of the first occurrence of `s` (Rust's `position`/`find` by
      equality). */
  function IndexOf(ls: seq<string>, s: string): (r: Option<nat>)
    ensures r.Some? ==> r.value < |ls| && ls[r.value] == s
    ensures r.Some? ==> forall m :: 0 <= m < r.value ==> ls[m] != s
    ensures r.None? <==> s !in ls
    decreases |ls|
  {
    if |ls| == 0 then None
    else if ls[0] == s then Some(0)
    else match IndexOf(ls[1..], s)
      case None => None
      case Some(m) => Some(m + 1)
  }

  /** The first occurrence is determined by the two properties above. */
  lemma IndexOfIs(ls: seq<string>, s: string, m: nat)
    requires m < |ls| && ls[m] == s
    requires forall j :: 0 <= j < m ==> ls[j] != s
    ensures IndexOf(ls, s) == Some(m)
  {
    var r := IndexOf(ls, s);
    assert r.Some?;
    if r.value < m {
    } else if r.value > m {
    }
  }

  /** Index of the first element that does not sort below `part` (Rust:
      `children().find(|o| o.leaf >= part)`), or `|ls|` when there is none. */
  function FirstNotBelow(ls: seq<string>, part: string): (k: nat)
    ensures k <= |ls|
    ensures forall m :: 0 <= m < k ==> Below(ls[m], part)
    ensures k < |ls| ==> !Below(ls[k], part)
    decreases |ls|
  {
    if |ls| == 0 then 0
    else if !Below(ls[0], part) then 0
    else 1 + FirstNotBelow(ls[1..], part)
  }

  /** The slot is determined by the two properties above. */
  lemma FirstNotBelowIs(ls: seq<string>, part: string, m: nat)
    requires m <= |ls| && forall q :: 0 <= q < m ==> Below(ls[q], part)
    requires m < |ls| ==> !Below(ls[m], part)
    ensures FirstNotBelow(ls, part) == m
  {
  }

  /** A non-empty list holds its head. */
  lemma HeadIn<T>(s: seq<T>)
    requires |s| > 0
    ensures s[0] in s
  { }

  /** A strictly sorted list is determined by its elements. */
  lemma {:induction false} SortedSameElements(a: seq<string>, b: seq<string>)
    requires StrictlySorted(a) && StrictlySorted(b)
    requires forall x :: x in a <==> x in b
    ensures a == b
    decreases |a|
  {
    if |a| == 0 {
      if |b| > 0 {
        HeadIn(b);
        assert false;
      }
    } else {
      assert a[0] in b && b[0] in a;
      var j :| 0 <= j < |b| && b[j] == a[0];
      var i :| 0 <= i < |a| && a[i] == b[0];
      if j > 0 && i > 0 {
        BelowAsymmetric(b[0], a[0]);
      }
      if i > 0 && j == 0 {
        BelowIrreflexive(a[0]);
      }
      if j > 0 && i == 0 {
        BelowIrreflexive(b[0]);
      }
      assert a[0] == b[0];
      forall x
        ensures x in a[1..] <==> x in b[1..]
      {
        if x in a[1..] {
          var m :| 1 <= m < |a| && a[m] == x;
          SortedDistinct(a, 0, m);
          assert x in b;
          var n :| 0 <= n < |b| && b[n] == x;
          assert n != 0;
        }
        if x in b[1..] {
          var m :| 1 <= m < |b| && b[m] == x;
          SortedDistinct(b, 0, m);
          assert x in a;
          var n :| 0 <= n < |a| && a[n] == x;
          assert n != 0;
        }
      }
      SortedSameElements(a[1..], b[1..]);
      assert a == [a[0]] + a[1..] && b == [b[0]] + b[1..];
    }
  }
}
