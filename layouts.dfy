/**
 * The document tree seen as ordered child sequences.
 *
 * A layout maps every container node to the ordered sequence of its child
 * elements (the `children` collection of the DOM). The functions here are the
 * value-level meaning of the two tree primitives the engine uses, `remove()`
 * and "insert before the child at an index, or append", and of the parent
 * walk used to reject a target that lies inside its source.
 */
module Layouts {

  /** Node identity (reference equality in the DOM). */
  type Node = nat

  /** Every known node with the ordered sequence of its children. */
  type Layout = map<Node, seq<Node>>

  /** No node occurs twice in one child sequence. */
  predicate NoDup(c: seq<Node>)
  {
    forall i, j | 0 <= i < j < |c| :: c[i] != c[j]
  }

  /** Every node sits in at most one slot of the layout. */
  predicate WellFormed(t: Layout)
  {
    && (forall p | p in t :: NoDup(t[p]))
    && (forall p, q, x | p in t && q in t && p != q && x in t[p] :: x !in t[q])
  }

  /** `c` with every member of `r` taken out; the others keep their order. */
  function Filter(c: seq<Node>, r: set<Node>): (f: seq<Node>)
    ensures |f| <= |c|
  {
    if c == [] then [] else (if c[0] in r then [] else [c[0]]) + Filter(c[1..], r)
  }

  /**
   * The DOM insertion rule of the engine: `x` goes immediately before the
   * child currently at index `pos` when there is one, and is appended
   * otherwise.
   */
  function InsertBefore(c: seq<Node>, pos: nat, x: Node): (r: seq<Node>)
    ensures |r| == |c| + 1
    ensures multiset(r) == multiset(c) + multiset{x}
    ensures pos <= |c| ==> r[pos] == x && r[..pos] == c[..pos] && r[pos + 1..] == c[pos..]
    ensures pos > |c| ==> r == c + [x]
  {
    if pos < |c| then
      assert c == c[..pos] + c[pos..];
      c[..pos] + [x] + c[pos..]
    else
      c + [x]
  }

  /** `n.remove()`: `n` leaves whatever child sequence holds it. */
  function Detach(t: Layout, n: Node): (u: Layout)
    ensures u.Keys == t.Keys
  {
    map p | p in t :: Filter(t[p], {n})
  }

  /** Insert `n` under `target` by the rule of InsertBefore. */
  function Attach(t: Layout, target: Node, pos: nat, n: Node): (u: Layout)
    requires target in t
    ensures u.Keys == t.Keys
  {
    t[target := InsertBefore(t[target], pos, n)]
  }

  /** The layout with all of `s` taken out: the part of the tree the engine never moves. */
  function OffSources(t: Layout, s: set<Node>): (u: Layout)
    ensures u.Keys == t.Keys
  {
    map p | p in t :: Filter(t[p], s)
  }

  /**
   * `[...parent.children].findIndex(child => child === x)`: the index of the
   * first occurrence of `x`.
   */
  function IndexOf(c: seq<Node>, x: Node): (i: nat)
    requires x in c
    ensures i < |c| && c[i] == x && x !in c[..i]
  {
    if c[0] == x then 0 else 1 + IndexOf(c[1..], x)
  }

  /**
   * Whether `a` is a proper ancestor of `n`, following at most `fuel`
   * parent links.
   */
  function IsAncestor(parent: map<Node, Node>, a: Node, n: Node, fuel: nat): bool
    decreases fuel
  {
    n in parent && fuel > 0 && (parent[n] == a || IsAncestor(parent, a, parent[n], fuel - 1))
  }

  /** The chain of parent links from `n` reaches a root within `fuel` steps. */
  predicate ChainEnds(parent: map<Node, Node>, n: Node, fuel: nat)
    decreases fuel
  {
    n !in parent || (fuel > 0 && ChainEnds(parent, parent[n], fuel - 1))
  }

  /** The parent links hold no cycle: every chain ends within |parent| steps. */
  predicate Rooted(parent: map<Node, Node>)
  {
    forall n | n in parent :: ChainEnds(parent, n, |parent|)
  }

  // ---------------------------------------------------------------------
  // Lemmas about Filter

  /** Filter keeps exactly the members outside `r`. */
  lemma {:induction false} FilterMembers(c: seq<Node>, r: set<Node>, x: Node)
    ensures x in Filter(c, r) <==> x in c && x !in r
  {
    if c != [] {
      FilterMembers(c[1..], r, x);
      assert c == [c[0]] + c[1..];
    }
  }

  lemma {:induction false} FilterConcat(a: seq<Node>, b: seq<Node>, r: set<Node>)
    ensures Filter(a + b, r) == Filter(a, r) + Filter(b, r)
  {
    if a == [] {
      assert a + b == b;
    } else {
      assert (a + b)[1..] == a[1..] + b;
      FilterConcat(a[1..], b, r);
    }
  }

  /** Nothing to take out: Filter is the identity. */
  lemma {:induction false} FilterNone(c: seq<Node>, r: set<Node>)
    requires forall x | x in c :: x !in r
    ensures Filter(c, r) == c
  {
    if c != [] {
      FilterNone(c[1..], r);
    }
  }

  /** Filter only looks at the members of `r` that occur in `c`. */
  lemma {:induction false} FilterSameOn(c: seq<Node>, r1: set<Node>, r2: set<Node>)
    requires forall x | x in c :: (x in r1 <==> x in r2)
    ensures Filter(c, r1) == Filter(c, r2)
  {
    if c != [] {
      FilterSameOn(c[1..], r1, r2);
    }
  }

  /** Taking out `a` and then `b` is taking out `a + b`. */
  lemma {:induction false} FilterFilter(c: seq<Node>, a: set<Node>, b: set<Node>)
    ensures Filter(Filter(c, a), b) == Filter(c, a + b)
  {
    if c != [] {
      FilterFilter(c[1..], a, b);
      var head := if c[0] in a then [] else [c[0]];
      FilterConcat(head, Filter(c[1..], a), b);
    }
  }

  lemma {:induction false} FilterNoDup(c: seq<Node>, r: set<Node>)
    requires NoDup(c)
    ensures NoDup(Filter(c, r))
  {
    if c != [] {
      assert NoDup(c[1..]) by {
        forall i, j | 0 <= i < j < |c[1..]| ensures c[1..][i] != c[1..][j] {
          assert c[1..][i] == c[i + 1] && c[1..][j] == c[j + 1];
        }
      }
      FilterNoDup(c[1..], r);
      FilterMembers(c[1..], r, c[0]);
      assert c[0] !in c[1..] by {
        forall k | 0 <= k < |c| - 1 ensures c[1..][k] != c[0] {
          assert c[1..][k] == c[k + 1];
        }
      }
      NoDupConcat(if c[0] in r then [] else [c[0]], Filter(c[1..], r));
    }
  }

  /** Two duplicate-free sequences with no common member concatenate without duplicates. */
  lemma {:induction false} NoDupConcat(a: seq<Node>, b: seq<Node>)
    requires NoDup(a) && NoDup(b)
    requires forall x | x in a :: x !in b
    ensures NoDup(a + b)
  {
    forall i, j | 0 <= i < j < |a + b| ensures (a + b)[i] != (a + b)[j] {
      if j < |a| {
      } else if i < |a| {
        assert (a + b)[i] in a && (a + b)[j] == b[j - |a|];
      } else {
        assert (a + b)[i] == b[i - |a|] && (a + b)[j] == b[j - |a|];
      }
    }
  }

  /** Inserting a node that was absent keeps a sequence duplicate-free. */
  lemma {:induction false} InsertBeforeNoDup(c: seq<Node>, pos: nat, x: Node)
    requires NoDup(c) && x !in c
    ensures NoDup(InsertBefore(c, pos, x))
  {
    if pos < |c| {
      assert c == c[..pos] + c[pos..];
      assert NoDup(c[..pos]) && NoDup(c[pos..]) by {
        forall i, j | 0 <= i < j < |c[pos..]| ensures c[pos..][i] != c[pos..][j] {
          assert c[pos..][i] == c[pos + i] && c[pos..][j] == c[pos + j];
        }
      }
      NoDupConcat(c[..pos], [x]);
      forall y | y in c[..pos] + [x] ensures y !in c[pos..] {
        if y in c[..pos] {
          var i :| 0 <= i < pos && c[i] == y;
          forall j | 0 <= j < |c| - pos ensures c[pos..][j] != y {
            assert c[pos..][j] == c[pos + j];
          }
        }
      }
      NoDupConcat(c[..pos] + [x], c[pos..]);
    } else {
      NoDupConcat(c, [x]);
    }
  }

  /** Detaching a node that sits nowhere changes nothing. */
  lemma {:induction false} DetachAbsent(t: Layout, n: Node)
    requires forall p | p in t :: n !in t[p]
    ensures Detach(t, n) == t
  {
    forall p | p in t ensures Detach(t, n)[p] == t[p] {
      FilterNone(t[p], {n});
    }
  }

  /** `remove()` undoes the insertion of a node that was not there. */
  lemma {:induction false} RemoveUndoesInsert(c: seq<Node>, pos: nat, x: Node)
    requires x !in c
    ensures Filter(InsertBefore(c, pos, x), {x}) == c
  {
    if pos < |c| {
      var a, b := c[..pos], c[pos..];
      assert a + b == c;
      FilterConcat(a + [x], b, {x});
      FilterConcat(a, [x], {x});
      FilterNone(a, {x});
      FilterNone(b, {x});
      assert Filter([x], {x}) == [];
    } else {
      FilterConcat(c, [x], {x});
      FilterNone(c, {x});
      assert Filter([x], {x}) == [];
    }
  }

  /** Inserting a node that the filter takes out is invisible through the filter. */
  lemma {:induction false} FilterHidesInsert(c: seq<Node>, pos: nat, x: Node, r: set<Node>)
    requires x in r
    ensures Filter(InsertBefore(c, pos, x), r) == Filter(c, r)
  {
    assert Filter([x], r) == [];
    if pos < |c| {
      var a, b := c[..pos], c[pos..];
      assert a + b == c;
      FilterConcat(a + [x], b, r);
      FilterConcat(a, [x], r);
      FilterConcat(a, b, r);
    } else {
      FilterConcat(c, [x], r);
    }
  }

  /** The children of every node after inserting `n` under `target`. */
  lemma {:induction false} AttachHolds(t: Layout, target: Node, pos: nat, n: Node, q: Node, x: Node)
    requires target in t && q in t
    ensures x in Attach(t, target, pos, n)[q] <==> x in t[q] || (q == target && x == n)
  {
    if q == target {
      var c := InsertBefore(t[target], pos, n);
      assert x in c <==> x in multiset(c);
      assert x in t[target] <==> x in multiset(t[target]);
    }
  }

  // ---------------------------------------------------------------------
  // Subtrees

  /** `path` walks down the tree: each node after the first is a child of the one before it. */
  ghost predicate Descent(t: Layout, path: seq<Node>)
  {
    && |path| > 0
    && forall i | 0 <= i < |path| - 1 :: path[i] in t && path[i + 1] in t[path[i]]
  }

  /** `n` is `x` or one of its ancestors: `x` lies in the subtree of `n`. */
  ghost predicate Within(t: Layout, n: Node, x: Node)
  {
    exists path :: Descent(t, path) && path[0] == n && path[|path| - 1] == x
  }

  /** Every edge of `u` is an edge of `t`. */
  ghost predicate Contained(u: Layout, t: Layout)
  {
    forall p, x | p in u && x in u[p] :: p in t && x in t[p]
  }

  /** No node is a child of a node in its own subtree: the layout holds no cycle. */
  ghost predicate Acyclic(t: Layout)
  {
    forall p, c | p in t && c in t[p] :: !Within(t, c, p)
  }

  /** `rank` grows along every edge; a depth is such a rank. */
  ghost predicate Ranked(t: Layout, rank: Node -> nat)
  {
    forall p, c | p in t && c in t[p] :: rank(p) < rank(c)
  }

  lemma {:induction false} WithinSelf(t: Layout, n: Node)
    ensures Within(t, n, n)
  {
    assert Descent(t, [n]);
  }

  /** The subtree of `n` holds the children of its members. */
  lemma {:induction false} WithinChild(t: Layout, n: Node, p: Node, c: Node)
    requires Within(t, n, p) && p in t && c in t[p]
    ensures Within(t, n, c)
  {
    var path :| Descent(t, path) && path[0] == n && path[|path| - 1] == p;
    var longer := path + [c];
    assert Descent(t, longer) by {
      forall i | 0 <= i < |longer| - 1 ensures longer[i] in t && longer[i + 1] in t[longer[i]] {
        if i < |path| - 1 {
          assert longer[i] == path[i] && longer[i + 1] == path[i + 1];
        }
      }
    }
    assert longer[0] == n && longer[|longer| - 1] == c;
  }

  /** A subtree with more than its root has a root with children. */
  lemma {:induction false} WithinBelow(t: Layout, n: Node, x: Node)
    ensures Within(t, n, x) && x != n ==> n in t && t[n] != []
  {
    if Within(t, n, x) && x != n {
      var path :| Descent(t, path) && path[0] == n && path[|path| - 1] == x;
      assert path[1] in t[path[0]];
    }
  }

  /** Below a node without children there is only the node itself. */
  lemma {:induction false} BelowLeaf(t: Layout, n: Node, x: Node)
    requires n in t ==> t[n] == []
    ensures Within(t, n, x) <==> x == n
  {
    WithinSelf(t, n);
    WithinBelow(t, n, x);
  }

  /** A subtree of a contained layout is part of the same subtree of the larger one. */
  lemma {:induction false} WithinContained(u: Layout, t: Layout, n: Node, x: Node)
    requires Contained(u, t)
    ensures Within(u, n, x) ==> Within(t, n, x)
  {
    if Within(u, n, x) {
      var path :| Descent(u, path) && path[0] == n && path[|path| - 1] == x;
      forall i | 0 <= i < |path| - 1 ensures path[i] in t && path[i + 1] in t[path[i]] {
        assert path[i] in u && path[i + 1] in u[path[i]];
      }
      assert Descent(t, path);
    }
  }

  /** Along a downward path the rank grows. */
  lemma {:induction false} DescentRanked(t: Layout, rank: Node -> nat, path: seq<Node>, i: nat)
    requires Ranked(t, rank) && Descent(t, path) && 0 < i < |path|
    ensures rank(path[0]) < rank(path[i])
  {
    if i > 1 {
      DescentRanked(t, rank, path, i - 1);
    }
    assert path[i] in t[path[i - 1]];
  }

  /** A layout with a rank holds no cycle. */
  lemma {:induction false} RankedAcyclic(t: Layout, rank: Node -> nat)
    requires Ranked(t, rank)
    ensures Acyclic(t)
  {
    forall p, c | p in t && c in t[p] ensures !Within(t, c, p) {
      assert rank(p) < rank(c);
      if Within(t, c, p) {
        var path :| Descent(t, path) && path[0] == c && path[|path| - 1] == p;
        if |path| > 1 {
          DescentRanked(t, rank, path, |path| - 1);
        }
      }
    }
  }

  /** A layout whose children are never containers themselves holds no cycle. */
  lemma {:induction false} LeavesAcyclic(t: Layout)
    requires forall p, c | p in t && c in t[p] :: c !in t
    ensures Acyclic(t)
  {
    forall p, c | p in t && c in t[p] ensures !Within(t, c, p) {
      BelowLeaf(t, c, p);
    }
  }

  /** Taking edges away keeps a rank. */
  lemma {:induction false} RankedContained(u: Layout, t: Layout, rank: Node -> nat)
    requires Contained(u, t) && Ranked(t, rank)
    ensures Ranked(u, rank)
  {
    forall p, c | p in u && c in u[p] ensures rank(p) < rank(c) {
      assert p in t && c in t[p];
    }
  }

  /** Taking edges away keeps a layout acyclic. */
  lemma {:induction false} AcyclicContained(u: Layout, t: Layout)
    requires Contained(u, t) && Acyclic(t)
    ensures Acyclic(u)
  {
    forall p, c | p in u && c in u[p] ensures !Within(u, c, p) {
      WithinContained(u, t, c, p);
    }
  }

  lemma {:induction false} OffSourcesContained(t: Layout, s: set<Node>)
    ensures Contained(OffSources(t, s), t)
  {
    forall p, x | p in OffSources(t, s) && x in OffSources(t, s)[p] ensures p in t && x in t[p] {
      FilterMembers(t[p], s, x);
    }
  }

  lemma {:induction false} DetachContained(t: Layout, n: Node)
    ensures Contained(Detach(t, n), t)
  {
    forall p, x | p in Detach(t, n) && x in Detach(t, n)[p] ensures p in t && x in t[p] {
      FilterMembers(t[p], {n}, x);
    }
  }

  /**
   * Inserting `n` under a target outside its subtree keeps a rank: the
   * subtree of `n` is lifted above the target.
   */
  lemma {:induction false} AttachRanked(t: Layout, rank: Node -> nat, target: Node, pos: nat, n: Node)
    returns (rank': Node -> nat)
    requires Ranked(t, rank) && target in t && !Within(t, n, target)
    ensures Ranked(Attach(t, target, pos, n), rank')
  {
    rank' := x => if Within(t, n, x) then rank(x) + rank(target) + 1 else rank(x);
    var u := Attach(t, target, pos, n);
    forall p, c | p in u && c in u[p] ensures rank'(p) < rank'(c) {
      AttachHolds(t, target, pos, n, p, c);
      if c in t[p] {
        if Within(t, n, p) {
          WithinChild(t, n, p, c);
        }
      } else {
        WithinSelf(t, n);
      }
    }
  }
}
