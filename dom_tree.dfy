/**
 * The part of the DOM the engine touches: element nodes, their ordered
 * children and their `parentElement` links. The DOM itself is not modelled;
 * this class stands for it, and its two methods are the two mutations the
 * engine performs on it.
 */
module DomTree {
  import opened Layouts
  import opened Errors

  /** The parent links agree with the child sequences, and every node has one slot at most. */
  predicate Consistent(kids: Layout, parent: map<Node, Node>)
  {
    WellFormed(kids) && ChildrenKnowParent(kids, parent) && ParentsHoldChild(kids, parent)
  }

  /** Every child's `parentElement` is the node whose children hold it. */
  predicate ChildrenKnowParent(kids: Layout, parent: map<Node, Node>)
  {
    forall p, x | p in kids && x in kids[p] :: x in parent && parent[x] == p
  }

  /** Every `parentElement` link is matched by a child sequence. */
  predicate ParentsHoldChild(kids: Layout, parent: map<Node, Node>)
  {
    forall x | x in parent :: parent[x] in kids && x in kids[parent[x]]
  }

  /** Removing a node keeps the tree consistent; the other child sequences do not change. */
  lemma {:induction false} RemoveKeepsConsistent(kids: Layout, parent: map<Node, Node>, n: Node)
    requires Consistent(kids, parent) && n in parent
    ensures Detach(kids, n) == kids[parent[n] := Filter(kids[parent[n]], {n})]
    ensures Consistent(Detach(kids, n), parent - {n})
  {
    var p := parent[n];
    var k := kids[p := Filter(kids[p], {n})];
    forall q | q in kids && q != p ensures Filter(kids[q], {n}) == kids[q] {
      assert n !in kids[q];
      FilterNone(kids[q], {n});
    }
    assert Detach(kids, n) == k by {
      forall q | q in kids ensures Detach(kids, n)[q] == k[q] { }
    }
    RemoveKeepsWellFormed(kids, parent, n);
    var pa := parent - {n};
    ChildrenAfterRemove(kids, parent, n);
    assert ParentsHoldChild(k, pa) by {
      forall x | x in pa ensures pa[x] in k && x in k[pa[x]] {
        assert x in kids[parent[x]];
        FilterMembers(kids[p], {n}, x);
      }
    }
  }

  /** Taking a node out of its parent's children keeps every node in one slot at most. */
  lemma {:induction false} RemoveKeepsWellFormed(kids: Layout, parent: map<Node, Node>, n: Node)
    requires Consistent(kids, parent) && n in parent
    ensures WellFormed(kids[parent[n] := Filter(kids[parent[n]], {n})])
  {
    var p := parent[n];
    var k := kids[p := Filter(kids[p], {n})];
    forall q | q in k ensures NoDup(k[q]) {
      if q == p { FilterNoDup(kids[p], {n}); }
    }
    forall q, r, x | q in k && r in k && q != r && x in k[q] ensures x !in k[r] {
      DetachHolds(kids, p, n, q, x);
      DetachHolds(kids, p, n, r, x);
    }
  }

  /** The children of every node after taking `n` out of the children of `p`. */
  lemma {:induction false} DetachHolds(kids: Layout, p: Node, n: Node, q: Node, x: Node)
    requires p in kids && q in kids
    ensures x in kids[p := Filter(kids[p], {n})][q] <==> x in kids[q] && (q != p || x != n)
  {
    FilterMembers(kids[p], {n}, x);
  }

  lemma {:induction false} ChildrenAfterRemove(kids: Layout, parent: map<Node, Node>, n: Node)
    requires Consistent(kids, parent) && n in parent
    ensures ChildrenKnowParent(kids[parent[n] := Filter(kids[parent[n]], {n})], parent - {n})
  {
    var p := parent[n];
    var k := kids[p := Filter(kids[p], {n})];
    var pa := parent - {n};
    assert n in kids[p];
    forall q, x | q in k && x in k[q] ensures x in pa && pa[x] == q {
      if q == p {
        FilterMembers(kids[p], {n}, x);
        assert x in kids[p] && x != n;
      } else {
        assert k[q] == kids[q];
        assert x != n;
      }
    }
  }

  /** Removing a node that has no parent changes nothing. */
  lemma {:induction false} RemoveDetachedIsNoop(kids: Layout, parent: map<Node, Node>, n: Node)
    requires Consistent(kids, parent) && n !in parent
    ensures Detach(kids, n) == kids
  {
    forall q | q in kids ensures n !in kids[q] { }
    DetachAbsent(kids, n);
  }

  /** Inserting a detached node keeps the tree consistent. */
  lemma {:induction false} InsertKeepsConsistent(kids: Layout, parent: map<Node, Node>, target: Node, pos: nat, n: Node)
    requires Consistent(kids, parent) && target in kids && n !in parent
    ensures Consistent(Attach(kids, target, pos, n), parent[n := target])
  {
    var k := Attach(kids, target, pos, n);
    var pa := parent[n := target];
    InsertKeepsWellFormed(kids, parent, target, pos, n);
    assert ChildrenKnowParent(k, pa) by {
      forall q, x | q in k && x in k[q] ensures x in pa && pa[x] == q {
        AttachHolds(kids, target, pos, n, q, x);
      }
    }
    assert ParentsHoldChild(k, pa) by {
      forall x | x in pa ensures pa[x] in k && x in k[pa[x]] {
        AttachHolds(kids, target, pos, n, pa[x], x);
      }
    }
  }

  /** Inserting a detached node keeps every node in one slot at most. */
  lemma {:induction false} InsertKeepsWellFormed(kids: Layout, parent: map<Node, Node>, target: Node, pos: nat, n: Node)
    requires Consistent(kids, parent) && target in kids && n !in parent
    ensures WellFormed(Attach(kids, target, pos, n))
  {
    var k := Attach(kids, target, pos, n);
    assert n !in kids[target];
    InsertBeforeNoDup(kids[target], pos, n);
    forall q, r, x | q in k && r in k && q != r && x in k[q] ensures x !in k[r] {
      AttachHolds(kids, target, pos, n, q, x);
      AttachHolds(kids, target, pos, n, r, x);
    }
  }

  /** The children determine the parent links. */
  lemma {:induction false} ParentDetermined(kids: Layout, p1: map<Node, Node>, p2: map<Node, Node>)
    requires Consistent(kids, p1) && Consistent(kids, p2)
    ensures p1 == p2
  {
    forall x | x in p1 ensures x in p2 && p2[x] == p1[x] {
      assert x in kids[p1[x]];
    }
    forall x | x in p2 ensures x in p1 {
      assert x in kids[p2[x]];
    }
  }

  /**
   * Below `n`, a node other than `n` is a child of a node below `n`: the
   * subtree can be tested by climbing the parent links.
   */
  lemma {:induction false} WithinUp(kids: Layout, parent: map<Node, Node>, n: Node, x: Node)
    requires Consistent(kids, parent) && x != n
    ensures Within(kids, n, x) <==> x in parent && Within(kids, n, parent[x])
  {
    if Within(kids, n, x) {
      var path :| Descent(kids, path) && path[0] == n && path[|path| - 1] == x;
      var up := path[..|path| - 1];
      assert x in kids[path[|path| - 2]];
      assert Descent(kids, up) by {
        forall i | 0 <= i < |up| - 1 ensures up[i] in kids && up[i + 1] in kids[up[i]] {
          assert up[i] == path[i] && up[i + 1] == path[i + 1];
        }
      }
      assert up[0] == n && up[|up| - 1] == parent[x];
    }
    if x in parent && Within(kids, n, parent[x]) {
      WithinChild(kids, n, parent[x], x);
    }
  }

  /** Every proper ancestor reached by the parent walk has the node in its subtree. */
  lemma {:induction false} AncestorWithin(kids: Layout, parent: map<Node, Node>, a: Node, n: Node, fuel: nat)
    requires Consistent(kids, parent) && IsAncestor(parent, a, n, fuel)
    ensures Within(kids, a, n)
    decreases fuel
  {
    var p := parent[n];
    assert p in kids && n in kids[p];
    if p == a {
      WithinSelf(kids, a);
    } else {
      AncestorWithin(kids, parent, a, p, fuel - 1);
    }
    WithinChild(kids, a, p, n);
  }

  /** The parent of a node the walk reaches from `a` is in the subtree of `a`. */
  lemma {:induction false} ParentWithin(kids: Layout, parent: map<Node, Node>, a: Node, n: Node, fuel: nat)
    requires Consistent(kids, parent) && IsAncestor(parent, a, n, fuel)
    ensures n in parent && parent[n] in kids && n in kids[parent[n]] && Within(kids, a, parent[n])
  {
    if parent[n] == a {
      WithinSelf(kids, a);
    } else {
      AncestorWithin(kids, parent, a, parent[n], fuel - 1);
    }
  }

  /**
   * The parent walk of validation and the subtree test of the DOM's
   * insertion check agree: on an acyclic document whose chain from `n`
   * ends within `fuel` links, `a` is a proper ancestor of `n` exactly when
   * `n` lies in the subtree of `a` and is not `a` itself.
   */
  lemma {:induction false} AncestorIffWithin(kids: Layout, parent: map<Node, Node>, a: Node, n: Node, fuel: nat)
    requires Consistent(kids, parent) && Acyclic(kids) && ChainEnds(parent, n, fuel)
    ensures IsAncestor(parent, a, n, fuel) <==> a != n && Within(kids, a, n)
    decreases fuel
  {
    if IsAncestor(parent, a, n, fuel) {
      AncestorWithin(kids, parent, a, n, fuel);
      ParentWithin(kids, parent, a, n, fuel);
    } else if a != n && Within(kids, a, n) {
      WithinUp(kids, parent, a, n);
      var p := parent[n];
      if p != a {
        AncestorIffWithin(kids, parent, a, p, fuel - 1);
      }
    }
  }

  class Tree {
    /** `children` of every element. */
    var kids: Layout
    /** `parentElement` of every attached element. */
    var parent: map<Node, Node>
    /** A rank that grows from parent to child: the document is a tree. */
    ghost var rank: Node -> nat

    ghost predicate Valid()
      reads this
    {
      Consistent(kids, parent) && Ranked(kids, rank)
    }

    constructor (kids0: Layout, parent0: map<Node, Node>, ghost rank0: Node -> nat)
      requires Consistent(kids0, parent0) && Ranked(kids0, rank0)
      ensures Valid() && kids == kids0 && parent == parent0
    {
      kids, parent, rank := kids0, parent0, rank0;
    }

    /** `n.remove()`: detach `n` from its parent; nothing happens when it has none. */
    method Remove(n: Node)
      requires Valid()
      modifies this
      ensures Valid()
      ensures kids == Detach(old(kids), n)
      ensures parent == old(parent) - {n}
    {
      DetachContained(kids, n);
      RankedContained(Detach(kids, n), kids, rank);
      if n in parent {
        RemoveKeepsConsistent(kids, parent, n);
        var p := parent[n];
        kids := kids[p := Filter(kids[p], {n})];
        parent := parent - {n};
      } else {
        RemoveDetachedIsNoop(kids, parent, n);
      }
    }

    /**
     * `n.contains(x)`: climb the parent links from `x` and report whether
     * `n` is met.
     */
    method Contains(n: Node, x: Node) returns (b: bool)
      requires Valid()
      ensures b <==> Within(kids, n, x)
    {
      var y := x;
      while y != n && y in parent
        invariant Within(kids, n, x) <==> Within(kids, n, y)
        decreases rank(y)
      {
        WithinUp(kids, parent, n, y);
        assert y in kids[parent[y]];
        y := parent[y];
      }
      if y == n {
        WithinSelf(kids, n);
      } else {
        WithinUp(kids, parent, n, y);
      }
      return y == n;
    }

    /**
     * Insert the detached node `n` under `target`: before the child at index
     * `pos` when there is one (`child.before(n)`), else as the last child
     * (`target.append(n)`). Both throw a `HierarchyRequestError` and change
     * nothing when `target` lies in the subtree of `n`.
     */
    method InsertAt(target: Node, pos: nat, n: Node) returns (r: Result<()>)
      requires Valid()
      requires target in kids && n !in parent
      modifies this
      ensures Valid()
      ensures r.Ok? <==> !Within(old(kids), n, target)
      ensures r.Err? ==> r.error == HierarchyRequest(n, target) && kids == old(kids) && parent == old(parent)
      ensures r.Ok? ==> kids == Attach(old(kids), target, pos, n) && parent == old(parent)[n := target]
    {
      var inside := Contains(n, target);
      if inside {
        return Err(HierarchyRequest(n, target));
      }
      InsertKeepsConsistent(kids, parent, target, pos, n);
      ghost var lifted := AttachRanked(kids, rank, target, pos, n);
      kids := kids[target := InsertBefore(kids[target], pos, n)];
      parent := parent[n := target];
      rank := lifted;
      return Ok(());
    }
  }
}
