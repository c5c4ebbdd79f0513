/**
 * Breakpoint objects of the internal storage and what applying a list of
 * them does to the tree: every listed source is removed first, then the
 * sources are inserted one by one in ascending target position.
 */
module Instructions {
  import opened Layouts
  import opened Errors

  /** `{ sourceElement, targetElement, targetPosition }`. */
  datatype Instruction = Instruction(source: Node, target: Node, position: nat)

  predicate SortedByPosition(l: seq<Instruction>)
  {
    forall i, j | 0 <= i < j < |l| :: l[i].position <= l[j].position
  }

  /** Every source is named once. */
  predicate DistinctSources(l: seq<Instruction>)
  {
    forall i, j | 0 <= i < j < |l| :: l[i].source != l[j].source
  }

  function Sources(l: seq<Instruction>): (s: set<Node>)
    ensures forall i | 0 <= i < |l| :: l[i].source in s
    ensures forall x | x in s :: exists i :: 0 <= i < |l| && l[i].source == x
  {
    set i | 0 <= i < |l| :: l[i].source
  }

  /** The entries of `l` whose position is `v`, in list order. */
  function AtPosition(l: seq<Instruction>, v: nat): seq<Instruction>
  {
    if l == [] then [] else (if l[0].position == v then [l[0]] else []) + AtPosition(l[1..], v)
  }

  // ---------------------------------------------------------------------
  // `#sortBreakpointObjects`: Array.prototype.sort, a stable sort, with the
  // comparator `a.targetPosition - b.targetPosition`. The builtin sorts in
  // place; here it is the value-level stable insertion sort below.

  /** Insert `x` after every entry whose position is at most its own. */
  function InsertByPosition(l: seq<Instruction>, x: Instruction): seq<Instruction>
  {
    if l == [] || l[|l| - 1].position <= x.position then l + [x]
    else InsertByPosition(l[..|l| - 1], x) + [l[|l| - 1]]
  }

  function SortByPosition(l: seq<Instruction>): seq<Instruction>
  {
    if l == [] then [] else InsertByPosition(SortByPosition(l[..|l| - 1]), l[|l| - 1])
  }

  lemma {:induction false} InsertByPositionFacts(l: seq<Instruction>, x: Instruction)
    requires SortedByPosition(l)
    ensures SortedByPosition(InsertByPosition(l, x))
    ensures multiset(InsertByPosition(l, x)) == multiset(l) + multiset{x}
  {
    if l == [] || l[|l| - 1].position <= x.position {
      forall y | y in l ensures y.position <= x.position {
        var i :| 0 <= i < |l| && l[i] == y;
        assert i == |l| - 1 || l[i].position <= l[|l| - 1].position;
      }
      SortedSnoc(l, x);
    } else {
      var init, last := l[..|l| - 1], l[|l| - 1];
      assert init + [last] == l;
      InsertByPositionFacts(init, x);
      var m := InsertByPosition(init, x);
      forall y | y in m ensures y.position <= last.position {
        assert y in multiset(m);
        if y != x {
          assert y in multiset(init);
        }
      }
      SortedSnoc(m, last);
    }
  }

  /** Appending an entry placed at least as far as every other keeps the list sorted. */
  lemma {:induction false} SortedSnoc(l: seq<Instruction>, x: Instruction)
    requires SortedByPosition(l) && forall y | y in l :: y.position <= x.position
    ensures SortedByPosition(l + [x])
  {
    var r := l + [x];
    forall i, j | 0 <= i < j < |r| ensures r[i].position <= r[j].position {
      if j == |l| { assert r[i] in l; }
    }
  }

  /** The sort orders by position and loses or adds nothing. */
  lemma {:induction false} SortByPositionFacts(l: seq<Instruction>)
    ensures SortedByPosition(SortByPosition(l))
    ensures multiset(SortByPosition(l)) == multiset(l)
  {
    if l != [] {
      var init := l[..|l| - 1];
      assert init + [l[|l| - 1]] == l;
      SortByPositionFacts(init);
      InsertByPositionFacts(SortByPosition(init), l[|l| - 1]);
    }
  }

  lemma {:induction false} AtPositionConcat(a: seq<Instruction>, b: seq<Instruction>, v: nat)
    ensures AtPosition(a + b, v) == AtPosition(a, v) + AtPosition(b, v)
  {
    if a == [] {
      assert a + b == b;
    } else {
      var h := if a[0].position == v then [a[0]] else [];
      assert (a + b)[1..] == a[1..] + b;
      assert AtPosition(a + b, v) == h + AtPosition(a[1..] + b, v);
      AtPositionConcat(a[1..], b, v);
      assert AtPosition(a, v) == h + AtPosition(a[1..], v);
    }
  }

  lemma {:induction false} InsertByPositionStable(l: seq<Instruction>, x: Instruction, v: nat)
    ensures AtPosition(InsertByPosition(l, x), v) == AtPosition(l, v) + AtPosition([x], v)
  {
    if l == [] || l[|l| - 1].position <= x.position {
      AtPositionConcat(l, [x], v);
    } else {
      var init, last := l[..|l| - 1], l[|l| - 1];
      assert init + [last] == l;
      InsertByPositionStable(init, x, v);
      AtPositionConcat(InsertByPosition(init, x), [last], v);
      AtPositionConcat(init, [last], v);
    }
  }

  /**
   * The sort is stable: the entries that share a position keep the order
   * they had in the list.
   */
  lemma {:induction false} SortByPositionStable(l: seq<Instruction>, v: nat)
    ensures AtPosition(SortByPosition(l), v) == AtPosition(l, v)
  {
    if l != [] {
      var init, last := l[..|l| - 1], l[|l| - 1];
      assert init + [last] == l;
      SortByPositionStable(init, v);
      InsertByPositionStable(SortByPosition(init), last, v);
      AtPositionConcat(init, [last], v);
    }
  }

  /** The sort keeps exactly the entries of the list. */
  lemma {:induction false} SortByPositionMembers(l: seq<Instruction>)
    ensures forall x :: x in SortByPosition(l) <==> x in l
    ensures |SortByPosition(l)| == |l|
    ensures Sources(SortByPosition(l)) == Sources(l)
  {
    SortByPositionFacts(l);
    var r := SortByPosition(l);
    assert |r| == |multiset(r)| == |multiset(l)| == |l|;
    forall x ensures x in r <==> x in l {
      assert x in r <==> x in multiset(r);
      assert x in l <==> x in multiset(l);
    }
    forall y | y in Sources(r) ensures y in Sources(l) {
      var i :| 0 <= i < |r| && r[i].source == y;
      assert r[i] in l;
    }
    forall y | y in Sources(l) ensures y in Sources(r) {
      var i :| 0 <= i < |l| && l[i].source == y;
      assert l[i] in r;
    }
  }

  lemma {:induction false} SourcesConcat(a: seq<Instruction>, b: seq<Instruction>)
    ensures Sources(a + b) == Sources(a) + Sources(b)
  {
    var r := a + b;
    forall y | y in Sources(r) ensures y in Sources(a) + Sources(b) {
      var i :| 0 <= i < |r| && r[i].source == y;
      if i < |a| { assert a[i] == r[i]; } else { assert b[i - |a|] == r[i]; }
    }
    forall y | y in Sources(a) ensures y in Sources(r) {
      var i :| 0 <= i < |a| && a[i].source == y;
      assert r[i] == a[i];
    }
    forall y | y in Sources(b) ensures y in Sources(r) {
      var i :| 0 <= i < |b| && b[i].source == y;
      assert r[|a| + i] == b[i];
    }
  }

  lemma {:induction false} SourcesOne(x: Instruction)
    ensures Sources([x]) == {x.source}
  {
    assert [x][0] == x;
  }

  lemma {:induction false} InsertByPositionDistinct(l: seq<Instruction>, x: Instruction)
    requires DistinctSources(l) && x.source !in Sources(l)
    ensures DistinctSources(InsertByPosition(l, x))
    ensures Sources(InsertByPosition(l, x)) == Sources(l) + {x.source}
  {
    if l == [] || l[|l| - 1].position <= x.position {
      SnocDistinct(l, x);
    } else {
      var init, last := l[..|l| - 1], l[|l| - 1];
      assert init + [last] == l;
      SnocSplit(init, last);
      InsertByPositionDistinct(init, x);
      SnocDistinct(InsertByPosition(init, x), last);
    }
  }

  /** Appending an instruction for a new source keeps sources distinct. */
  lemma {:induction false} SnocDistinct(l: seq<Instruction>, x: Instruction)
    requires DistinctSources(l) && x.source !in Sources(l)
    ensures DistinctSources(l + [x])
    ensures Sources(l + [x]) == Sources(l) + {x.source}
  {
    SourcesConcat(l, [x]);
    SourcesOne(x);
    var m := l + [x];
    forall i, j | 0 <= i < j < |m| ensures m[i].source != m[j].source {
      assert m[i] == l[i];
    }
  }

  /** The parts of a list whose sources are distinct. */
  lemma {:induction false} SnocSplit(l: seq<Instruction>, x: Instruction)
    requires DistinctSources(l + [x])
    ensures DistinctSources(l) && x.source !in Sources(l)
  {
    var m := l + [x];
    forall i, j | 0 <= i < j < |l| ensures l[i].source != l[j].source {
      assert m[i] == l[i] && m[j] == l[j];
    }
    forall i | 0 <= i < |l| ensures l[i].source != x.source {
      assert m[i] == l[i] && m[|l|] == x;
    }
  }

  /** Sorting a list that names each source once still names each source once. */
  lemma {:induction false} SortByPositionDistinct(l: seq<Instruction>)
    requires DistinctSources(l)
    ensures DistinctSources(SortByPosition(l))
  {
    if l != [] {
      var init, last := l[..|l| - 1], l[|l| - 1];
      assert init + [last] == l;
      assert DistinctSources(init);
      SortByPositionDistinct(init);
      SortByPositionMembers(init);
      assert last.source !in Sources(init) by {
        forall i | 0 <= i < |init| ensures init[i].source != last.source {
          assert l[i] == init[i];
        }
      }
      InsertByPositionDistinct(SortByPosition(init), last);
    }
  }

  /** The sort keeps every entry's record of its slot. */
  lemma {:induction false} SortByPositionRecords(l: seq<Instruction>, t0: Layout)
    requires Records(l, t0)
    ensures Records(SortByPosition(l), t0)
  {
    SortByPositionMembers(l);
    var r := SortByPosition(l);
    forall i | 0 <= i < |r|
      ensures r[i].target in t0 && r[i].position < |t0[r[i].target]| && t0[r[i].target][r[i].position] == r[i].source
    {
      assert r[i] in l;
      var j :| 0 <= j < |l| && l[j] == r[i];
    }
  }

  // ---------------------------------------------------------------------
  // `#removeSourceElements` and `#insertSourceElements` on values.

  /** Remove every listed source, in list order. */
  function RemoveAll(t: Layout, l: seq<Instruction>): (u: Layout)
    ensures u.Keys == t.Keys
  {
    if l == [] then t else RemoveAll(Detach(t, l[0].source), l[1..])
  }

  predicate TargetsIn(l: seq<Instruction>, t: Layout)
  {
    forall i | 0 <= i < |l| :: l[i].target in t
  }

  /**
   * Insert the listed sources in list order. With `check`, a position larger
   * than the target's current number of children throws a range error
   * (`#throwExceptionIfMaximumTargetPositionIsExceeded`); without it, such a
   * position appends. Either way the DOM refuses, with a
   * `HierarchyRequestError`, to insert a source under a target that lies in
   * the source's own subtree. After an error the sources inserted before it
   * stay where they are.
   */
  ghost function InsertAll(t: Layout, l: seq<Instruction>, check: bool): (r: Result<Layout>)
    requires TargetsIn(l, t)
    ensures r.Ok? ==> r.value.Keys == t.Keys
    ensures r.Err? ==> (check && r.error.PositionExceedsMaximum?) || r.error.HierarchyRequest?
    ensures r.Err? && r.error.HierarchyRequest? ==>
      exists i | 0 <= i < |l| :: r.error == HierarchyRequest(l[i].source, l[i].target)
  {
    if l == [] then Ok(t)
    else
      var h := l[0];
      if check && h.position > |t[h.target]| then Err(PositionExceedsMaximum(h.position, |t[h.target]|))
      else if Within(t, h.source, h.target) then Err(HierarchyRequest(h.source, h.target))
      else
        var r := InsertAll(Attach(t, h.target, h.position, h.source), l[1..], check);
        assert r.Err? && r.error.HierarchyRequest? ==>
          exists i | 0 <= i < |l| :: r.error == HierarchyRequest(l[i].source, l[i].target) by {
          if r.Err? && r.error.HierarchyRequest? {
            var i :| 0 <= i < |l| - 1 && r.error == HierarchyRequest(l[1..][i].source, l[1..][i].target);
            assert l[1..][i] == l[i + 1];
          }
        }
        r
  }

  /** Remove all listed sources, then insert them in list order. */
  ghost function ApplyList(t: Layout, l: seq<Instruction>, check: bool): Result<Layout>
    requires TargetsIn(l, t)
  {
    InsertAll(RemoveAll(t, l), l, check)
  }

  /** Removing the listed sources one by one takes exactly those sources out of the tree. */
  lemma {:induction false} RemoveAllIsOffSources(t: Layout, l: seq<Instruction>)
    ensures RemoveAll(t, l) == OffSources(t, Sources(l))
  {
    if l == [] {
      assert Sources(l) == {};
      OffSourcesNone(t);
    } else {
      var s := l[0].source;
      RemoveAllIsOffSources(Detach(t, s), l[1..]);
      assert Sources(l) == {s} + Sources(l[1..]) by {
        forall x | x in Sources(l) ensures x in {s} + Sources(l[1..]) {
          var i :| 0 <= i < |l| && l[i].source == x;
          if i > 0 { assert l[1..][i - 1].source == x; }
        }
      }
      DetachThenOffSources(t, s, Sources(l[1..]));
    }
  }

  lemma {:induction false} OffSourcesNone(t: Layout)
    ensures OffSources(t, {}) == t
  {
    forall p | p in t ensures OffSources(t, {})[p] == t[p] {
      FilterNone(t[p], {});
    }
  }

  lemma {:induction false} DetachThenOffSources(t: Layout, s: Node, r: set<Node>)
    ensures OffSources(Detach(t, s), r) == OffSources(t, {s} + r)
  {
    var a, b := OffSources(Detach(t, s), r), OffSources(t, {s} + r);
    forall p | p in t ensures a[p] == b[p] {
      FilterFilter(t[p], {s}, r);
    }
  }

  // ---------------------------------------------------------------------
  // Why the regenerated lists are safe to apply without the bound check.

  /** Every entry names the slot that its source occupies in `t0`. */
  predicate Records(l: seq<Instruction>, t0: Layout)
  {
    forall i | 0 <= i < |l| ::
      && l[i].target in t0
      && l[i].position < |t0[l[i].target]|
      && t0[l[i].target][l[i].position] == l[i].source
  }

  lemma {:induction false} SourcesOfTail(l: seq<Instruction>)
    requires l != [] && DistinctSources(l)
    ensures Sources(l[1..]) == Sources(l) - {l[0].source}
  {
    forall x | x in Sources(l) - {l[0].source} ensures x in Sources(l[1..]) {
      var i :| 0 <= i < |l| && l[i].source == x;
      assert l[1..][i - 1].source == x;
    }
    forall x | x in Sources(l[1..]) ensures x in Sources(l) - {l[0].source} {
      var i :| 0 <= i < |l| - 1 && l[1..][i].source == x;
      assert l[i + 1].source == x;
    }
  }

  /**
   * In a sorted record of `t0`, every source that sits under the first
   * entry's target at a smaller index than the first entry comes before it,
   * so it is not among the sources still to insert.
   */
  lemma {:induction false} SlotsBeforeHeadAreDone(t0: Layout, rest: seq<Instruction>, j: nat)
    requires WellFormed(t0) && Records(rest, t0) && SortedByPosition(rest)
    requires rest != [] && j < rest[0].position
    ensures t0[rest[0].target][j] !in Sources(rest)
  {
    var p := rest[0].target;
    var c := t0[p];
    forall k | 0 <= k < |rest| ensures rest[k].source != c[j] {
      var q, pos := rest[k].target, rest[k].position;
      assert rest[0].position <= pos;
      if q == p {
        assert c[pos] == rest[k].source && j < pos;
      } else {
        assert rest[k].source in t0[q];
        assert c[j] in t0[p];
      }
    }
  }

  /**
   * Within one child sequence: when every member before index `i` is already
   * in place, the sequence without `R` is the prefix followed by the filtered
   * rest, and inserting `c[i]` at `i` gives the sequence without `R - {c[i]}`.
   */
  lemma {:induction false} FilterAroundSlot(c: seq<Node>, i: nat, r: set<Node>, r': set<Node>)
    requires NoDup(c) && i < |c| && c[i] in r && r' == r - {c[i]}
    requires forall x | x in c[..i] :: x !in r
    ensures i <= |Filter(c, r)|
    ensures InsertBefore(Filter(c, r), i, c[i]) == Filter(c, r')
  {
    var s, head, tail := c[i], c[..i], c[i + 1..];
    assert c == head + [s] + tail;
    assert s !in tail by {
      forall k | 0 <= k < |tail| ensures tail[k] != s {
        assert tail[k] == c[i + 1 + k];
      }
    }
    assert Filter(c, r) == head + Filter(tail, r) by {
      FilterNone(head, r);
      FilterAroundPoint(head, s, tail, r);
    }
    assert Filter(c, r') == head + [s] + Filter(tail, r) by {
      FilterNone(head, r');
      FilterSameOn(tail, r, r');
      FilterAroundPoint(head, s, tail, r');
    }
    InsertBeforeSplit(head, Filter(tail, r), s);
  }

  lemma {:induction false} FilterAroundPoint(head: seq<Node>, s: Node, tail: seq<Node>, r: set<Node>)
    ensures Filter(head + [s] + tail, r) == Filter(head, r) + (if s in r then [] else [s]) + Filter(tail, r)
  {
    FilterConcat(head + [s], tail, r);
    FilterConcat(head, [s], r);
  }

  lemma {:induction false} InsertBeforeSplit(head: seq<Node>, tail: seq<Node>, s: Node)
    ensures InsertBefore(head + tail, |head|, s) == head + [s] + tail
  {
    var ins := InsertBefore(head + tail, |head|, s);
    assert ins == ins[..|head|] + [ins[|head|]] + ins[|head| + 1..];
    assert (head + tail)[..|head|] == head && (head + tail)[|head|..] == tail;
  }

  /**
   * One step of InsertAllRestores: the first entry passes the bound check and
   * its insertion leaves `t0` without the remaining sources.
   */
  lemma {:induction false} InsertHeadRestores(t0: Layout, rest: seq<Instruction>)
    requires WellFormed(t0) && Acyclic(t0) && Records(rest, t0) && SortedByPosition(rest) && DistinctSources(rest)
    requires rest != []
    ensures rest[0].position <= |OffSources(t0, Sources(rest))[rest[0].target]|
    ensures !Within(OffSources(t0, Sources(rest)), rest[0].source, rest[0].target)
    ensures Attach(OffSources(t0, Sources(rest)), rest[0].target, rest[0].position, rest[0].source)
         == OffSources(t0, Sources(rest[1..]))
  {
    var cur := OffSources(t0, Sources(rest));
    var p, i, s := rest[0].target, rest[0].position, rest[0].source;
    var R := Sources(rest);
    var c := t0[p];
    // The source is a child of its target in t0, so the target is not below it.
    assert s in t0[p];
    OffSourcesContained(t0, R);
    WithinContained(cur, t0, s, p);
    // The children of p in front of index i are all in place already.
    forall x | x in c[..i] ensures x !in R {
      var j :| 0 <= j < i && c[..i][j] == x;
      SlotsBeforeHeadAreDone(t0, rest, j);
    }
    SourcesOfTail(rest);
    var R' := Sources(rest[1..]);
    FilterAroundSlot(c, i, R, R');
    AttachRestoresRow(t0, R, R', p, i, s);
  }

  /**
   * Putting `s` back into the one row it came from turns the layout without
   * `R` into the layout without `R` minus `s`.
   */
  lemma {:induction false} AttachRestoresRow(t0: Layout, R: set<Node>, R': set<Node>, p: Node, i: nat, s: Node)
    requires WellFormed(t0) && p in t0 && s in t0[p] && R' == R - {s}
    requires InsertBefore(Filter(t0[p], R), i, s) == Filter(t0[p], R')
    ensures Attach(OffSources(t0, R), p, i, s) == OffSources(t0, R')
  {
    var next := Attach(OffSources(t0, R), p, i, s);
    var goal := OffSources(t0, R');
    forall q | q in t0 ensures next[q] == goal[q] {
      if q != p {
        assert s !in t0[q];
        FilterSameOn(t0[q], R, R');
        assert next[q] == OffSources(t0, R)[q];
      }
    }
    assert next.Keys == goal.Keys;
  }

  /**
   * Inserting the not yet inserted sources of a sorted record of `t0`, in
   * list order, into `t0` without them rebuilds `t0`: no insertion exceeds
   * its target's child count, and none puts a source inside its own subtree.
   */
  lemma {:induction false} InsertAllRestores(t0: Layout, rest: seq<Instruction>, check: bool)
    requires WellFormed(t0) && Acyclic(t0) && Records(rest, t0) && SortedByPosition(rest) && DistinctSources(rest)
    ensures TargetsIn(rest, OffSources(t0, Sources(rest)))
    ensures InsertAll(OffSources(t0, Sources(rest)), rest, check) == Ok(t0)
  {
    var cur := OffSources(t0, Sources(rest));
    if rest == [] {
      assert Sources(rest) == {};
      OffSourcesNone(t0);
    } else {
      InsertHeadRestores(t0, rest);
      SourcesOfTail(rest);
      assert Records(rest[1..], t0) && SortedByPosition(rest[1..]) && DistinctSources(rest[1..]) by {
        forall k | 0 <= k < |rest| - 1 ensures rest[1..][k] == rest[k + 1] { }
      }
      InsertAllRestores(t0, rest[1..], check);
    }
  }

  /**
   * Removing every listed source and then inserting them in list order
   * reproduces `t0` from any tree that differs from `t0` only in where the
   * listed sources are, when the list is a sorted record of the tree `t0`;
   * in particular neither the bound check nor the DOM's hierarchy check
   * fires.
   */
  lemma {:induction false} ApplyReproducesLayout(t: Layout, t0: Layout, l: seq<Instruction>, check: bool)
    requires WellFormed(t0) && Acyclic(t0) && Records(l, t0) && SortedByPosition(l) && DistinctSources(l)
    requires OffSources(t, Sources(l)) == OffSources(t0, Sources(l))
    ensures TargetsIn(l, t)
    ensures ApplyList(t, l, check) == Ok(t0)
  {
    RemoveAllIsOffSources(t, l);
    InsertAllRestores(t0, l, check);
  }
}
