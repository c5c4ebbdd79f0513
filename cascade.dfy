/**
 * Where the simulation leaves each source. A key moves only the sources
 * configured at it; every other source stays in the slot the previously
 * simulated key left it in. So in every snapshot a source sits under the
 * target of the last simulated key that configures it, and the table
 * depends on the order in which the keys are simulated.
 */
module Cascade {
  import opened Layouts
  import opened Errors
  import opened Selection
  import opened Instructions
  import opened Validation
  import opened Storage

  // ---------------------------------------------------------------------
  // What one step moves

  /** No child sequence of `t` holds a member of `s`. */
  ghost predicate Absent(t: Layout, s: set<Node>)
  {
    forall p, y | p in t && y in t[p] :: y !in s
  }

  /** Inserting one element adds exactly that element to its target's children. */
  lemma {:induction false} AttachMembers(t: Layout, h: Instruction, q: Node, y: Node)
    requires h.target in t && q in t
    ensures y in Attach(t, h.target, h.position, h.source)[q] <==> y in t[q] || (y == h.source && q == h.target)
  {
    var t' := Attach(t, h.target, h.position, h.source);
    if q == h.target {
      assert y in t'[q] <==> y in multiset(t'[q]);
      assert y in t[q] <==> y in multiset(t[q]);
    }
  }

  /** Inserting a list leaves every element it does not name under the node that held it. */
  lemma {:induction false} InsertAllKeeps(t: Layout, l: seq<Instruction>, check: bool, y: Node, p: Node)
    requires TargetsIn(l, t) && InsertAll(t, l, check).Ok? && p in t && y !in Sources(l)
    ensures y in InsertAll(t, l, check).value[p] <==> y in t[p]
  {
    if l != [] {
      var h, rest := l[0], l[1..];
      assert y != l[0].source;
      AttachMembers(t, h, p, y);
      forall i | 0 <= i < |rest| ensures rest[i].source != y {
        assert rest[i] == l[i + 1];
      }
      InsertAllKeeps(Attach(t, h.target, h.position, h.source), rest, check, y, p);
    }
  }

  /**
   * Inserting a list into a tree that holds none of its sources puts each
   * source under its own target and nowhere else.
   */
  lemma {:induction false} InsertAllPlaces(t: Layout, l: seq<Instruction>, check: bool, i: nat, p: Node)
    requires TargetsIn(l, t) && DistinctSources(l) && InsertAll(t, l, check).Ok?
    requires Absent(t, Sources(l)) && i < |l| && p in t
    ensures l[i].source in InsertAll(t, l, check).value[p] <==> p == l[i].target
    decreases |l|, 1
  {
    if i == 0 {
      InsertAllPlacesFirst(t, l, check, p);
    } else {
      InsertAllTail(t, l, check);
      InsertAllPlacesLater(t, l, check, i, p);
    }
  }

  /** InsertAllPlaces for a later entry: the rest of the list is inserted into the tree after the first. */
  lemma {:induction false} InsertAllPlacesLater(t: Layout, l: seq<Instruction>, check: bool, i: nat, p: Node)
    requires TargetsIn(l, t) && 0 < i < |l| && p in t
    requires var t' := Attach(t, l[0].target, l[0].position, l[0].source);
      && TargetsIn(l[1..], t') && DistinctSources(l[1..]) && Absent(t', Sources(l[1..]))
      && InsertAll(t', l[1..], check).Ok? && InsertAll(t', l[1..], check) == InsertAll(t, l, check)
    ensures InsertAll(t, l, check).Ok?
    ensures l[i].source in InsertAll(t, l, check).value[p] <==> p == l[i].target
    decreases |l|, 0
  {
    var rest := l[1..];
    var t' := Attach(t, l[0].target, l[0].position, l[0].source);
    assert rest[i - 1] == l[i];
    InsertAllPlaces(t', rest, check, i - 1, p);
  }

  /** InsertAllPlaces for the first entry: no later entry moves its source again. */
  lemma {:induction false} InsertAllPlacesFirst(t: Layout, l: seq<Instruction>, check: bool, p: Node)
    requires TargetsIn(l, t) && DistinctSources(l) && InsertAll(t, l, check).Ok?
    requires Absent(t, Sources(l)) && l != [] && p in t
    ensures l[0].source in InsertAll(t, l, check).value[p] <==> p == l[0].target
  {
    var h, rest := l[0], l[1..];
    var t' := Attach(t, h.target, h.position, h.source);
    SourcesOfTail(l);
    assert h.source in Sources(l);
    AttachMembers(t, h, p, h.source);
    InsertAllKeeps(t', rest, check, h.source, p);
  }

  /** After the first entry, the rest of the list is inserted into a tree that still lacks its sources. */
  lemma {:induction false} InsertAllTail(t: Layout, l: seq<Instruction>, check: bool)
    requires TargetsIn(l, t) && DistinctSources(l) && InsertAll(t, l, check).Ok?
    requires Absent(t, Sources(l)) && l != []
    ensures var t' := Attach(t, l[0].target, l[0].position, l[0].source);
      && TargetsIn(l[1..], t') && DistinctSources(l[1..]) && Absent(t', Sources(l[1..]))
      && InsertAll(t', l[1..], check) == InsertAll(t, l, check)
  {
    var h, rest := l[0], l[1..];
    var t' := Attach(t, h.target, h.position, h.source);
    SourcesOfTail(l);
    forall q, y | q in t' && y in t'[q] ensures y !in Sources(rest) {
      AttachMembers(t, h, q, y);
    }
    forall a, b | 0 <= a < b < |rest| ensures rest[a].source != rest[b].source {
      assert rest[a] == l[a + 1] && rest[b] == l[b + 1];
    }
  }

  /** The tree a step inserts into: its list's sources taken out. */
  lemma {:induction false} StepRemoved(cur: Layout, l: seq<Instruction>, y: Node, p: Node)
    requires p in cur
    ensures var sorted := SortByPosition(l);
      && Sources(sorted) == Sources(l)
      && Absent(RemoveAll(cur, sorted), Sources(sorted))
      && (y in RemoveAll(cur, sorted)[p] <==> y in cur[p] && y !in Sources(l))
  {
    var sorted := SortByPosition(l);
    SortByPositionMembers(l);
    RemoveAllIsOffSources(cur, sorted);
    var removed := RemoveAll(cur, sorted);
    forall q, z | q in removed && z in removed[q] ensures z !in Sources(sorted) {
      FilterMembers(cur[q], Sources(sorted), z);
    }
    FilterMembers(cur[p], Sources(sorted), y);
  }

  /** One simulated key leaves every element its list does not name under the node that held it. */
  lemma {:induction false} StepKeeps(cur: Layout, l: seq<Instruction>, y: Node, p: Node)
    requires TargetsIn(l, cur) && Step(cur, l).Ok? && p in cur && y !in Sources(l)
    ensures y in Step(cur, l).value[p] <==> y in cur[p]
  {
    var sorted := SortByPosition(l);
    SortByPositionTargets(l, cur);
    StepRemoved(cur, l, y, p);
    InsertAllKeeps(RemoveAll(cur, sorted), sorted, true, y, p);
  }

  /** One simulated key puts each source its list names under that entry's target and nowhere else. */
  lemma {:induction false} StepPlaces(cur: Layout, l: seq<Instruction>, x: Instruction, p: Node)
    requires TargetsIn(l, cur) && DistinctSources(l) && Step(cur, l).Ok? && p in cur && x in l
    ensures x.source in Step(cur, l).value[p] <==> p == x.target
  {
    var sorted := SortByPosition(l);
    SortByPositionTargets(l, cur);
    var removed := RemoveAll(cur, sorted);
    assert Step(cur, l) == InsertAll(removed, sorted, true);
    assert x.source in InsertAll(removed, sorted, true).value[p] <==> p == x.target by {
      SortByPositionMembers(l);
      SortByPositionDistinct(l);
      StepRemoved(cur, l, x.source, p);
      assert x in sorted;
      var i :| 0 <= i < |sorted| && sorted[i] == x;
      InsertAllPlaces(removed, sorted, true, i, p);
    }
  }

  /** A key's list holds an object's entry for it, and no entry for an object not configured at it. */
  lemma {:induction false} ListForEntry(vs: seq<ValidSpec>, k: Key, j: nat)
    requires SourcesDistinct(vs) && j < |vs|
    ensures Configured(vs[j], k) == [] ==> vs[j].source !in Sources(ListFor(vs, k))
    ensures Configured(vs[j], k) != [] ==> Configured(vs[j], k)[0] in ListFor(vs, k)
  {
    var l := ListFor(vs, k);
    if Configured(vs[j], k) == [] {
      forall m | 0 <= m < |l| ensures l[m].source != vs[j].source {
        assert l[m] in l;
        var i :| 0 <= i < |vs| && l[m] in Configured(vs[i], k);
        assert i != j;
      }
    }
  }

  // ---------------------------------------------------------------------
  // Where every snapshot puts a source

  /** The target of the last key of `keys` that configures `v`, if any. */
  function LastTarget(v: ValidSpec, keys: seq<Key>): Option<Node>
  {
    if keys == [] then None
    else
      var c := Configured(v, keys[|keys| - 1]);
      if c != [] then Some(c[0].target) else LastTarget(v, keys[..|keys| - 1])
  }

  /** After simulating `keys`, the source of `v` is a child of `p`. */
  predicate InPlace(v: ValidSpec, keys: seq<Key>, t0: Layout, p: Node)
    requires p in t0
  {
    match LastTarget(v, keys)
    case Some(q) => p == q
    case None => v.source in t0[p]
  }

  /**
   * In the snapshot of the `i`-th key, each source is a child of exactly
   * the target of the last key up to `i` that configures it, and of the
   * node that held it at the start when no such key exists.
   */
  lemma {:induction false} SimulateWhere(t0: Layout, vs: seq<ValidSpec>, keys: seq<Key>, i: nat, j: nat, p: Node)
    requires SourcesDistinct(vs) && TargetsKnown(vs, t0.Keys) && Simulate(t0, vs, keys).Ok?
    requires i < |keys| && j < |vs| && p in t0
    ensures vs[j].source in Simulate(t0, vs, keys).value[i][p] <==> InPlace(vs[j], keys[..i + 1], t0, p)
    decreases |keys|, 1
  {
    if i < |keys| - 1 {
      WhereBefore(t0, vs, keys, i, j, p);
    } else {
      WhereFinal(t0, vs, keys, j, p);
    }
  }

  /** SimulateWhere for a key before the last: the simulation without the last key decides it. */
  lemma {:induction false} WhereBefore(t0: Layout, vs: seq<ValidSpec>, keys: seq<Key>, i: nat, j: nat, p: Node)
    requires SourcesDistinct(vs) && TargetsKnown(vs, t0.Keys) && Simulate(t0, vs, keys).Ok?
    requires i < |keys| - 1 && j < |vs| && p in t0
    ensures vs[j].source in Simulate(t0, vs, keys).value[i][p] <==> InPlace(vs[j], keys[..i + 1], t0, p)
    decreases |keys|, 0
  {
    var init := keys[..|keys| - 1];
    var ss := SimulatePrefix(t0, vs, keys);
    SimulateWhere(t0, vs, init, i, j, p);
    assert ss[i].Keys == t0.Keys;
    WhereEarlier(vs[j], keys, i, t0, p, ss[i]);
    assert Simulate(t0, vs, keys).value[i] == ss[i];
  }

  /** SimulateWhere for the last key: one step from the snapshot before it. */
  lemma {:induction false} WhereFinal(t0: Layout, vs: seq<ValidSpec>, keys: seq<Key>, j: nat, p: Node)
    requires SourcesDistinct(vs) && TargetsKnown(vs, t0.Keys) && Simulate(t0, vs, keys).Ok?
    requires 0 < |keys| && j < |vs| && p in t0
    ensures vs[j].source in Simulate(t0, vs, keys).value[|keys| - 1][p] <==> InPlace(vs[j], keys[..|keys|], t0, p)
    decreases |keys|, 0
  {
    var init := keys[..|keys| - 1];
    var ss := SimulatePrefix(t0, vs, keys);
    if |keys| > 1 {
      SimulateWhere(t0, vs, init, |keys| - 2, j, p);
    }
    WhereLast(t0, vs, keys, init, ss, j, p);
  }

  /** Dropping the last key keeps the snapshots of the keys before it. */
  lemma {:induction false} SimulatePrefix(t0: Layout, vs: seq<ValidSpec>, keys: seq<Key>) returns (ss: seq<Layout>)
    requires TargetsKnown(vs, t0.Keys) && Simulate(t0, vs, keys).Ok? && keys != []
    ensures Simulate(t0, vs, keys[..|keys| - 1]) == Ok(ss)
    ensures forall i | 0 <= i < |keys| - 1 :: Simulate(t0, vs, keys).value[i] == ss[i]
  {
    var n := |keys| - 1;
    assert keys[..n + 1] == keys;
    ss := Simulate(t0, vs, keys[..n]).value;
  }

  /** A snapshot before the last key of SimulateWhere, from the simulation without that key. */
  lemma {:induction false} WhereEarlier(v: ValidSpec, keys: seq<Key>, i: nat, t0: Layout, p: Node, snap: Layout)
    requires i < |keys| - 1 && p in t0 && p in snap
    requires v.source in snap[p] <==> InPlace(v, keys[..|keys| - 1][..i + 1], t0, p)
    ensures v.source in snap[p] <==> InPlace(v, keys[..i + 1], t0, p)
  {
    assert keys[..|keys| - 1][..i + 1] == keys[..i + 1];
  }

  /** The last snapshot of SimulateWhere, from the one before it. */
  lemma {:induction false} WhereLast(t0: Layout, vs: seq<ValidSpec>, keys: seq<Key>, init: seq<Key>, ss: seq<Layout>,
                                      j: nat, p: Node)
    requires SourcesDistinct(vs) && TargetsKnown(vs, t0.Keys) && keys != [] && init == keys[..|keys| - 1]
    requires Simulate(t0, vs, init) == Ok(ss) && Simulate(t0, vs, keys).Ok?
    requires j < |vs| && p in t0
    requires |keys| > 1 ==> (vs[j].source in ss[|keys| - 2][p] <==> InPlace(vs[j], init[..|keys| - 1], t0, p))
    ensures vs[j].source in Simulate(t0, vs, keys).value[|keys| - 1][p] <==> InPlace(vs[j], keys[..|keys|], t0, p)
  {
    var n := |keys| - 1;
    assert init[..n] == init;
    SimulateExtend(t0, vs, keys, n, ss);
    assert keys[..n + 1] == keys;
    var cur := if n == 0 then t0 else ss[n - 1];
    StepWhere(cur, vs, keys[n], j, p);
    var c := Configured(vs[j], keys[n]);
    if c == [] {
      assert LastTarget(vs[j], keys) == LastTarget(vs[j], init);
      assert n == 0 ==> init == [];
    } else {
      assert LastTarget(vs[j], keys) == Some(c[0].target);
    }
  }

  /**
   * One simulated key moves an object's source under that key's target
   * when the object configures the key, and leaves it where it was
   * otherwise.
   */
  lemma {:induction false} StepWhere(cur: Layout, vs: seq<ValidSpec>, k: Key, j: nat, p: Node)
    requires SourcesDistinct(vs) && TargetsIn(ListFor(vs, k), cur) && Step(cur, ListFor(vs, k)).Ok?
    requires j < |vs| && p in cur
    ensures var c := Configured(vs[j], k);
      vs[j].source in Step(cur, ListFor(vs, k)).value[p] <==>
        if c != [] then p == c[0].target else vs[j].source in cur[p]
  {
    var l := ListFor(vs, k);
    ListForDistinct(vs, k);
    ListForEntry(vs, k, j);
    var c := Configured(vs[j], k);
    if c == [] {
      StepKeeps(cur, l, vs[j].source, p);
    } else {
      StepPlaces(cur, l, c[0], p);
    }
  }

  // ---------------------------------------------------------------------
  // The intended reading: desktop first

  /** `t` is the smallest threshold of `v` that is at least `w`. */
  ghost predicate Governs(v: ValidSpec, w: real, t: real)
  {
    && t in v.breakpoints
    && w <= t
    && forall u | u in v.breakpoints && w <= u :: t <= u
  }

  /**
   * Desktop first: while the width is `w`, the source of `v` belongs under
   * the target of its smallest threshold that is at least `w`, and under
   * its `default` parent when every threshold is below `w`.
   */
  ghost predicate Intended(v: ValidSpec, w: real, p: Node)
  {
    || (exists t :: Governs(v, w, t) && p == v.breakpoints[t].target)
    || ((forall u | u in v.breakpoints :: u < w) && p == v.default.target)
  }

  /** Every threshold of `v` is among the triggers. */
  ghost predicate Listed(v: ValidSpec, triggers: seq<Key>)
  {
    forall u | u in v.breakpoints :: Threshold(u) in triggers
  }

  /**
   * Walking descending thresholds, the last key that configures `v` is its
   * smallest threshold at least as large as the current one.
   */
  lemma {:induction false} DescendingLast(v: ValidSpec, triggers: seq<Key>, n: nat)
    requires Descending(triggers) && Listed(v, triggers) && 0 < n < |triggers|
    ensures forall t | Governs(v, triggers[n - 1].width, t) ::
      LastTarget(v, triggers[..n]) == Some(v.breakpoints[t].target)
    ensures (forall u | u in v.breakpoints :: u < triggers[n - 1].width) ==> LastTarget(v, triggers[..n]) == None
    decreases n, 1
  {
    var w := triggers[n - 1].width;
    var keys := triggers[..n];
    assert keys[..n - 1] == triggers[..n - 1];
    forall t | Governs(v, w, t) ensures LastTarget(v, keys) == Some(v.breakpoints[t].target) {
      DescendingGoverned(v, triggers, n, t);
    }
    if (forall u | u in v.breakpoints :: u < w) && n > 1 {
      DescendingLast(v, triggers, n - 1);
    }
  }

  /** DescendingLast for one governing threshold. */
  lemma {:induction false} DescendingGoverned(v: ValidSpec, triggers: seq<Key>, n: nat, t: real)
    requires Descending(triggers) && Listed(v, triggers) && 0 < n < |triggers|
    requires Governs(v, triggers[n - 1].width, t)
    ensures LastTarget(v, triggers[..n]) == Some(v.breakpoints[t].target)
    decreases n, 0
  {
    var w := triggers[n - 1].width;
    var keys := triggers[..n];
    assert keys[..n - 1] == triggers[..n - 1];
    if w !in v.breakpoints {
      var m :| 0 <= m < |triggers| && triggers[m] == Threshold(t);
      assert m < n - 1;
      DescendingLast(v, triggers, n - 1);
      assert Governs(v, triggers[n - 2].width, t);
    }
  }

  /**
   * With the descending order of the earlier version, every snapshot of a
   * numeric trigger puts each source where desktop first says it belongs at
   * that width.
   */
  lemma {:induction false} DescendingCascade(t0: Layout, vs: seq<ValidSpec>, triggers: seq<Key>, i: nat, j: nat, p: Node)
    requires WellFormed(t0) && DefaultsRecord(vs, t0) && SourcesDistinct(vs) && TargetsKnown(vs, t0.Keys)
    requires Descending(triggers) && (forall j | 0 <= j < |vs| :: Listed(vs[j], triggers))
    requires Simulate(t0, vs, triggers).Ok?
    requires i < |triggers| - 1 && j < |vs| && p in t0
    ensures vs[j].source in Simulate(t0, vs, triggers).value[i][p] <==> Intended(vs[j], triggers[i].width, p)
  {
    SimulateWhere(t0, vs, triggers, i, j, p);
    CascadeOne(t0, vs[j], triggers, i, p);
  }

  lemma {:induction false} CascadeOne(t0: Layout, v: ValidSpec, triggers: seq<Key>, i: nat, p: Node)
    requires WellFormed(t0) && p in t0
    requires v.default.target in t0 && v.default.position < |t0[v.default.target]|
    requires t0[v.default.target][v.default.position] == v.source
    requires Descending(triggers) && Listed(v, triggers) && i < |triggers| - 1
    ensures InPlace(v, triggers[..i + 1], t0, p) <==> Intended(v, triggers[i].width, p)
  {
    var w := triggers[i].width;
    DescendingLast(v, triggers, i + 1);
    if forall u | u in v.breakpoints :: u < w {
      assert v.source in t0[v.default.target];
      assert v.source in t0[p] <==> p == v.default.target;
      assert forall t :: !Governs(v, w, t);
    } else {
      var u :| u in v.breakpoints && w <= u;
      var t := SmallestAbove(v, w, u);
      assert forall t' | Governs(v, w, t') :: t' == t;
    }
  }

  /** Some threshold of `v` is at least `w`, so a smallest one exists. */
  lemma {:induction false} SmallestAbove(v: ValidSpec, w: real, u: real) returns (t: real)
    requires u in v.breakpoints && w <= u
    ensures Governs(v, w, t)
    decreases set x | x in v.breakpoints && w <= x && x < u
  {
    var below := set x | x in v.breakpoints && w <= x && x < u;
    if below == {} {
      t := u;
      forall x | x in v.breakpoints && w <= x ensures t <= x {
        assert x !in below;
      }
    } else {
      var x :| x in below;
      var below' := set y | y in v.breakpoints && w <= y && y < x;
      assert below' < below by {
        assert below' <= below;
        assert x in below && x !in below';
      }
      t := SmallestAbove(v, w, x);
    }
  }

  // ---------------------------------------------------------------------
  // From the snapshots to the width

  /** Every numeric snapshot puts each source where desktop first says it belongs at that threshold. */
  ghost predicate Lands(snapshot: map<Key, Layout>, vs: seq<ValidSpec>, start: Layout)
  {
    forall t, j, p | Threshold(t) in snapshot && 0 <= j < |vs| && p in start ::
      p in snapshot[Threshold(t)] && (vs[j].source in snapshot[Threshold(t)][p] <==> Intended(vs[j], t, p))
  }

  /**
   * When `t` is the trigger selected for width `w`, an object whose
   * thresholds are all triggers belongs at `w` where it belongs at `t`.
   */
  lemma {:induction false} SelectedIntended(v: ValidSpec, triggers: seq<Key>, w: real, t: real, p: Node)
    requires Listed(v, triggers) && Selects(triggers, w, Threshold(t))
    ensures Intended(v, t, p) <==> Intended(v, w, p)
  {
    forall x ensures Governs(v, w, x) <==> Governs(v, t, x) {
      if Governs(v, w, x) {
        assert Threshold(x) in triggers;
      }
    }
    forall u | u in v.breakpoints ensures u < w <==> u < t {
      assert Threshold(u) in triggers;
    }
  }

  /**
   * The snapshot of the trigger selected for width `w` puts each source
   * where desktop first says it belongs at `w`.
   */
  lemma {:induction false} Arrives(snapshot: map<Key, Layout>, vs: seq<ValidSpec>, start: Layout, triggers: seq<Key>,
                                   w: real, k: Key, j: nat, p: Node)
    requires Lands(snapshot, vs, start) && k in snapshot && Selects(triggers, w, k)
    requires j < |vs| && Listed(vs[j], triggers) && p in start
    requires k == Default ==> snapshot[k] == start && WellFormed(start) && DefaultsRecord(vs, start)
    ensures p in snapshot[k] && (vs[j].source in snapshot[k][p] <==> Intended(vs[j], w, p))
  {
    var v := vs[j];
    match k
    case Threshold(t) =>
      SelectedIntended(v, triggers, w, t, p);
    case Default =>
      forall u | u in v.breakpoints ensures u < w {
        assert Threshold(u) in triggers;
      }
      assert v.source in start[v.default.target];
  }

  /**
   * The snapshots follow the objects: every threshold of every object is a
   * trigger, every snapshot has the nodes of the start, the numeric snapshots place each source as desktop first
   * says, and the `default` snapshot is the starting layout, where every
   * source sits in the slot its `default` records.
   */
  ghost predicate Intends(specs: seq<ValidSpec>, snapshot: map<Key, Layout>, start: Layout, triggers: seq<Key>)
  {
    && (forall j | 0 <= j < |specs| :: Listed(specs[j], triggers))
    && (forall k | k in snapshot :: snapshot[k].Keys == start.Keys)
    && Lands(snapshot, specs, start)
    && Default in snapshot && snapshot[Default] == start
    && WellFormed(start) && DefaultsRecord(specs, start)
  }

  /** Every source of the snapshot selected for width `w` is where desktop first says it belongs at `w`. */
  lemma {:induction false} ArrivesAll(specs: seq<ValidSpec>, snapshot: map<Key, Layout>, start: Layout,
                                      triggers: seq<Key>, w: real, k: Key)
    requires Intends(specs, snapshot, start, triggers) && k in snapshot && Selects(triggers, w, k)
    ensures snapshot[k].Keys == start.Keys
    ensures forall j, p | 0 <= j < |specs| && p in start ::
      specs[j].source in snapshot[k][p] <==> Intended(specs[j], w, p)
  {
    forall j, p | 0 <= j < |specs| && p in start
      ensures p in snapshot[k] && (specs[j].source in snapshot[k][p] <==> Intended(specs[j], w, p))
    {
      Arrives(snapshot, specs, start, triggers, w, k, j, p);
    }
  }

  // ---------------------------------------------------------------------
  // The order of the current version

  /** No source is a container: every source is a leaf of the layouts the simulation visits. */
  predicate LeafSources(vs: seq<ValidSpec>, t: Layout)
  {
    forall j | 0 <= j < |vs| :: vs[j].source !in t
  }

  /**
   * Inserting leaves at position 0 trips neither the bound check nor the
   * hierarchy check.
   */
  lemma {:induction false} InsertAllAtFront(t: Layout, l: seq<Instruction>)
    requires TargetsIn(l, t) && forall i | 0 <= i < |l| :: l[i].position == 0 && l[i].source !in t
    ensures InsertAll(t, l, true).Ok?
  {
    if l != [] {
      var h := l[0];
      BelowLeaf(t, h.source, h.target);
      assert TargetsIn(l[1..], Attach(t, h.target, h.position, h.source)) by {
        forall i | 0 <= i < |l| - 1 ensures l[1..][i] == l[i + 1] { }
      }
      InsertAllAtFront(Attach(t, h.target, h.position, h.source), l[1..]);
    }
  }

  /** A key whose every entry moves a leaf to position 0 always simulates. */
  lemma {:induction false} StepAtFront(cur: Layout, l: seq<Instruction>)
    requires TargetsIn(l, cur) && forall x | x in l :: x.position == 0 && x.source !in cur
    ensures Step(cur, l).Ok?
  {
    var sorted := SortByPosition(l);
    SortByPositionMembers(l);
    SortByPositionTargets(l, cur);
    var u := RemoveAll(cur, sorted);
    forall i | 0 <= i < |sorted| ensures sorted[i].position == 0 && sorted[i].source !in u {
      assert sorted[i] in l;
    }
    InsertAllAtFront(u, sorted);
  }

  /** Every threshold entry of every object inserts at position 0. */
  predicate AtFront(vs: seq<ValidSpec>)
  {
    forall j, u | 0 <= j < |vs| && u in vs[j].breakpoints :: vs[j].breakpoints[u].position == 0
  }

  /**
   * When every threshold entry is at position 0, so is every entry of a
   * numeric key's list, and every entry moves a source.
   */
  lemma {:induction false} ListAtFront(vs: seq<ValidSpec>, t: real, cur: Layout)
    requires AtFront(vs) && LeafSources(vs, cur)
    ensures forall x | x in ListFor(vs, Threshold(t)) :: x.position == 0 && x.source !in cur
  {
    forall x | x in ListFor(vs, Threshold(t)) ensures x.position == 0 && x.source !in cur {
      var i :| 0 <= i < |vs| && x in Configured(vs[i], Threshold(t));
    }
  }

  /**
   * When every threshold entry inserts at position 0 and no source is a
   * container, no key sequence makes the simulation fail: numeric keys
   * insert leaves at the front, and `default` restores the starting layout.
   */
  lemma {:induction false} AtFrontSimulates(t0: Layout, vs: seq<ValidSpec>, keys: seq<Key>)
    requires WellFormed(t0) && Acyclic(t0) && DefaultsRecord(vs, t0) && SourcesDistinct(vs) && TargetsKnown(vs, t0.Keys)
    requires AtFront(vs) && LeafSources(vs, t0)
    ensures Simulate(t0, vs, keys).Ok?
    decreases |keys|
  {
    if keys != [] {
      var n := |keys| - 1;
      AtFrontSimulates(t0, vs, keys[..n]);
      var ss := Simulate(t0, vs, keys[..n]).value;
      SimulateExtend(t0, vs, keys, n, ss);
      var cur := if n == 0 then t0 else ss[n - 1];
      if keys[n] == Default {
        SimulateKeepsOffSources(t0, vs, keys[..n]);
        DefaultStepRestores(cur, t0, vs);
      } else {
        ListAtFront(vs, keys[n].width, cur);
        StepAtFront(cur, ListFor(vs, keys[n]));
      }
      assert keys[..n + 1] == keys;
    }
  }

  /**
   * A page where elements 10 and 11 are the two children of node 1:
   * element 10 moves under node 2 at widths up to 768, element 11 under
   * node 3 at widths up to 992.
   */
  const ExampleLayout: Layout := map[1 := [10, 11], 2 := [], 3 := []]
  const ExampleSpecs: seq<ValidSpec> := [
    ValidSpec(10, map[768.0 := Place(2, 0)], Place(1, 0)),
    ValidSpec(11, map[992.0 := Place(3, 0)], Place(1, 1))
  ]

  /** The example is a page the validation accepts, with every threshold entry at position 0. */
  lemma {:induction false} ExampleFacts(t0: Layout, vs: seq<ValidSpec>)
    requires t0 == ExampleLayout && vs == ExampleSpecs
    ensures WellFormed(t0) && Acyclic(t0) && DefaultsRecord(vs, t0) && SourcesDistinct(vs) && TargetsKnown(vs, t0.Keys)
    ensures AtFront(vs) && LeafSources(vs, t0)
  {
    ExampleEntries(vs);
    ExampleTree(t0);
  }

  /** The example page is a tree: nodes 10 and 11 are the two children of node 1. */
  lemma {:induction false} ExampleTree(t0: Layout)
    requires t0 == ExampleLayout
    ensures WellFormed(t0) && Acyclic(t0)
  {
    assert t0.Keys == {1, 2, 3};
    forall p, q, x | p in t0 && q in t0 && p != q && x in t0[p] ensures x !in t0[q] {
      assert p == 1;
    }
    forall p, c | p in t0 && c in t0[p] ensures c !in t0 {
      assert p == 1;
    }
    LeavesAcyclic(t0);
  }

  /** The example's threshold entries, one per object. */
  lemma {:induction false} ExampleEntries(vs: seq<ValidSpec>)
    requires vs == ExampleSpecs
    ensures vs[0].breakpoints.Keys == {768.0} && vs[0].breakpoints[768.0] == Place(2, 0)
    ensures vs[1].breakpoints.Keys == {992.0} && vs[1].breakpoints[992.0] == Place(3, 0)
  {
  }

  /** The triggers of a page whose two objects have the thresholds 768 and 992. */
  lemma {:induction false} ExampleThresholds(vs: seq<ValidSpec>, variant: Variant)
    requires |vs| == 2 && vs[0].breakpoints.Keys == {768.0} && vs[1].breakpoints.Keys == {992.0}
    ensures Thresholds(vs) == [768.0, 992.0]
    ensures variant.Current? ==> TriggerOrder(variant, Thresholds(vs)) == [Threshold(768.0), Threshold(992.0), Default]
    ensures variant.Earlier? ==> TriggerOrder(variant, Thresholds(vs)) == [Threshold(992.0), Threshold(768.0), Default]
  {
    ExampleTriggers(vs);
    AscendingUnique([768.0, 992.0], Thresholds(vs));
    PairOrder(variant, Thresholds(vs));
  }

  lemma {:induction false} ExampleTriggers(vs: seq<ValidSpec>)
    requires |vs| == 2 && vs[0].breakpoints.Keys == {768.0} && vs[1].breakpoints.Keys == {992.0}
    ensures AllTriggers(vs) == {768.0, 992.0}
  {
    assert 768.0 in vs[0].breakpoints && 992.0 in vs[1].breakpoints;
    forall x | x in AllTriggers(vs) ensures x == 768.0 || x == 992.0 {
      var i, t :| 0 <= i < |vs| && t in vs[i].breakpoints && x == t;
    }
  }

  /** The two trigger arrays of the thresholds 768 and 992. */
  lemma {:induction false} PairOrder(variant: Variant, ts: seq<real>)
    requires ts == [768.0, 992.0]
    ensures variant.Current? ==> TriggerOrder(variant, ts) == [Threshold(768.0), Threshold(992.0), Default]
    ensures variant.Earlier? ==> TriggerOrder(variant, ts) == [Threshold(992.0), Threshold(768.0), Default]
  {
  }

  /**
   * As written in the current version the keys are simulated in ascending
   * order, so the snapshot of 992 inherits the move that 768 made: at a
   * width of 900, where 992 is selected, element 10 sits under node 2
   * although desktop first puts it back under node 1.
   */
  lemma {:induction false} AscendingMisplaces(t0: Layout, vs: seq<ValidSpec>)
    requires t0 == ExampleLayout && vs == ExampleSpecs
    ensures TriggerOrder(Current, Thresholds(vs)) == [Threshold(768.0), Threshold(992.0), Default]
    ensures Selects(TriggerOrder(Current, Thresholds(vs)), 900.0, Threshold(992.0))
    ensures Simulate(t0, vs, TriggerOrder(Current, Thresholds(vs))).Ok?
    ensures 10 in Simulate(t0, vs, TriggerOrder(Current, Thresholds(vs))).value[1][2]
    ensures !Intended(vs[0], 900.0, 2) && Intended(vs[0], 900.0, 1)
  {
    ExampleEntries(vs);
    ExampleThresholds(vs, Current);
    ExampleFacts(t0, vs);
    var asc := [Threshold(768.0), Threshold(992.0), Default];
    ExampleCarries(t0, vs, asc);
    ExampleIntended(vs);
  }

  /** Simulating 768 then 992 leaves element 10 where 768 put it. */
  lemma {:induction false} ExampleCarries(t0: Layout, vs: seq<ValidSpec>, asc: seq<Key>)
    requires WellFormed(t0) && Acyclic(t0) && DefaultsRecord(vs, t0) && SourcesDistinct(vs) && TargetsKnown(vs, t0.Keys)
    requires AtFront(vs) && LeafSources(vs, t0) && |vs| == 2 && vs[0].source == 10 && 2 in t0
    requires vs[0].breakpoints == map[768.0 := Place(2, 0)]
    requires asc == [Threshold(768.0), Threshold(992.0), Default]
    ensures Simulate(t0, vs, asc).Ok? && 10 in Simulate(t0, vs, asc).value[1][2]
  {
    AtFrontSimulates(t0, vs, asc);
    SimulateWhere(t0, vs, asc, 1, 0, 2);
    assert asc[..2] == [Threshold(768.0), Threshold(992.0)];
    assert LastTarget(vs[0], asc[..2]) == LastTarget(vs[0], [Threshold(768.0)]);
    assert [Threshold(768.0)][..0] == [];
  }

  /** At widths of 900 and 992 the first object of the example belongs under node 1, not node 2. */
  lemma {:induction false} ExampleIntended(vs: seq<ValidSpec>)
    requires vs == ExampleSpecs
    ensures !Intended(vs[0], 900.0, 2) && Intended(vs[0], 900.0, 1)
    ensures !Intended(vs[0], 992.0, 2) && Intended(vs[0], 992.0, 1)
  {
    assert !Governs(vs[0], 900.0, 768.0) && !Governs(vs[0], 992.0, 768.0);
  }

  /**
   * Simulated from the largest threshold down, as in the earlier version,
   * the same page keeps element 10 under node 1 in the snapshot of 992.
   */
  lemma {:induction false} DescendingPlaces(t0: Layout, vs: seq<ValidSpec>)
    requires t0 == ExampleLayout && vs == ExampleSpecs
    ensures TriggerOrder(Earlier, Thresholds(vs)) == [Threshold(992.0), Threshold(768.0), Default]
    ensures Simulate(t0, vs, TriggerOrder(Earlier, Thresholds(vs))).Ok?
    ensures 10 in Simulate(t0, vs, TriggerOrder(Earlier, Thresholds(vs))).value[0][1]
    ensures 10 !in Simulate(t0, vs, TriggerOrder(Earlier, Thresholds(vs))).value[0][2]
  {
    ExampleEntries(vs);
    ExampleThresholds(vs, Earlier);
    ExampleFacts(t0, vs);
    ExampleIntended(vs);
    ExampleListed(t0, vs, [Threshold(992.0), Threshold(768.0), Default]);
  }

  /** The descending simulation of the example puts element 10 where desktop first says at 992. */
  lemma {:induction false} ExampleListed(t0: Layout, vs: seq<ValidSpec>, desc: seq<Key>)
    requires WellFormed(t0) && Acyclic(t0) && DefaultsRecord(vs, t0) && SourcesDistinct(vs) && TargetsKnown(vs, t0.Keys)
    requires AtFront(vs) && LeafSources(vs, t0) && |vs| == 2 && vs[0].source == 10 && 1 in t0 && 2 in t0
    requires vs[0].breakpoints.Keys == {768.0} && vs[1].breakpoints.Keys == {992.0}
    requires desc == [Threshold(992.0), Threshold(768.0), Default]
    requires !Intended(vs[0], 992.0, 2) && Intended(vs[0], 992.0, 1)
    ensures Simulate(t0, vs, desc).Ok?
    ensures 10 in Simulate(t0, vs, desc).value[0][1] && 10 !in Simulate(t0, vs, desc).value[0][2]
  {
    AtFrontSimulates(t0, vs, desc);
    DescendingExample(vs, desc);
    DescendingCascade(t0, vs, desc, 0, 0, 1);
    DescendingCascade(t0, vs, desc, 0, 0, 2);
  }

  lemma {:induction false} DescendingExample(vs: seq<ValidSpec>, desc: seq<Key>)
    requires |vs| == 2 && vs[0].breakpoints.Keys == {768.0} && vs[1].breakpoints.Keys == {992.0}
    requires desc == [Threshold(992.0), Threshold(768.0), Default]
    ensures Descending(desc) && forall j | 0 <= j < |vs| :: Listed(vs[j], desc)
  {
    assert desc[0] == Threshold(992.0) && desc[1] == Threshold(768.0);
  }

  // ---------------------------------------------------------------------
  // Sources moved into each other

  /**
   * A page where elements 10 and 11 are the two children of node 1 and each
   * object moves its source into the other source: element 10 into element
   * 11 at widths up to 768, element 11 into element 10 at widths up to 992.
   */
  const NestedLayout: Layout := map[1 := [10, 11], 10 := [], 11 := []]
  const NestedSpecs: seq<ValidSpec> := [
    ValidSpec(10, map[768.0 := Place(11, 0)], Place(1, 0)),
    ValidSpec(11, map[992.0 := Place(10, 0)], Place(1, 1))
  ]

  /** A key whose list has one entry removes that source and inserts it. */
  lemma {:induction false} StepSingle(t: Layout, x: Instruction)
    requires x.target in t
    ensures TargetsIn([x], Detach(t, x.source))
    ensures Step(t, [x]) == InsertAll(Detach(t, x.source), [x], true)
  {
    assert SortByPosition([x]) == [x] by {
      assert [x][..0] == [];
    }
    assert RemoveAll(t, [x]) == RemoveAll(Detach(t, x.source), []) by {
      assert [x][1..] == [];
    }
  }

  /** The lists of the two numeric keys of the nested page. */
  lemma {:induction false} NestedLists(vs: seq<ValidSpec>)
    requires vs == NestedSpecs
    ensures ListFor(vs, Threshold(768.0)) == [Instruction(10, 11, 0)]
    ensures ListFor(vs, Threshold(992.0)) == [Instruction(11, 10, 0)]
  {
    assert vs[1..][1..] == [];
    assert 768.0 !in vs[1].breakpoints && 992.0 !in vs[0].breakpoints;
  }

  /** One entry inserted on its own: the two checks, then the insertion. */
  lemma {:induction false} InsertOne(u: Layout, x: Instruction)
    requires x.target in u
    ensures InsertAll(u, [x], true) ==
      if x.position > |u[x.target]| then Err(PositionExceedsMaximum(x.position, |u[x.target]|))
      else if Within(u, x.source, x.target) then Err(HierarchyRequest(x.source, x.target))
      else Ok(Attach(u, x.target, x.position, x.source))
  {
    assert [x][1..] == [];
  }

  /** Moving a leaf into another leaf makes it the target's only child. */
  lemma {:induction false} NestOne(t: Layout, s: Node, target: Node)
    requires s in t && target in t && s != target && t[s] == [] && t[target] == []
    ensures Step(t, [Instruction(s, target, 0)]).Ok?
    ensures Step(t, [Instruction(s, target, 0)]).value[target] == [s]
  {
    var x := Instruction(s, target, 0);
    StepSingle(t, x);
    var u := Detach(t, s);
    assert u[s] == [] && u[target] == [] by {
      assert Filter([], {s}) == [];
    }
    BelowLeaf(u, s, target);
    InsertOne(u, x);
  }

  /**
   * Moving a node into its only child: the DOM refuses to insert a node
   * under a node of its own subtree.
   */
  lemma {:induction false} NestBack(t: Layout, s: Node, target: Node)
    requires s in t && target in t && s != target && t[s] == [target]
    ensures Step(t, [Instruction(s, target, 0)]) == Err(HierarchyRequest(s, target))
  {
    var x := Instruction(s, target, 0);
    StepSingle(t, x);
    var u := Detach(t, s);
    assert u[s] == [target] by {
      assert Filter([target], {s}) == [target] + Filter([], {s});
    }
    WithinSelf(u, s);
    WithinChild(u, s, s, target);
    InsertOne(u, x);
  }

  /** The second key of `keys` fails after the first succeeded: the simulation fails with its error. */
  lemma {:induction false} SecondKeyFails(t0: Layout, vs: seq<ValidSpec>, keys: seq<Key>, u: Layout)
    requires TargetsKnown(vs, t0.Keys) && |keys| >= 2
    requires TargetsIn(ListFor(vs, keys[0]), t0) && Step(t0, ListFor(vs, keys[0])) == Ok(u)
    requires TargetsIn(ListFor(vs, keys[1]), u) && Step(u, ListFor(vs, keys[1])).Err?
    ensures Simulate(t0, vs, keys) == Err(Step(u, ListFor(vs, keys[1])).error)
  {
    assert keys[..0] == [];
    SimulateExtend(t0, vs, keys, 0, []);
    SimulateFails(t0, vs, keys, 1, [u]);
  }

  /**
   * On the nested page neither target lies inside its own source at the
   * start, yet the simulation fails in either trigger order: from 992 down, 992 puts
   * element 11 into element 10 and 768 cannot then put 10 into 11; from 768
   * up, 768 puts 10 into 11 and 992 cannot then put 11 into 10.
   */
  lemma {:induction false} NestedFails(t0: Layout, vs: seq<ValidSpec>)
    requires t0 == NestedLayout && vs == NestedSpecs
    ensures TargetsKnown(vs, t0.Keys)
    ensures Simulate(t0, vs, TriggerOrder(Earlier, Thresholds(vs))) == Err(HierarchyRequest(10, 11))
    ensures Simulate(t0, vs, TriggerOrder(Current, Thresholds(vs))) == Err(HierarchyRequest(11, 10))
  {
    ExampleThresholds(vs, Earlier);
    ExampleThresholds(vs, Current);
    NestedLists(vs);
    NestedTree(t0, vs);
    NestedOrder(t0, vs, 11, 10, [Threshold(992.0), Threshold(768.0), Default]);
    NestedOrder(t0, vs, 10, 11, [Threshold(768.0), Threshold(992.0), Default]);
  }

  lemma {:induction false} NestedTree(t0: Layout, vs: seq<ValidSpec>)
    requires t0 == NestedLayout && vs == NestedSpecs
    ensures 10 in t0 && 11 in t0 && t0[10] == [] && t0[11] == []
    ensures TargetsKnown(vs, t0.Keys)
  {
    assert t0.Keys == {1, 10, 11};
  }

  /**
   * The first key moves leaf `a` into leaf `b` and the second moves `b`
   * into `a`: the second insertion puts `b` under its own child.
   */
  lemma {:induction false} NestedOrder(t0: Layout, vs: seq<ValidSpec>, a: Node, b: Node, keys: seq<Key>)
    requires a in t0 && b in t0 && a != b && t0[a] == [] && t0[b] == [] && TargetsKnown(vs, t0.Keys)
    requires |keys| >= 2
    requires ListFor(vs, keys[0]) == [Instruction(a, b, 0)] && ListFor(vs, keys[1]) == [Instruction(b, a, 0)]
    ensures Simulate(t0, vs, keys) == Err(HierarchyRequest(b, a))
  {
    NestOne(t0, a, b);
    var u := Step(t0, [Instruction(a, b, 0)]).value;
    NestBack(u, b, a);
    SecondKeyFails(t0, vs, keys, u);
  }
}
