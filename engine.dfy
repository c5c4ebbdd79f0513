/**
 * The engine: construction (validation, trigger collection, storage,
 * simulation of every key) and the handler that runs on every width
 * notification. One class models both versions; `variant` says which order
 * the triggers are kept in and which search picks the active one.
 */
module Engine {
  import opened Layouts
  import opened Errors
  import opened Selection
  import opened Instructions
  import opened DomTree
  import opened Validation
  import opened Storage

  // ---------------------------------------------------------------------
  // Tree mutations

  /** `#removeSourceElements`: `remove()` every listed source, in list order. */
  method RemoveSources(tree: Tree, l: seq<Instruction>)
    requires tree.Valid()
    modifies tree
    ensures tree.Valid()
    ensures tree.kids == RemoveAll(old(tree.kids), l)
    ensures tree.parent == old(tree.parent) - Sources(l)
  {
    for i := 0 to |l|
      invariant tree.Valid()
      invariant RemoveAll(old(tree.kids), l) == RemoveAll(tree.kids, l[i..])
      invariant tree.parent == old(tree.parent) - Sources(l[..i])
    {
      RemoveAllUnfold(tree.kids, l, i);
      SourcesSnoc(l, i);
      MinusTwice(old(tree.parent), Sources(l[..i]), l[i].source);
      tree.Remove(l[i].source);
    }
    assert l[..|l|] == l;
  }

  lemma {:induction false} MinusTwice(m: map<Node, Node>, a: set<Node>, x: Node)
    ensures (m - a) - {x} == m - (a + {x})
  {
  }

  lemma {:induction false} RemoveAllUnfold(t: Layout, l: seq<Instruction>, i: nat)
    requires i < |l|
    ensures RemoveAll(t, l[i..]) == RemoveAll(Detach(t, l[i].source), l[i + 1..])
  {
    assert l[i..][1..] == l[i + 1..];
  }

  lemma {:induction false} SourcesSnoc(l: seq<Instruction>, i: nat)
    requires i < |l|
    ensures Sources(l[..i + 1]) == Sources(l[..i]) + {l[i].source}
  {
    assert l[..i + 1] == l[..i] + [l[i]];
    SourcesConcat(l[..i], [l[i]]);
    SourcesOne(l[i]);
  }

  /**
   * `#insertSourceElements`: insert the listed sources in list order, before
   * the child at the position or at the end. With `check`, a position above
   * the target's number of children throws
   * (`#throwExceptionIfMaximumTargetPositionIsExceeded`); a target inside
   * the source's own subtree makes the DOM throw. The insertions made before
   * an error stay.
   */
  method InsertSources(tree: Tree, l: seq<Instruction>, check: bool) returns (r: Result<()>)
    requires tree.Valid() && TargetsIn(l, tree.kids) && DistinctSources(l)
    requires forall i | 0 <= i < |l| :: l[i].source !in tree.parent
    modifies tree
    ensures tree.Valid() && tree.kids.Keys == old(tree.kids).Keys
    ensures r.Ok? <==> InsertAll(old(tree.kids), l, check).Ok?
    ensures r.Ok? ==> tree.kids == InsertAll(old(tree.kids), l, check).value
    ensures r.Ok? ==> tree.parent.Keys == old(tree.parent).Keys + Sources(l)
    ensures r.Err? ==> r.error == InsertAll(old(tree.kids), l, check).error
  {
    for i := 0 to |l|
      invariant tree.Valid()
      invariant tree.kids.Keys == old(tree.kids).Keys
      invariant TargetsIn(l[i..], tree.kids)
      invariant InsertAll(old(tree.kids), l, check) == InsertAll(tree.kids, l[i..], check)
      invariant forall j | i <= j < |l| :: l[j].source !in tree.parent
      invariant tree.parent.Keys == old(tree.parent).Keys + Sources(l[..i])
    {
      var h := l[i];
      var maximum := |tree.kids[h.target]|;
      if check && h.position > maximum {
        return Err(PositionExceedsMaximum(h.position, maximum));
      }
      InsertAllUnfold(tree.kids, l, i, check);
      InsertStep(tree.parent, old(tree.parent).Keys, l, i);
      var inserted := tree.InsertAt(h.target, h.position, h.source);
      if inserted.Err? {
        return Err(inserted.error);
      }
    }
    assert l[..|l|] == l && l[|l|..] == [];
    return Ok(());
  }

  /** One turn of the insertion loop keeps its invariants on the parent links. */
  lemma {:induction false} InsertStep(parent: map<Node, Node>, before: set<Node>, l: seq<Instruction>, i: nat)
    requires i < |l| && DistinctSources(l)
    requires forall j | i <= j < |l| :: l[j].source !in parent
    requires parent.Keys == before + Sources(l[..i])
    ensures var next := parent[l[i].source := l[i].target];
      && (forall j | i + 1 <= j < |l| :: l[j].source !in next)
      && next.Keys == before + Sources(l[..i + 1])
  {
    SourcesSnoc(l, i);
  }

  /** One insertion of the loop, as the value-level insertion takes it. */
  lemma {:induction false} InsertAllUnfold(t: Layout, l: seq<Instruction>, i: nat, check: bool)
    requires i < |l| && TargetsIn(l[i..], t)
    requires !(check && l[i].position > |t[l[i].target]|)
    ensures Within(t, l[i].source, l[i].target) ==>
      InsertAll(t, l[i..], check) == Err(HierarchyRequest(l[i].source, l[i].target))
    ensures TargetsIn(l[i + 1..], Attach(t, l[i].target, l[i].position, l[i].source))
    ensures !Within(t, l[i].source, l[i].target) ==>
      InsertAll(t, l[i..], check) == InsertAll(Attach(t, l[i].target, l[i].position, l[i].source), l[i + 1..], check)
  {
    assert l[i..][1..] == l[i + 1..];
    assert l[i..][0] == l[i];
  }

  /**
   * The regeneration in the simulation loop: for every source, in
   * `sourceElements` order, push `#generateBreakpointObject(source, true)`.
   */
  method GenerateRecord(tree: Tree, ss: seq<Node>) returns (l: seq<Instruction>)
    requires tree.Valid() && forall i | 0 <= i < |ss| :: ss[i] in tree.parent
    ensures forall i | 0 <= i < |ss| :: Placed(tree.kids, ss[i])
    ensures l == RecordIn(tree.kids, ss)
  {
    forall i | 0 <= i < |ss| ensures Placed(tree.kids, ss[i]) {
      assert ss[i] in tree.kids[tree.parent[ss[i]]];
    }
    l := [];
    for i := 0 to |ss|
      invariant |l| == i && forall j | 0 <= j < i :: l[j] == RecordIn(tree.kids, ss)[j]
    {
      var s := ss[i];
      var p := tree.parent[s];
      HolderUnique(tree.kids, s, p);
      l := l + [Instruction(s, p, IndexOf(tree.kids[p], s))];
    }
  }

  // ---------------------------------------------------------------------
  // The trigger collection

  /**
   * The `reduce` over the validated objects that adds every numeric key to a
   * Set, followed by the ascending sort.
   */
  method CollectThresholds(vs: seq<ValidSpec>) returns (ts: seq<real>)
    ensures StrictlyAscending(ts)
    ensures forall x :: x in ts <==> x in AllTriggers(vs)
  {
    ts := [];
    for i := 0 to |vs|
      invariant StrictlyAscending(ts)
      invariant forall x :: x in ts <==> x in AllTriggers(vs[..i])
    {
      var rest := vs[i].breakpoints.Keys;
      while rest != {}
        invariant StrictlyAscending(ts)
        invariant rest <= vs[i].breakpoints.Keys
        invariant forall x :: x in ts <==> x in AllTriggers(vs[..i]) || (x in vs[i].breakpoints && x !in rest)
        decreases rest
      {
        assert (forall x :: x !in rest) ==> rest == {};
        var t :| t in rest;
        ts := AddThreshold(ts, t);
        rest := rest - {t};
      }
      AllTriggersSnoc(vs, i);
    }
    assert vs[..|vs|] == vs;
  }

  lemma {:induction false} AllTriggersSnoc(vs: seq<ValidSpec>, i: nat)
    requires i < |vs|
    ensures forall x :: x in AllTriggers(vs[..i + 1]) <==> x in AllTriggers(vs[..i]) || x in vs[i].breakpoints
  {
    forall x ensures x in AllTriggers(vs[..i + 1]) <==> x in AllTriggers(vs[..i]) || x in vs[i].breakpoints {
      if x in AllTriggers(vs[..i + 1]) {
        var j :| 0 <= j < i + 1 && x in vs[..i + 1][j].breakpoints;
        if j < i { assert vs[..i][j] == vs[j]; }
      }
      if x in AllTriggers(vs[..i]) {
        var j :| 0 <= j < i && x in vs[..i][j].breakpoints;
        assert vs[..i + 1][j] == vs[j];
      }
      if x in vs[i].breakpoints {
        assert vs[..i + 1][i] == vs[i];
      }
    }
  }

  // ---------------------------------------------------------------------
  // Facts that validation establishes

  /** What the simulation needs from the validated objects. */
  ghost predicate Prepared(vs: seq<ValidSpec>, t0: Layout, parent: map<Node, Node>)
  {
    && SourcesDistinct(vs)
    && DefaultsRecord(vs, t0)
    && TargetsKnown(vs, t0.Keys)
    && forall i | 0 <= i < |vs| :: vs[i].source in parent
  }

  lemma {:induction false} ValidatedIsPrepared(specs: seq<RawSpec>, kids: Layout, parent: map<Node, Node>, containers: set<Node>)
    requires Consistent(kids, parent) && containers <= kids.Keys
    requires ValidateSpecs(specs, kids, parent, containers).Ok?
    ensures Prepared(ValidateSpecs(specs, kids, parent, containers).value, kids, parent)
    ensures forall i | 0 <= i < |specs| :: ValidateSpecs(specs, kids, parent, containers).value[i].source == specs[i].source
  {
    var vs := ValidateSpecs(specs, kids, parent, containers).value;
    forall i | 0 <= i < |vs|
      ensures vs[i].source == specs[i].source && vs[i].source in parent
      ensures vs[i].default.target in kids && vs[i].default.position < |kids[vs[i].default.target]|
      ensures kids[vs[i].default.target][vs[i].default.position] == vs[i].source
      ensures forall t | t in vs[i].breakpoints :: vs[i].breakpoints[t].target in kids
    {
      assert AcceptableSpec(specs[i], parent, containers);
    }
  }

  // ---------------------------------------------------------------------
  // The simulation loop

  /**
   * One turn of `storageOfBreakpoints.forEach` at construction, for key `k`:
   * sort the key's list, remove its sources, insert them with the bound
   * check, then regenerate the list for every source and sort it.
   */
  method SimulateKey(tree: Tree, vs: seq<ValidSpec>, k: Key) returns (r: Result<seq<Instruction>>)
    requires tree.Valid() && SourcesDistinct(vs) && TargetsKnown(vs, tree.kids.Keys)
    requires forall i | 0 <= i < |vs| :: vs[i].source in tree.parent
    modifies tree
    ensures tree.Valid() && tree.kids.Keys == old(tree.kids).Keys
    ensures TargetsIn(ListFor(vs, k), old(tree.kids))
    ensures r.Ok? <==> Step(old(tree.kids), ListFor(vs, k)).Ok?
    ensures r.Err? ==> r.error == Step(old(tree.kids), ListFor(vs, k)).error
    ensures r.Ok? ==> tree.kids == Step(old(tree.kids), ListFor(vs, k)).value
    ensures r.Ok? ==> forall i | 0 <= i < |vs| :: vs[i].source in tree.parent
    ensures r.Ok? ==> Recorded(r.value, tree.kids, SourceSeq(vs))
  {
    ListForTargets(vs, k, tree.kids);
    ListForDistinct(vs, k);
    var unsorted := ListFor(vs, k);
    // `#sortBreakpointObjects`
    var l := SortByPosition(unsorted);
    SortByPositionTargets(unsorted, tree.kids);
    SortByPositionDistinct(unsorted);
    SortByPositionMembers(unsorted);
    RemoveSources(tree, l);
    var done := InsertSources(tree, l, true);
    if done.Err? {
      return Err(done.error);
    }
    assert old(tree.parent).Keys <= tree.parent.Keys;
    var sources := SourceSeq(vs);
    var record := GenerateRecord(tree, sources);
    return Ok(SortByPosition(record));
  }

  /** What the storage holds for one key: the list regenerated in its snapshot. */
  ghost predicate Stored(l: seq<Instruction>, snap: Layout, vs: seq<ValidSpec>)
  {
    && WellFormed(snap)
    && Acyclic(snap)
    && Recorded(l, snap, SourceSeq(vs))
  }

  /** Storing under the next, new key keeps what is stored under the earlier ones. */
  lemma {:induction false} TableStep<V>(table: map<Key, V>, vals: seq<V>, triggers: seq<Key>, i: nat, v: V)
    requires i < |triggers| && |vals| == i
    requires forall a, b | 0 <= a < b < |triggers| :: triggers[a] != triggers[b]
    requires forall k :: k in table <==> k in triggers[..i]
    requires forall j | 0 <= j < i :: table[triggers[j]] == vals[j]
    ensures var next := table[triggers[i] := v];
      && (forall k :: k in next <==> k in triggers[..i + 1])
      && forall j | 0 <= j < i + 1 :: next[triggers[j]] == (vals + [v])[j]
  {
    assert triggers[..i + 1] == triggers[..i] + [triggers[i]];
    forall j | 0 <= j < i + 1
      ensures table[triggers[i] := v][triggers[j]] == (vals + [v])[j]
    {
      if j < i {
        assert triggers[j] != triggers[i];
      }
    }
  }

  /** Appending one stored key to the records keeps every earlier one stored. */
  lemma {:induction false} StoredStep(recs: seq<seq<Instruction>>, sim: seq<Layout>, l: seq<Instruction>, u: Layout,
                   vs: seq<ValidSpec>)
    requires |recs| == |sim|
    requires forall j | 0 <= j < |recs| :: Stored(recs[j], sim[j], vs)
    requires Stored(l, u, vs)
    ensures forall j | 0 <= j < |recs| + 1 :: Stored((recs + [l])[j], (sim + [u])[j], vs)
  {
    forall j | 0 <= j < |recs| + 1 ensures Stored((recs + [l])[j], (sim + [u])[j], vs) {
      if j < |recs| {
        assert (recs + [l])[j] == recs[j] && (sim + [u])[j] == sim[j];
      }
    }
  }

  /** The layout the last simulated key left, or the starting one before any. */
  function Latest(t0: Layout, sim: seq<Layout>): Layout
  {
    if sim == [] then t0 else sim[|sim| - 1]
  }

  /**
   * What the construction loop knows after simulating the first `i` keys:
   * the simulation so far succeeded with snapshots `sim`, the tree shows the
   * last of them, and the storage holds the list regenerated in each.
   */
  ghost predicate Progress(kids: Layout, parent: map<Node, Node>, t0: Layout, vs: seq<ValidSpec>,
                           triggers: seq<Key>, i: nat, table: map<Key, seq<Instruction>>,
                           recs: seq<seq<Instruction>>, sim: seq<Layout>)
  {
    && Simulated(kids, t0, vs, triggers, i, sim)
    && Tabled(table, recs, sim, vs, triggers, i)
    && forall j | 0 <= j < |vs| :: vs[j].source in parent
  }

  /** The first `i` keys simulated to `sim`; `kids` is the last snapshot. */
  ghost predicate Simulated(kids: Layout, t0: Layout, vs: seq<ValidSpec>, triggers: seq<Key>, i: nat, sim: seq<Layout>)
  {
    && TargetsKnown(vs, t0.Keys)
    && i <= |triggers| && |sim| == i
    && kids.Keys == t0.Keys
    && Simulate(t0, vs, triggers[..i]) == Ok(sim)
    && kids == Latest(t0, sim)
    && (forall j | 0 <= j < i && triggers[j] == Default :: sim[j] == t0)
  }

  /** The storage holds, under each of the first `i` keys, the list regenerated in its snapshot. */
  ghost predicate Tabled(table: map<Key, seq<Instruction>>, recs: seq<seq<Instruction>>, sim: seq<Layout>,
                         vs: seq<ValidSpec>, triggers: seq<Key>, i: nat)
  {
    && i <= |triggers|
    && |recs| == i && |sim| == i
    && (forall k :: k in table <==> k in triggers[..i])
    && (forall j | 0 <= j < i :: table[triggers[j]] == recs[j])
    && (forall j | 0 <= j < i :: Stored(recs[j], sim[j], vs))
  }

  /** One turn of the construction loop: simulate key `triggers[i]` and store its list. */
  method RecordNext(tree: Tree, vs: seq<ValidSpec>, triggers: seq<Key>, i: nat,
                    table: map<Key, seq<Instruction>>, ghost t0: Layout,
                    ghost recs: seq<seq<Instruction>>, ghost sim: seq<Layout>)
    returns (r: Result<map<Key, seq<Instruction>>>, ghost recs': seq<seq<Instruction>>, ghost sim': seq<Layout>)
    requires tree.Valid() && WellFormed(t0) && Acyclic(t0) && SourcesDistinct(vs) && DefaultsRecord(vs, t0)
    requires i < |triggers| && forall a, b | 0 <= a < b < |triggers| :: triggers[a] != triggers[b]
    requires Progress(tree.kids, tree.parent, t0, vs, triggers, i, table, recs, sim)
    modifies tree
    ensures tree.Valid()
    ensures r.Err? ==> Simulate(t0, vs, triggers).Err? && r.error == Simulate(t0, vs, triggers).error
    ensures r.Ok? ==> Progress(tree.kids, tree.parent, t0, vs, triggers, i + 1, r.value, recs', sim')
  {
    var k := triggers[i];
    assert tree.kids == if i == 0 then t0 else sim[i - 1];
    var step := SimulateKey(tree, vs, k);
    if step.Err? {
      SimulateFails(t0, vs, triggers, i, sim);
      return Err(step.error), recs, sim;
    }
    RankedAcyclic(tree.kids, tree.rank);
    ProgressStep(old(tree.kids), tree.kids, tree.parent, t0, vs, triggers, i, table, recs, sim, step.value);
    r, recs', sim' := Ok(table[k := step.value]), recs + [step.value], sim + [tree.kids];
  }

  /** A successful turn of the construction loop keeps its invariant. */
  lemma {:induction false} ProgressStep(before: Layout, u: Layout, parent: map<Node, Node>, t0: Layout, vs: seq<ValidSpec>,
                     triggers: seq<Key>, i: nat, table: map<Key, seq<Instruction>>,
                     recs: seq<seq<Instruction>>, sim: seq<Layout>, l: seq<Instruction>)
    requires WellFormed(t0) && Acyclic(t0) && SourcesDistinct(vs) && DefaultsRecord(vs, t0)
    requires i < |triggers| && forall a, b | 0 <= a < b < |triggers| :: triggers[a] != triggers[b]
    requires Progress(before, parent, t0, vs, triggers, i, table, recs, sim)
    requires TargetsIn(ListFor(vs, triggers[i]), before) && Step(before, ListFor(vs, triggers[i])) == Ok(u)
    requires WellFormed(u) && Acyclic(u) && Recorded(l, u, SourceSeq(vs))
    requires forall j | 0 <= j < |vs| :: vs[j].source in parent
    ensures Progress(u, parent, t0, vs, triggers, i + 1, table[triggers[i] := l], recs + [l], sim + [u])
  {
    assert before == if i == 0 then t0 else sim[i - 1];
    SimulatedStep(before, u, t0, vs, triggers, i, sim);
    TabledStep(table, recs, sim, vs, triggers, i, l, u);
  }

  lemma {:induction false} SimulatedStep(before: Layout, u: Layout, t0: Layout, vs: seq<ValidSpec>,
                                         triggers: seq<Key>, i: nat, sim: seq<Layout>)
    requires WellFormed(t0) && Acyclic(t0) && SourcesDistinct(vs) && DefaultsRecord(vs, t0)
    requires TargetsKnown(vs, t0.Keys) && i < |triggers| && |sim| == i
    requires Simulate(t0, vs, triggers[..i]) == Ok(sim) && before == (if i == 0 then t0 else sim[i - 1])
    requires forall j | 0 <= j < i && triggers[j] == Default :: sim[j] == t0
    requires TargetsIn(ListFor(vs, triggers[i]), before) && Step(before, ListFor(vs, triggers[i])) == Ok(u)
    ensures Simulated(u, t0, vs, triggers, i + 1, sim + [u])
  {
    SimulateNext(t0, vs, triggers, i, sim, u);
    DefaultsExtend(t0, triggers, i, sim, u);
  }

  /** `default` snapshots stay the starting layout as the simulation grows by one. */
  lemma {:induction false} DefaultsExtend(t0: Layout, triggers: seq<Key>, i: nat, sim: seq<Layout>, u: Layout)
    requires i < |triggers| && |sim| == i
    requires forall j | 0 <= j < i && triggers[j] == Default :: sim[j] == t0
    requires triggers[i] == Default ==> u == t0
    ensures forall j | 0 <= j < i + 1 && triggers[j] == Default :: (sim + [u])[j] == t0
  {
    var sim' := sim + [u];
    forall j | 0 <= j < i + 1 && triggers[j] == Default ensures sim'[j] == t0 {
      if j < i { assert sim'[j] == sim[j]; }
    }
  }

  lemma {:induction false} TabledStep(table: map<Key, seq<Instruction>>, recs: seq<seq<Instruction>>, sim: seq<Layout>,
                                      vs: seq<ValidSpec>, triggers: seq<Key>, i: nat,
                                      l: seq<Instruction>, u: Layout)
    requires i < |triggers| && forall a, b | 0 <= a < b < |triggers| :: triggers[a] != triggers[b]
    requires Tabled(table, recs, sim, vs, triggers, i)
    requires Stored(l, u, vs)
    ensures Tabled(table[triggers[i] := l], recs + [l], sim + [u], vs, triggers, i + 1)
  {
    TableStep(table, recs, triggers, i, l);
    StoredStep(recs, sim, l, u, vs);
  }

  /**
   * `storageOfBreakpoints.forEach` at construction: simulate every key in
   * trigger order. Returns the sealed storage.
   */
  method SimulateKeys(tree: Tree, vs: seq<ValidSpec>, triggers: seq<Key>) returns (r: Result<map<Key, seq<Instruction>>>)
    requires tree.Valid() && Prepared(vs, tree.kids, tree.parent)
    requires Ascending(triggers) || Descending(triggers)
    modifies tree
    ensures tree.Valid()
    ensures r.Ok? <==> Simulate(old(tree.kids), vs, triggers).Ok?
    ensures r.Err? ==> r.error == Simulate(old(tree.kids), vs, triggers).error
    ensures r.Ok? ==> tree.kids == old(tree.kids) && tree.parent == old(tree.parent)
    ensures r.Ok? ==> forall k :: k in r.value <==> k in triggers
    ensures r.Ok? ==> forall i | 0 <= i < |triggers| ::
      Stored(r.value[triggers[i]], Simulate(old(tree.kids), vs, triggers).value[i], vs)
    ensures r.Ok? ==> forall i | 0 <= i < |triggers| && triggers[i] == Default ::
      Simulate(old(tree.kids), vs, triggers).value[i] == old(tree.kids)
  {
    ghost var t0, p0 := tree.kids, tree.parent;
    RankedAcyclic(t0, tree.rank);
    OrderedKeysDistinct(triggers);
    var table: map<Key, seq<Instruction>> := map[];
    ghost var sim: seq<Layout> := [];
    ghost var recs: seq<seq<Instruction>> := [];
    for i := 0 to |triggers|
      invariant tree.Valid()
      invariant Progress(tree.kids, tree.parent, t0, vs, triggers, i, table, recs, sim)
    {
      var next;
      next, recs, sim := RecordNext(tree, vs, triggers, i, table, t0, recs, sim);
      if next.Err? {
        return Err(next.error);
      }
      table := next.value;
    }
    ProgressDone(tree.kids, tree.parent, t0, p0, vs, triggers, table, recs, sim);
    return Ok(table);
  }

  /** Once every key is simulated, the tree is back at the start and the storage holds every key. */
  lemma {:induction false} ProgressDone(kids: Layout, parent: map<Node, Node>, t0: Layout, p0: map<Node, Node>,
                                        vs: seq<ValidSpec>, triggers: seq<Key>, table: map<Key, seq<Instruction>>,
                                        recs: seq<seq<Instruction>>, sim: seq<Layout>)
    requires Consistent(kids, parent) && Consistent(t0, p0) && (Ascending(triggers) || Descending(triggers))
    requires Progress(kids, parent, t0, vs, triggers, |triggers|, table, recs, sim)
    ensures Simulate(t0, vs, triggers) == Ok(sim)
    ensures kids == t0 && parent == p0
    ensures forall k :: k in table <==> k in triggers
    ensures forall i | 0 <= i < |triggers| :: Stored(table[triggers[i]], sim[i], vs)
    ensures forall i | 0 <= i < |triggers| && triggers[i] == Default :: sim[i] == t0
  {
    assert triggers[..|triggers|] == triggers;
    assert kids == t0;
    ParentDetermined(t0, p0, parent);
  }
}
