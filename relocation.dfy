/**
 * The engine object: what the constructor builds and the handler that runs
 * on every width notification. One class models both versions; `variant`
 * says which order the triggers are kept in and which search picks the
 * active one.
 */
module Relocation {
  import opened Layouts
  import opened Errors
  import opened Selection
  import opened Instructions
  import opened DomTree
  import opened Validation
  import opened Storage
  import opened Engine
  import opened Cascade

  /**
   * What construction computes: the validated objects, then the layout the
   * simulation leaves after each trigger, simulated from the largest
   * threshold down and `default` last, whatever order the variant keeps
   * its triggers in. Fails with the first validation error, or with the
   * error of the first key whose simulation either exceeds a target's child
   * count or inserts a source into a target that lies inside it.
   */
  ghost function Construction(kids: Layout, parent: map<Node, Node>, specs: seq<RawSpec>,
                              containers: set<Node>, variant: Variant): Result<seq<Layout>>
    requires Consistent(kids, parent) && containers <= kids.Keys
  {
    match ValidateSpecs(specs, kids, parent, containers)
    case Err(e) => Err(e)
    case Ok(vs) =>
      ValidatedIsPrepared(specs, kids, parent, containers);
      Simulate(kids, vs, TriggerOrder(Earlier, Thresholds(vs)))
  }

  /**
   * The storage after construction: every key's list is the sorted record
   * of that key's snapshot, names every source once, and the snapshots
   * differ from the starting layout only in where the sources are.
   */
  ghost predicate Faithful(storage: map<Key, seq<Instruction>>, snapshot: map<Key, Layout>,
                           sources: set<Node>, start: Layout)
  {
    && storage.Keys == snapshot.Keys
    && forall k | k in storage :: FaithfulAt(storage[k], snapshot[k], sources, start)
  }

  /** One key's list and snapshot, as `Faithful` asks of every key. */
  ghost predicate FaithfulAt(l: seq<Instruction>, snap: Layout, sources: set<Node>, start: Layout)
  {
    && WellFormed(snap)
    && Acyclic(snap)
    && Records(l, snap)
    && SortedByPosition(l)
    && DistinctSources(l)
    && Sources(l) == sources
    && OffSources(snap, sources) == OffSources(start, sources)
  }

  /**
   * Applying a stored list without the bound check, from any tree that
   * differs from the starting layout only in where the sources are,
   * yields that key's snapshot.
   */
  lemma {:induction false} ApplyStored(t: Layout, storage: map<Key, seq<Instruction>>, snapshot: map<Key, Layout>,
                                       sources: set<Node>, start: Layout, k: Key)
    requires Faithful(storage, snapshot, sources, start) && k in storage
    requires OffSources(t, sources) == OffSources(start, sources)
    ensures TargetsIn(storage[k], t)
    ensures ApplyList(t, storage[k], false) == Ok(snapshot[k])
  {
    ApplyReproducesLayout(t, snapshot[k], storage[k], false);
  }

  /** Each trigger mapped to the layout its simulation left. */
  ghost function Snapshots(triggers: seq<Key>, sim: seq<Layout>): (m: map<Key, Layout>)
    requires |sim| == |triggers| && forall a, b | 0 <= a < b < |triggers| :: triggers[a] != triggers[b]
    ensures forall k :: k in m <==> k in triggers
    ensures forall i | 0 <= i < |triggers| :: triggers[i] in m && m[triggers[i]] == sim[i]
  {
    map i | 0 <= i < |triggers| :: triggers[i] := sim[i]
  }

  /** What the construction loop leaves behind is a faithful storage. */
  lemma {:induction false} Sealed(table: map<Key, seq<Instruction>>, sim: seq<Layout>, vs: seq<ValidSpec>,
                                  t0: Layout, triggers: seq<Key>)
    requires SourcesDistinct(vs) && |sim| == |triggers|
    requires forall a, b | 0 <= a < b < |triggers| :: triggers[a] != triggers[b]
    requires forall i | 0 <= i < |sim| :: OffSources(sim[i], SourceSet(vs)) == OffSources(t0, SourceSet(vs))
    requires forall k :: k in table <==> k in triggers
    requires forall i | 0 <= i < |triggers| :: Stored(table[triggers[i]], sim[i], vs)
    ensures Faithful(table, Snapshots(triggers, sim), SourceSet(vs), t0)
  {
    var snapshot := Snapshots(triggers, sim);
    forall k | k in table
      ensures FaithfulAt(table[k], snapshot[k], SourceSet(vs), t0)
    {
      var i :| 0 <= i < |triggers| && triggers[i] == k;
      assert snapshot[k] == sim[i];
      SealedAt(table[k], sim[i], vs, t0);
    }
  }

  /** One stored list and the snapshot it was recorded from. */
  lemma {:induction false} SealedAt(l: seq<Instruction>, snap: Layout, vs: seq<ValidSpec>, t0: Layout)
    requires SourcesDistinct(vs) && Stored(l, snap, vs)
    requires OffSources(snap, SourceSet(vs)) == OffSources(t0, SourceSet(vs))
    ensures FaithfulAt(l, snap, SourceSet(vs), t0)
  {
    StoredFacts(l, snap, vs);
  }

  /** A stored list is a sorted record of its snapshot naming every source once. */
  lemma {:induction false} StoredFacts(l: seq<Instruction>, snap: Layout, vs: seq<ValidSpec>)
    requires SourcesDistinct(vs) && Stored(l, snap, vs)
    ensures Records(l, snap) && SortedByPosition(l) && DistinctSources(l) && Sources(l) == SourceSet(vs)
  {
    var ss := SourceSeq(vs);
    assert (set i | 0 <= i < |ss| :: ss[i]) == SourceSet(vs);
    RecordSorted(snap, ss);
  }

  /** Every threshold of every object is a trigger of the ordered array. */
  lemma {:induction false} ListedAll(vs: seq<ValidSpec>, order: seq<Key>)
    requires forall x :: Threshold(x) in order <==> x in AllTriggers(vs)
    ensures forall j | 0 <= j < |vs| :: Listed(vs[j], order)
  {
    forall j, u | 0 <= j < |vs| && u in vs[j].breakpoints ensures Threshold(u) in order {
      assert u in AllTriggers(vs);
    }
  }

  /** Both orders hold the same keys. */
  lemma {:induction false} OrdersAgree(ts: seq<real>)
    requires StrictlyAscending(ts)
    ensures forall k :: k in TriggerOrder(Current, ts) <==> k in TriggerOrder(Earlier, ts)
  {
    var a, d := TriggerOrder(Current, ts), TriggerOrder(Earlier, ts);
    assert Default in a && Default in d by {
      assert a[|a| - 1] == Default && d[|d| - 1] == Default;
    }
  }

  /**
   * Simulated from the largest threshold down, every numeric snapshot puts
   * each source where desktop first says it belongs at that threshold.
   */
  lemma {:induction false} Landed(sim: seq<Layout>, vs: seq<ValidSpec>, t0: Layout, order: seq<Key>)
    requires WellFormed(t0) && DefaultsRecord(vs, t0) && SourcesDistinct(vs) && TargetsKnown(vs, t0.Keys)
    requires Descending(order) && (forall j | 0 <= j < |vs| :: Listed(vs[j], order))
    requires Simulate(t0, vs, order) == Ok(sim)
    requires forall a, b | 0 <= a < b < |order| :: order[a] != order[b]
    ensures Lands(Snapshots(order, sim), vs, t0)
  {
    var snapshot := Snapshots(order, sim);
    forall t, j, p | Threshold(t) in snapshot && 0 <= j < |vs| && p in t0
      ensures p in snapshot[Threshold(t)] && (vs[j].source in snapshot[Threshold(t)][p] <==> Intended(vs[j], t, p))
    {
      var i :| 0 <= i < |order| && order[i] == Threshold(t);
      DescendingCascade(t0, vs, order, i, j, p);
    }
  }

  /** The snapshots of the descending simulation follow the objects, in either variant's trigger order. */
  lemma {:induction false} Intention(sim: seq<Layout>, vs: seq<ValidSpec>, t0: Layout, ts: seq<real>, variant: Variant)
    requires WellFormed(t0) && DefaultsRecord(vs, t0) && SourcesDistinct(vs) && TargetsKnown(vs, t0.Keys)
    requires StrictlyAscending(ts) && forall x :: x in ts <==> x in AllTriggers(vs)
    requires Simulate(t0, vs, TriggerOrder(Earlier, ts)) == Ok(sim)
    requires forall i | 0 <= i < |sim| && TriggerOrder(Earlier, ts)[i] == Default :: sim[i] == t0
    requires forall a, b | 0 <= a < b < |sim| :: TriggerOrder(Earlier, ts)[a] != TriggerOrder(Earlier, ts)[b]
    ensures Intends(vs, Snapshots(TriggerOrder(Earlier, ts), sim), t0, TriggerOrder(variant, ts))
  {
    var order, triggers := TriggerOrder(Earlier, ts), TriggerOrder(variant, ts);
    OrdersAgree(ts);
    ListedAll(vs, order);
    ListedAll(vs, triggers);
    Landed(sim, vs, t0, order);
    var snapshot := Snapshots(order, sim);
    assert order[|order| - 1] == Default;
  }

  /**
   * What a sealed engine holds, apart from the live tree: the triggers in
   * the variant's order, one stored list per trigger, a faithful storage,
   * and snapshots that follow the objects.
   */
  ghost predicate Sealable(variant: Variant, triggers: seq<Key>, storage: map<Key, seq<Instruction>>,
                           start: Layout, sources: set<Node>, snapshot: map<Key, Layout>, specs: seq<ValidSpec>)
  {
    && (if variant.Current? then Ascending(triggers) else Descending(triggers))
    && (forall k :: k in storage <==> k in triggers)
    && Faithful(storage, snapshot, sources, start)
    && Intends(specs, snapshot, start, triggers)
  }

  /** What the construction loop stores, simulated from the largest threshold down, seals an engine. */
  lemma {:induction false} Built(table: map<Key, seq<Instruction>>, sim: seq<Layout>, vs: seq<ValidSpec>,
                                 t0: Layout, parent: map<Node, Node>, ts: seq<real>, variant: Variant)
    requires WellFormed(t0) && Prepared(vs, t0, parent)
    requires StrictlyAscending(ts) && forall x :: x in ts <==> x in AllTriggers(vs)
    requires Simulate(t0, vs, TriggerOrder(Earlier, ts)) == Ok(sim)
    requires forall k :: k in table <==> k in TriggerOrder(Earlier, ts)
    requires forall i | 0 <= i < |TriggerOrder(Earlier, ts)| ::
      Stored(table[TriggerOrder(Earlier, ts)[i]], sim[i], vs)
    requires forall i | 0 <= i < |TriggerOrder(Earlier, ts)| && TriggerOrder(Earlier, ts)[i] == Default :: sim[i] == t0
    ensures |sim| == |TriggerOrder(Earlier, ts)|
    ensures forall a, b | 0 <= a < b < |sim| :: TriggerOrder(Earlier, ts)[a] != TriggerOrder(Earlier, ts)[b]
    ensures Sealable(variant, TriggerOrder(variant, ts), table, t0, SourceSet(vs),
                     Snapshots(TriggerOrder(Earlier, ts), sim), vs)
  {
    var order := TriggerOrder(Earlier, ts);
    OrderedKeysDistinct(order);
    SimulateKeepsOffSources(t0, vs, order);
    Sealed(table, sim, vs, t0, order);
    Intention(sim, vs, t0, ts, variant);
    OrdersAgree(ts);
  }

  class TransferElements {
    /** The document the engine moves elements in. */
    const tree: Tree
    const variant: Variant
    /** `sortedBreakpointTriggers`. */
    const triggers: seq<Key>
    /** `storageOfBreakpoints` once construction has sealed it. */
    const storage: map<Key, seq<Instruction>>
    /** `previousBreakpointTrigger`. */
    var previous: Key
    /** The layout before construction. */
    ghost const start: Layout
    /** `sourceElements` as a set. */
    ghost const sources: set<Node>
    /** The layout the simulation left after each key. */
    ghost const snapshot: map<Key, Layout>
    /** The validated objects. */
    ghost const specs: seq<ValidSpec>

    ghost predicate Valid()
      reads this, tree
    {
      && tree.Valid()
      && (if variant.Current? then Ascending(triggers) else Descending(triggers))
      && (forall k :: k in storage <==> k in triggers)
      && Faithful(storage, snapshot, sources, start)
      && previous in snapshot
      && tree.kids == snapshot[previous]
      && Intends(specs, snapshot, start, triggers)
    }

    constructor (tree: Tree, variant: Variant, triggers: seq<Key>, storage: map<Key, seq<Instruction>>,
                 ghost start: Layout, ghost sources: set<Node>, ghost snapshot: map<Key, Layout>,
                 ghost specs: seq<ValidSpec>)
      requires tree.Valid() && tree.kids == start
      requires Sealable(variant, triggers, storage, start, sources, snapshot, specs)
      ensures Valid()
      ensures this.tree == tree && this.variant == variant && this.triggers == triggers
      ensures this.storage == storage && this.previous == Default
      ensures this.start == start && this.sources == sources && this.snapshot == snapshot
      ensures this.specs == specs
    {
      this.tree := tree;
      this.variant := variant;
      this.triggers := triggers;
      this.storage := storage;
      this.previous := Default;
      this.start := start;
      this.sources := sources;
      this.snapshot := snapshot;
      this.specs := specs;
    }

    /**
     * `new TransferElements(...objectsWithParameters)`: validate the
     * objects, collect and order the triggers, fill the storage, simulate
     * every key, and start with `default` as the previous trigger. On
     * success the tree is back where it started.
     */
    static method Create(tree: Tree, specs: seq<RawSpec>, containers: set<Node>, variant: Variant)
      returns (r: Result<TransferElements>)
      requires tree.Valid() && containers <= tree.kids.Keys
      modifies tree
      ensures tree.Valid()
      ensures r.Ok? <==> Construction(old(tree.kids), old(tree.parent), specs, containers, variant).Ok?
      ensures r.Err? ==> r.error == Construction(old(tree.kids), old(tree.parent), specs, containers, variant).error
      ensures ValidateSpecs(specs, old(tree.kids), old(tree.parent), containers).Err? ==> unchanged(tree)
      ensures r.Ok? ==> fresh(r.value) && r.value.Valid()
      ensures r.Ok? ==> r.value.tree == tree && r.value.variant == variant && r.value.previous == Default
      ensures r.Ok? ==> tree.kids == old(tree.kids) && tree.parent == old(tree.parent)
      ensures r.Ok? ==> r.value.specs == ValidateSpecs(specs, old(tree.kids), old(tree.parent), containers).value
      ensures r.Ok? ==> r.value.triggers == TriggerOrder(variant, Thresholds(r.value.specs))
      ensures r.Ok? ==> var sim := Construction(old(tree.kids), old(tree.parent), specs, containers, variant).value;
        var order := TriggerOrder(Earlier, Thresholds(r.value.specs));
        && |sim| == |order|
        && forall i | 0 <= i < |sim| :: order[i] in r.value.snapshot && r.value.snapshot[order[i]] == sim[i]
      ensures r.Ok? ==> Default in r.value.snapshot && r.value.snapshot[Default] == old(tree.kids)
    {
      var validated := ValidateSpecs(specs, tree.kids, tree.parent, containers);
      if validated.Err? {
        return Err(validated.error);
      }
      ValidatedIsPrepared(specs, tree.kids, tree.parent, containers);
      r := Build(tree, validated.value, variant);
    }

    /**
     * The constructor past validation: collect and order the triggers, fill
     * the storage and simulate every key.
     */
    static method Build(tree: Tree, vs: seq<ValidSpec>, variant: Variant) returns (r: Result<TransferElements>)
      requires tree.Valid() && Prepared(vs, tree.kids, tree.parent)
      modifies tree
      ensures tree.Valid()
      ensures r.Ok? <==> Simulate(old(tree.kids), vs, TriggerOrder(Earlier, Thresholds(vs))).Ok?
      ensures r.Err? ==> r.error == Simulate(old(tree.kids), vs, TriggerOrder(Earlier, Thresholds(vs))).error
      ensures r.Ok? ==> fresh(r.value) && r.value.Valid()
      ensures r.Ok? ==> r.value.tree == tree && r.value.variant == variant && r.value.previous == Default
      ensures r.Ok? ==> tree.kids == old(tree.kids) && tree.parent == old(tree.parent)
      ensures r.Ok? ==> r.value.specs == vs && r.value.triggers == TriggerOrder(variant, Thresholds(vs))
      ensures r.Ok? ==> var order := TriggerOrder(Earlier, Thresholds(vs));
        var sim := Simulate(old(tree.kids), vs, order).value;
        && |sim| == |order|
        && forall i | 0 <= i < |sim| :: order[i] in r.value.snapshot && r.value.snapshot[order[i]] == sim[i]
      ensures r.Ok? ==> r.value.start == old(tree.kids)
    {
      var ts := CollectThresholds(vs);
      AscendingUnique(ts, Thresholds(vs));
      var triggers := TriggerOrder(variant, ts);
      assert triggers == TriggerOrder(variant, Thresholds(vs));
      // The keys are simulated from the largest threshold down, `default` last.
      var order := TriggerOrder(Earlier, ts);
      assert order == TriggerOrder(Earlier, Thresholds(vs));
      ghost var t0 := tree.kids;
      var table := SimulateKeys(tree, vs, order);
      if table.Err? {
        return Err(table.error);
      }
      ghost var sim := Simulate(t0, vs, order).value;
      Built(table.value, sim, vs, t0, tree.parent, ts, variant);
      ghost var snapshot := Snapshots(order, sim);
      var engine := new TransferElements(tree, variant, triggers, table.value, t0, SourceSet(vs), snapshot, vs);
      return Ok(engine);
    }

    /**
     * The resize handler, given the effective width: pick the active
     * trigger; when it differs from the previous one, remove the sources of
     * its list and insert them without the bound check, then remember it.
     */
    method OnResize(width: real)
      requires Valid()
      modifies this, tree
      ensures Valid()
      ensures Selects(triggers, width, previous)
      ensures tree.kids == snapshot[previous]
      ensures previous == old(previous) ==> tree.kids == old(tree.kids) && tree.parent == old(tree.parent)
      ensures forall j, p | 0 <= j < |specs| && p in start ::
        p in tree.kids && (specs[j].source in tree.kids[p] <==> Intended(specs[j], width, p))
    {
      var current;
      if variant.Current? {
        current := BinarySelect(triggers, width);
      } else {
        current := LinearSelect(triggers, width);
      }
      Switch(current);
      ArrivesAll(specs, snapshot, start, triggers, width, previous);
    }

    /**
     * The apply half of the resize handler: when `current` differs from the
     * previous trigger, remove the sources of its list and insert them
     * without the bound check, then remember it.
     */
    method Switch(current: Key)
      requires Valid() && current in storage
      modifies this, tree
      ensures Valid() && previous == current
      ensures tree.kids == snapshot[current]
      ensures current == old(previous) ==> tree.kids == old(tree.kids) && tree.parent == old(tree.parent)
    {
      if current != previous {
        var l := storage[current];
        ApplyStored(tree.kids, storage, snapshot, sources, start, current);
        RemoveSources(tree, l);
        var done := InsertSources(tree, l, false);
        previous := current;
      }
    }
  }
}
