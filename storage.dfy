/**
 * The sorted trigger collection and the internal storage of breakpoints:
 * the list each key starts with, what simulating one key does to the tree,
 * and the record that replaces a key's list after its simulation.
 */
module Storage {
  import opened Layouts
  import opened Errors
  import opened Selection
  import opened Instructions
  import opened Validation

  /** The two versions of the engine. */
  datatype Variant =
    | Current   // `TransferElements`: ascending triggers, bisection
    | Earlier   // `Transfer`: descending triggers, linear scan

  // ---------------------------------------------------------------------
  // `sortedBreakpointTriggers`

  predicate StrictlyAscending(ts: seq<real>)
  {
    forall i, j | 0 <= i < j < |ts| :: ts[i] < ts[j]
  }

  /**
   * Add one key to the collection: a Set keeps each key once, and the
   * collection is kept in ascending numeric order.
   */
  function AddThreshold(ts: seq<real>, t: real): (r: seq<real>)
    requires StrictlyAscending(ts)
    ensures StrictlyAscending(r)
    ensures forall x :: x in r <==> x in ts || x == t
  {
    if ts == [] then [t]
    else if t == ts[0] then ts
    else if t < ts[0] then [t] + ts
    else
      var rest := AddThreshold(ts[1..], t);
      assert forall i | 0 <= i < |rest| :: ts[0] < rest[i] by {
        forall i | 0 <= i < |rest| ensures ts[0] < rest[i] {
          assert rest[i] in rest;
        }
      }
      [ts[0]] + rest
  }

  /** Every numeric key of every validated object. */
  ghost function AllTriggers(vs: seq<ValidSpec>): set<real>
  {
    set i, t | 0 <= i < |vs| && t in vs[i].breakpoints :: t
  }

  /** Two ascending sequences with the same members are the same sequence. */
  lemma {:induction false} AscendingUnique(a: seq<real>, b: seq<real>)
    requires StrictlyAscending(a) && StrictlyAscending(b)
    requires forall x :: x in a <==> x in b
    ensures a == b
    decreases |a|
  {
    if a != [] { assert a[0] in a; }
    if b != [] { assert b[0] in b; }
    if a != [] && b != [] {
      assert a[0] == b[0] by {
        assert a[0] in b && b[0] in a;
      }
      forall x ensures x in a[1..] <==> x in b[1..] {
        if x in a[1..] {
          var i :| 0 <= i < |a| - 1 && a[1..][i] == x;
          assert a[i + 1] == x && x != a[0] && x in b;
          var j :| 0 <= j < |b| && b[j] == x;
          assert b[1..][j - 1] == x;
        }
        if x in b[1..] {
          var i :| 0 <= i < |b| - 1 && b[1..][i] == x;
          assert b[i + 1] == x && x != b[0] && x in a;
          var j :| 0 <= j < |a| && a[j] == x;
          assert a[1..][j - 1] == x;
        }
      }
      AscendingUnique(a[1..], b[1..]);
      assert a == [a[0]] + a[1..] && b == [b[0]] + b[1..];
    }
  }

  /** A finite set of numbers can be listed in ascending order. */
  lemma {:induction false} AscendingExists(s: set<real>)
    ensures exists ts :: StrictlyAscending(ts) && forall x :: x in ts <==> x in s
    decreases |s|
  {
    if s == {} {
      assert StrictlyAscending([]);
    } else {
      assert (forall x :: x !in s) ==> s == {};
      var t :| t in s;
      AscendingExists(s - {t});
      var ts :| StrictlyAscending(ts) && forall x :: x in ts <==> x in s - {t};
      var r := AddThreshold(ts, t);
      assert forall x :: x in r <==> x in s;
    }
  }

  /** The numeric triggers of all objects in ascending order. */
  ghost function Thresholds(vs: seq<ValidSpec>): (ts: seq<real>)
    ensures StrictlyAscending(ts) && forall x :: x in ts <==> x in AllTriggers(vs)
  {
    AscendingExists(AllTriggers(vs));
    var ts :| StrictlyAscending(ts) && forall x :: x in ts <==> x in AllTriggers(vs);
    ts
  }

  /**
   * `sortedBreakpointTriggers`: the numbers in the variant's order, then the
   * sentinel `default`.
   */
  function TriggerOrder(variant: Variant, ts: seq<real>): (r: seq<Key>)
    requires StrictlyAscending(ts)
    ensures |r| == |ts| + 1
    ensures variant.Current? ==> Ascending(r)
    ensures variant.Earlier? ==> Descending(r)
    ensures forall x :: Threshold(x) in r <==> x in ts
  {
    var nums := match variant
      case Current => seq(|ts|, i requires 0 <= i < |ts| => Threshold(ts[i]))
      case Earlier => seq(|ts|, i requires 0 <= i < |ts| => Threshold(ts[|ts| - 1 - i]));
    var r := nums + [Default];
    assert forall x :: Threshold(x) in r <==> x in ts by {
      forall x ensures Threshold(x) in r <==> x in ts {
        if x in ts {
          var i :| 0 <= i < |ts| && ts[i] == x;
          if variant.Current? { assert r[i] == Threshold(x); } else { assert r[|ts| - 1 - i] == Threshold(x); }
        }
      }
    }
    r
  }

  /** No key occurs twice in an ordered trigger array. */
  lemma {:induction false} OrderedKeysDistinct(triggers: seq<Key>)
    requires Ascending(triggers) || Descending(triggers)
    ensures forall i, j | 0 <= i < j < |triggers| :: triggers[i] != triggers[j]
  {
  }

  // ---------------------------------------------------------------------
  // The storage lists before simulation

  /** `sourceElements` as a set. */
  function SourceSet(vs: seq<ValidSpec>): set<Node>
  {
    set i | 0 <= i < |vs| :: vs[i].source
  }

  /** `sourceElements`, in argument order. */
  function SourceSeq(vs: seq<ValidSpec>): (ss: seq<Node>)
    ensures |ss| == |vs| && forall i | 0 <= i < |vs| :: ss[i] == vs[i].source
  {
    seq(|vs|, i requires 0 <= i < |vs| => vs[i].source)
  }

  predicate SourcesDistinct(vs: seq<ValidSpec>)
  {
    forall i, j | 0 <= i < j < |vs| :: vs[i].source != vs[j].source
  }

  /** Every target an object names is a node of the tree. */
  predicate TargetsKnown(vs: seq<ValidSpec>, nodes: set<Node>)
  {
    forall i | 0 <= i < |vs| ::
      && vs[i].default.target in nodes
      && forall t | t in vs[i].breakpoints :: vs[i].breakpoints[t].target in nodes
  }

  /** The entry object `v` pushes onto the list of key `k`, if any. */
  function Configured(v: ValidSpec, k: Key): seq<Instruction>
  {
    match k
    case Default => [Instruction(v.source, v.default.target, v.default.position)]
    case Threshold(t) =>
      if t in v.breakpoints then [Instruction(v.source, v.breakpoints[t].target, v.breakpoints[t].position)] else []
  }

  /** The storage list of `k` before simulation, filled object by object. */
  function ListFor(vs: seq<ValidSpec>, k: Key): (l: seq<Instruction>)
    ensures forall x :: x in l <==> exists i | 0 <= i < |vs| :: x in Configured(vs[i], k)
  {
    if vs == [] then [] else Configured(vs[0], k) + ListFor(vs[1..], k)
  }

  /** A list of an object's key moves sources only. */
  lemma {:induction false} ListForSources(vs: seq<ValidSpec>, k: Key)
    ensures Sources(ListFor(vs, k)) <= SourceSet(vs)
  {
    var l := ListFor(vs, k);
    forall y | y in Sources(l) ensures y in SourceSet(vs) {
      var j :| 0 <= j < |l| && l[j].source == y;
      assert l[j] in l;
      var i :| 0 <= i < |vs| && l[j] in Configured(vs[i], k);
    }
  }

  /** A list of an object's key names every configured source once. */
  lemma {:induction false} ListForDistinct(vs: seq<ValidSpec>, k: Key)
    requires SourcesDistinct(vs)
    ensures DistinctSources(ListFor(vs, k))
  {
    if vs != [] {
      var c, rest := Configured(vs[0], k), ListFor(vs[1..], k);
      ListForDistinct(vs[1..], k);
      ListForSources(vs[1..], k);
      assert vs[0].source !in SourceSet(vs[1..]) by {
        forall i | 0 <= i < |vs| - 1 ensures vs[1..][i].source != vs[0].source {
          assert vs[1..][i] == vs[i + 1];
        }
      }
      ConsDistinct(c, rest, vs[0].source);
    }
  }

  /** At most one instruction for `s`, in front of a list without `s`, keeps sources distinct. */
  lemma {:induction false} ConsDistinct(c: seq<Instruction>, rest: seq<Instruction>, s: Node)
    requires |c| <= 1 && (forall i | 0 <= i < |c| :: c[i].source == s)
    requires DistinctSources(rest) && s !in Sources(rest)
    ensures DistinctSources(c + rest)
  {
    var l := c + rest;
    forall i, j | 0 <= i < j < |l| ensures l[i].source != l[j].source {
      assert l[j] == rest[j - |c|];
      if i >= |c| { assert l[i] == rest[i - |c|]; }
    }
  }

  /** The `default` list names every source at its recorded slot, in argument order. */
  lemma {:induction false} ListForDefault(vs: seq<ValidSpec>)
    ensures |ListFor(vs, Default)| == |vs|
    ensures forall i | 0 <= i < |vs| ::
      ListFor(vs, Default)[i] == Instruction(vs[i].source, vs[i].default.target, vs[i].default.position)
  {
    if vs != [] {
      ListForDefault(vs[1..]);
      forall i | 1 <= i < |vs| ensures vs[1..][i - 1] == vs[i] { }
    }
  }

  lemma {:induction false} ListForTargets(vs: seq<ValidSpec>, k: Key, t: Layout)
    requires TargetsKnown(vs, t.Keys)
    ensures TargetsIn(ListFor(vs, k), t)
  {
    var l := ListFor(vs, k);
    forall j | 0 <= j < |l| ensures l[j].target in t {
      assert l[j] in l;
      var i :| 0 <= i < |vs| && l[j] in Configured(vs[i], k);
    }
  }

  lemma {:induction false} SortByPositionTargets(l: seq<Instruction>, t: Layout)
    requires TargetsIn(l, t)
    ensures TargetsIn(SortByPosition(l), t)
  {
    SortByPositionMembers(l);
    var r := SortByPosition(l);
    forall j | 0 <= j < |r| ensures r[j].target in t {
      assert r[j] in l;
      var i :| 0 <= i < |l| && l[i] == r[j];
    }
  }

  // ---------------------------------------------------------------------
  // Simulation

  /**
   * Simulating one key (one turn of the `storageOfBreakpoints.forEach`):
   * sort the key's list by position, remove every listed source, then
   * insert them in order with the bound check; the DOM's hierarchy check
   * applies to every insertion.
   */
  ghost function Step(t: Layout, l: seq<Instruction>): (r: Result<Layout>)
    requires TargetsIn(l, t)
    ensures r.Ok? ==> r.value.Keys == t.Keys
    ensures r.Err? ==> r.error.PositionExceedsMaximum? || r.error.HierarchyRequest?
  {
    SortByPositionTargets(l, t);
    ApplyList(t, SortByPosition(l), true)
  }

  /** The layout the simulation leaves after each key of `keys`, simulated in order. */
  ghost function Simulate(t: Layout, vs: seq<ValidSpec>, keys: seq<Key>): (r: Result<seq<Layout>>)
    requires TargetsKnown(vs, t.Keys)
    ensures r.Ok? ==> |r.value| == |keys| && forall i | 0 <= i < |keys| :: r.value[i].Keys == t.Keys
    ensures r.Err? ==> r.error.PositionExceedsMaximum? || r.error.HierarchyRequest?
    decreases |keys|
  {
    if keys == [] then Ok([])
    else match Simulate(t, vs, keys[..|keys| - 1])
      case Err(e) => Err(e)
      case Ok(ss) => Advance(t, vs, ss, keys[|keys| - 1])
  }

  /** One more key simulated from the layout the earlier keys left (`t` when there were none). */
  ghost function Advance(t: Layout, vs: seq<ValidSpec>, ss: seq<Layout>, k: Key): (r: Result<seq<Layout>>)
    requires TargetsKnown(vs, t.Keys) && forall i | 0 <= i < |ss| :: ss[i].Keys == t.Keys
    ensures r.Ok? ==> |r.value| == |ss| + 1 && r.value[..|ss|] == ss && r.value[|ss|].Keys == t.Keys
    ensures r.Err? ==> r.error.PositionExceedsMaximum? || r.error.HierarchyRequest?
  {
    var cur := if ss == [] then t else ss[|ss| - 1];
    ListForTargets(vs, k, cur);
    match Step(cur, ListFor(vs, k))
    case Err(e) => Err(e)
    case Ok(u) => Ok(ss + [u])
  }

  // ---------------------------------------------------------------------
  // What simulation preserves

  /** Inserting sources of `s` leaves the tree without `s` as it was. */
  lemma {:induction false} InsertAllOffSources(t: Layout, l: seq<Instruction>, check: bool, s: set<Node>)
    requires TargetsIn(l, t) && Sources(l) <= s && InsertAll(t, l, check).Ok?
    ensures OffSources(InsertAll(t, l, check).value, s) == OffSources(t, s)
  {
    if l != [] {
      var h := l[0];
      var u := Attach(t, h.target, h.position, h.source);
      assert InsertAll(t, l, check) == InsertAll(u, l[1..], check);
      assert Sources(l[1..]) <= Sources(l) by {
        SourcesConcat([h], l[1..]);
        assert [h] + l[1..] == l;
      }
      InsertAllOffSources(u, l[1..], check, s);
      AttachOffSources(t, h, s);
    }
  }

  lemma {:induction false} AttachOffSources(t: Layout, h: Instruction, s: set<Node>)
    requires h.target in t && h.source in s
    ensures OffSources(Attach(t, h.target, h.position, h.source), s) == OffSources(t, s)
  {
    var u := Attach(t, h.target, h.position, h.source);
    forall p | p in t ensures OffSources(u, s)[p] == OffSources(t, s)[p] {
      if p == h.target {
        FilterHidesInsert(t[p], h.position, h.source, s);
      }
    }
  }

  /** A step moves only the sources it lists. */
  lemma {:induction false} StepOffSources(t: Layout, l: seq<Instruction>, s: set<Node>)
    requires TargetsIn(l, t) && Sources(l) <= s && Step(t, l).Ok?
    ensures OffSources(Step(t, l).value, s) == OffSources(t, s)
  {
    var sorted := SortByPosition(l);
    SortByPositionMembers(l);
    SortByPositionTargets(l, t);
    var removed := RemoveAll(t, sorted);
    RemovedOffSources(t, sorted, s);
    InsertAllOffSources(removed, sorted, true, s);
  }

  /** Taking out sources of `s` leaves the layout as seen without `s` unchanged. */
  lemma {:induction false} RemovedOffSources(t: Layout, l: seq<Instruction>, s: set<Node>)
    requires Sources(l) <= s
    ensures OffSources(RemoveAll(t, l), s) == OffSources(t, s)
  {
    RemoveAllIsOffSources(t, l);
    forall p | p in t ensures OffSources(RemoveAll(t, l), s)[p] == OffSources(t, s)[p] {
      FilterFilter(t[p], Sources(l), s);
      assert Sources(l) + s == s;
    }
  }

  /** Each object's `default` names the slot its source holds in `t0`. */
  predicate DefaultsRecord(vs: seq<ValidSpec>, t0: Layout)
  {
    forall i | 0 <= i < |vs| ::
      && vs[i].default.target in t0
      && vs[i].default.position < |t0[vs[i].default.target]|
      && t0[vs[i].default.target][vs[i].default.position] == vs[i].source
  }

  /**
   * Simulating `default` from any layout that differs from `t0` only in
   * where the sources are puts every source back into its slot of the tree
   * `t0`: neither the bound check nor the hierarchy check fires, and the
   * result is `t0` itself.
   */
  lemma {:induction false} DefaultStepRestores(t: Layout, t0: Layout, vs: seq<ValidSpec>)
    requires WellFormed(t0) && Acyclic(t0) && DefaultsRecord(vs, t0) && SourcesDistinct(vs) && TargetsKnown(vs, t.Keys)
    requires OffSources(t, SourceSet(vs)) == OffSources(t0, SourceSet(vs))
    ensures TargetsIn(ListFor(vs, Default), t)
    ensures Step(t, ListFor(vs, Default)) == Ok(t0)
  {
    var l := ListFor(vs, Default);
    ListForTargets(vs, Default, t);
    ListForDefault(vs);
    ListForDistinct(vs, Default);
    assert Sources(l) == SourceSet(vs) by {
      forall y | y in SourceSet(vs) ensures y in Sources(l) {
        var i :| 0 <= i < |vs| && vs[i].source == y;
        assert l[i].source == y;
      }
    }
    var sorted := SortByPosition(l);
    SortByPositionFacts(l);
    SortByPositionMembers(l);
    SortByPositionDistinct(l);
    SortByPositionRecords(l, t0);
    ApplyReproducesLayout(t, t0, sorted, true);
  }

  // ---------------------------------------------------------------------
  // The regenerated lists

  /** `x` sits in some child sequence of `t`. */
  ghost predicate Placed(t: Layout, x: Node)
  {
    exists p :: p in t && x in t[p]
  }

  /** The node whose children hold `x`. */
  ghost function Holder(t: Layout, x: Node): (p: Node)
    requires Placed(t, x)
    ensures p in t && x in t[p]
  {
    var p :| p in t && x in t[p]; p
  }

  /** In a well-formed layout the holder is the only node whose children hold `x`. */
  lemma {:induction false} HolderUnique(t: Layout, x: Node, p: Node)
    requires WellFormed(t) && p in t && x in t[p]
    ensures Holder(t, x) == p
  {
  }

  /**
   * `#generateBreakpointObject(source, true)` for every source in order: its
   * actual parent and its index among that parent's children.
   */
  ghost function RecordIn(t: Layout, ss: seq<Node>): (l: seq<Instruction>)
    requires forall i | 0 <= i < |ss| :: Placed(t, ss[i])
    ensures |l| == |ss| && Records(l, t)
    ensures forall i | 0 <= i < |ss| :: l[i].source == ss[i]
  {
    seq(|ss|, i requires 0 <= i < |ss| =>
      var p := Holder(t, ss[i]);
      Instruction(ss[i], p, IndexOf(t[p], ss[i])))
  }

  /**
   * `l` is the list regenerated from layout `t` for the sources `ss` and then
   * sorted by position.
   */
  ghost predicate Recorded(l: seq<Instruction>, t: Layout, ss: seq<Node>)
  {
    && (forall i | 0 <= i < |ss| :: Placed(t, ss[i]))
    && l == SortByPosition(RecordIn(t, ss))
  }

  /** A regenerated list, once sorted, is a list the apply step reproduces. */
  lemma {:induction false} RecordSorted(t: Layout, ss: seq<Node>)
    requires forall i | 0 <= i < |ss| :: Placed(t, ss[i])
    requires forall i, j | 0 <= i < j < |ss| :: ss[i] != ss[j]
    ensures Records(SortByPosition(RecordIn(t, ss)), t)
    ensures SortedByPosition(SortByPosition(RecordIn(t, ss)))
    ensures DistinctSources(SortByPosition(RecordIn(t, ss)))
    ensures Sources(SortByPosition(RecordIn(t, ss))) == set i | 0 <= i < |ss| :: ss[i]
  {
    var l := RecordIn(t, ss);
    SortByPositionFacts(l);
    SortByPositionMembers(l);
    SortByPositionDistinct(l);
    SortByPositionRecords(l, t);
    assert Sources(l) == set i | 0 <= i < |ss| :: ss[i] by {
      forall y | y in Sources(l) ensures y in set i | 0 <= i < |ss| :: ss[i] {
        var i :| 0 <= i < |l| && l[i].source == y;
      }
    }
  }

  /** A failure while simulating a prefix of the keys is the failure of the whole simulation. */
  lemma {:induction false} SimulatePrefixErr(t: Layout, vs: seq<ValidSpec>, keys: seq<Key>, n: nat)
    requires TargetsKnown(vs, t.Keys) && n <= |keys|
    requires Simulate(t, vs, keys[..n]).Err?
    ensures Simulate(t, vs, keys) == Simulate(t, vs, keys[..n])
    decreases |keys| - n
  {
    if n < |keys| {
      assert keys[..n + 1][..n] == keys[..n];
      SimulatePrefixErr(t, vs, keys, n + 1);
    } else {
      assert keys[..n] == keys;
    }
  }

  /** Simulating one more key extends the list of layouts by that key's step. */
  lemma {:induction false} SimulateExtend(t: Layout, vs: seq<ValidSpec>, keys: seq<Key>, n: nat, sim: seq<Layout>)
    requires TargetsKnown(vs, t.Keys) && n < |keys| && Simulate(t, vs, keys[..n]) == Ok(sim)
    ensures var cur := if n == 0 then t else sim[n - 1];
      && TargetsIn(ListFor(vs, keys[n]), cur)
      && Simulate(t, vs, keys[..n + 1]) ==
         match Step(cur, ListFor(vs, keys[n]))
         case Err(e) => Err(e)
         case Ok(u) => Ok(sim + [u])
  {
    var cur := if n == 0 then t else sim[n - 1];
    ListForTargets(vs, keys[n], cur);
    SimulateAdvance(t, vs, keys, n, sim);
  }

  /** Simulating one more key is advancing the earlier keys' simulation by it. */
  lemma {:induction false} SimulateAdvance(t: Layout, vs: seq<ValidSpec>, keys: seq<Key>, n: nat, sim: seq<Layout>)
    requires TargetsKnown(vs, t.Keys) && n < |keys| && Simulate(t, vs, keys[..n]) == Ok(sim)
    ensures forall i | 0 <= i < |sim| :: sim[i].Keys == t.Keys
    ensures Simulate(t, vs, keys[..n + 1]) == Advance(t, vs, sim, keys[n])
  {
    assert keys[..n + 1][..n] == keys[..n];
  }

  /**
   * One more key simulated from the layout the previous key left: success
   * extends the simulation, and `default` brings back the starting layout.
   */
  lemma {:induction false} SimulateNext(t0: Layout, vs: seq<ValidSpec>, keys: seq<Key>, n: nat, sim: seq<Layout>, u: Layout)
    requires WellFormed(t0) && Acyclic(t0) && DefaultsRecord(vs, t0) && SourcesDistinct(vs) && TargetsKnown(vs, t0.Keys)
    requires n < |keys| && Simulate(t0, vs, keys[..n]) == Ok(sim)
    requires var cur := if n == 0 then t0 else sim[n - 1];
      && TargetsIn(ListFor(vs, keys[n]), cur)
      && Step(cur, ListFor(vs, keys[n])) == Ok(u)
    ensures Simulate(t0, vs, keys[..n + 1]) == Ok(sim + [u])
    ensures keys[n] == Default ==> u == t0
  {
    SimulateExtend(t0, vs, keys, n, sim);
    if keys[n] == Default {
      var cur := if n == 0 then t0 else sim[n - 1];
      SimulateKeepsOffSources(t0, vs, keys[..n]);
      DefaultStepRestores(cur, t0, vs);
    }
  }

  /** A key whose step fails makes the whole simulation fail with that error. */
  lemma {:induction false} SimulateFails(t0: Layout, vs: seq<ValidSpec>, keys: seq<Key>, n: nat, sim: seq<Layout>)
    requires TargetsKnown(vs, t0.Keys)
    requires n < |keys| && Simulate(t0, vs, keys[..n]) == Ok(sim)
    requires var cur := if n == 0 then t0 else sim[n - 1];
      && TargetsIn(ListFor(vs, keys[n]), cur)
      && Step(cur, ListFor(vs, keys[n])).Err?
    ensures var cur := if n == 0 then t0 else sim[n - 1];
      Simulate(t0, vs, keys) == Err(Step(cur, ListFor(vs, keys[n])).error)
  {
    SimulateExtend(t0, vs, keys, n, sim);
    SimulatePrefixErr(t0, vs, keys, n + 1);
  }

  /** Every snapshot of a simulation leaves the elements that are not sources where they were. */
  lemma {:induction false} SimulateKeepsOffSources(t: Layout, vs: seq<ValidSpec>, keys: seq<Key>)
    requires TargetsKnown(vs, t.Keys) && Simulate(t, vs, keys).Ok?
    ensures forall i | 0 <= i < |keys| ::
      OffSources(Simulate(t, vs, keys).value[i], SourceSet(vs)) == OffSources(t, SourceSet(vs))
    decreases |keys|
  {
    if keys != [] {
      var init := keys[..|keys| - 1];
      var k := keys[|keys| - 1];
      SimulateKeepsOffSources(t, vs, init);
      var ss := Simulate(t, vs, init).value;
      var cur := if ss == [] then t else ss[|ss| - 1];
      SimulateExtend(t, vs, keys, |keys| - 1, ss);
      assert keys[..|keys|] == keys;
      ListForSources(vs, k);
      StepOffSources(cur, ListFor(vs, k), SourceSet(vs));
    }
  }
}
