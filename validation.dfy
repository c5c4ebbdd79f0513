/**
 * Validation of the objects passed to the constructor (the `map` callback
 * of the constructor and `#assembleBreakpoints`), and the parent walk that
 * rejects a target lying inside its own source.
 *
 * Runtime type checks (`Object.prototype.toString`, `instanceof Element`,
 * `Object.hasOwn`) are replaced by typed input: a spec always has a source
 * and a list of breakpoints, a breakpoint always has a target node, and a
 * breakpoint key arrives as the value `Number(key)` gives for it.
 */
module Validation {
  import opened Layouts
  import opened Errors
  import opened DomTree

  /** A JavaScript number. */
  datatype JsNumber = Finite(value: real) | NaN | PositiveInfinity | NegativeInfinity

  /** `Number.MAX_SAFE_INTEGER`. */
  const MaxSafeInteger: real := 9007199254740991.0

  /** The `targetPosition` property: absent, a number, or a value of another type. */
  datatype PositionField = Omitted | Number(n: JsNumber) | NotANumber

  /** One `[breakpointTrigger, breakpointObject]` entry; `trigger` is `Number(breakpointTrigger)`. */
  datatype RawBreakpoint = RawBreakpoint(trigger: JsNumber, target: Node, position: PositionField)

  /** One object passed to the constructor. */
  datatype RawSpec = RawSpec(source: Node, breakpoints: seq<RawBreakpoint>)

  /** `{ targetElement, targetPosition }` after validation. */
  datatype Place = Place(target: Node, position: nat)

  /** A validated entry: numeric trigger and place. */
  datatype Entry = Entry(trigger: real, place: Place)

  /** A validated object: the numeric breakpoints and the synthesized `default`. */
  datatype ValidSpec = ValidSpec(source: Node, breakpoints: map<real, Place>, default: Place)

  // ---------------------------------------------------------------------
  // Breakpoint keys and positions

  /**
   * `!n || n <= 0 || n > Number.MAX_SAFE_INTEGER` throws a RangeError. A key
   * spelt `default` gives NaN, so a user can never declare the `default`
   * breakpoint.
   */
  function ValidateTrigger(n: JsNumber): (r: Result<real>)
    ensures r.Ok? <==> n.Finite? && 0.0 < n.value <= MaxSafeInteger
    ensures r.Ok? ==> r.value == n.value
    ensures r.Err? ==> r.error == TriggerOutOfRange && r.error.Kind() == RangeErrorKind
  {
    match n
    case NaN => Err(TriggerOutOfRange)
    case PositiveInfinity => Err(TriggerOutOfRange)
    case NegativeInfinity => Err(TriggerOutOfRange)
    case Finite(v) =>
      if v == 0.0 || v <= 0.0 || v > MaxSafeInteger then Err(TriggerOutOfRange) else Ok(v)
  }

  /** `Number.isSafeInteger(n)`. */
  predicate IsSafeInteger(n: JsNumber)
  {
    n.Finite? && n.value.Floor as real == n.value && -MaxSafeInteger <= n.value <= MaxSafeInteger
  }

  /** `n < 0` for a JavaScript number (false for NaN). */
  predicate IsNegative(n: JsNumber)
  {
    n.NegativeInfinity? || (n.Finite? && n.value < 0.0)
  }

  /**
   * `targetPosition`: when present it must be a number (else a TypeError) and
   * a non-negative safe integer (else a RangeError); when absent it is 0.
   */
  function ValidatePosition(f: PositionField): (r: Result<nat>)
    ensures f.Omitted? ==> r == Ok(0)
    ensures f.NotANumber? ==> r == Err(PositionNotNumber) && r.error.Kind() == TypeErrorKind
    ensures f.Number? ==>
      (r.Ok? <==> f.n.Finite? && f.n.value.Floor as real == f.n.value && 0.0 <= f.n.value <= MaxSafeInteger)
    ensures f.Number? && r.Ok? ==> r.value as real == f.n.value
    ensures f.Number? && r.Err? ==> r.error == PositionOutOfRange && r.error.Kind() == RangeErrorKind
  {
    match f
    case Omitted => Ok(0)
    case NotANumber => Err(PositionNotNumber)
    case Number(n) =>
      if IsNegative(n) || !IsSafeInteger(n) then Err(PositionOutOfRange) else Ok(n.value.Floor as nat)
  }

  // ---------------------------------------------------------------------
  // The parent walk

  /**
   * `#isTargetElementDescendantOfSourceElement`: climb from `target` along
   * `parentElement` and report whether `source` is met.
   */
  method IsTargetInsideSource(parent: map<Node, Node>, target: Node, source: Node) returns (inside: bool)
    requires Rooted(parent)
    ensures inside == IsAncestor(parent, source, target, |parent|)
  {
    var current := target;
    var fuel: nat := |parent|;
    while current in parent
      invariant ChainEnds(parent, current, fuel)
      invariant IsAncestor(parent, source, target, |parent|) == IsAncestor(parent, source, current, fuel)
      decreases fuel
    {
      current := parent[current];
      if current == source {
        return true;
      }
      fuel := fuel - 1;
    }
    return false;
  }

  /**
   * The bound on the walk is never what stops it: once the chain from `n`
   * ends within `f` steps, more fuel gives the same answer.
   */
  lemma {:induction false} AncestorFuelSuffices(parent: map<Node, Node>, a: Node, n: Node, f: nat, g: nat)
    requires ChainEnds(parent, n, f) && f <= g
    ensures IsAncestor(parent, a, n, f) == IsAncestor(parent, a, n, g)
    decreases f
  {
    if n in parent && parent[n] != a {
      AncestorFuelSuffices(parent, a, parent[n], f - 1, g - 1);
    }
  }

  // ---------------------------------------------------------------------
  // `#assembleBreakpoints`

  /**
   * The checks one breakpoint entry must pass, in the order they are made:
   * key range, target distinct from the source, target outside the source,
   * target a container, then the position.
   */
  function ValidateEntry(b: RawBreakpoint, source: Node, parent: map<Node, Node>, containers: set<Node>): (r: Result<Entry>)
    ensures r.Ok? <==> AcceptableEntry(b, source, parent, containers)
    ensures r.Ok? ==> r.value == Entry(b.trigger.value, Place(b.target, ValidatePosition(b.position).value))
    ensures ValidateTrigger(b.trigger).Err? ==> r == Err(TriggerOutOfRange)
    ensures ValidateTrigger(b.trigger).Ok? && b.target == source ==> r == Err(TargetIsSource(source))
    ensures ValidateTrigger(b.trigger).Ok? && b.target != source && IsAncestor(parent, source, b.target, |parent|)
            ==> r == Err(TargetInsideSource(source, b.target))
    ensures (ValidateTrigger(b.trigger).Ok? && b.target != source && !IsAncestor(parent, source, b.target, |parent|)
             && b.target !in containers) ==> r == Err(TargetNotContainer(b.target))
    ensures (ValidateTrigger(b.trigger).Ok? && b.target != source && !IsAncestor(parent, source, b.target, |parent|)
             && b.target in containers && ValidatePosition(b.position).Err?) ==> r == Err(ValidatePosition(b.position).error)
  {
    match ValidateTrigger(b.trigger)
    case Err(e) => Err(e)
    case Ok(t) =>
      if b.target == source then Err(TargetIsSource(source))
      else if IsAncestor(parent, source, b.target, |parent|) then Err(TargetInsideSource(source, b.target))
      else if b.target !in containers then Err(TargetNotContainer(b.target))
      else match ValidatePosition(b.position)
        case Err(e) => Err(e)
        case Ok(pos) => Ok(Entry(t, Place(b.target, pos)))
  }

  /** What ValidateEntry accepts, stated rule by rule. */
  ghost predicate AcceptableEntry(b: RawBreakpoint, source: Node, parent: map<Node, Node>, containers: set<Node>)
  {
    && b.trigger.Finite? && 0.0 < b.trigger.value <= MaxSafeInteger
    && b.target != source
    && !IsAncestor(parent, source, b.target, |parent|)
    && b.target in containers
    && ValidatePosition(b.position).Ok?
  }

  /** What AssembleBreakpoints accepts. */
  ghost predicate AcceptableSpec(spec: RawSpec, parent: map<Node, Node>, containers: set<Node>)
  {
    && spec.breakpoints != []
    && spec.source in parent
    && forall i | 0 <= i < |spec.breakpoints| :: AcceptableEntry(spec.breakpoints[i], spec.source, parent, containers)
  }

  /** Every entry before index `i` passes, and entry `i` fails with `e`. */
  ghost predicate EntryRejectedAt(bs: seq<RawBreakpoint>, i: nat, source: Node, parent: map<Node, Node>,
                                  containers: set<Node>, e: Error)
    requires i < |bs|
  {
    && (forall k | 0 <= k < i :: AcceptableEntry(bs[k], source, parent, containers))
    && ValidateEntry(bs[i], source, parent, containers) == Err(e)
  }

  /** The entries in order; the first failing one decides the error. */
  function ValidateEntries(bs: seq<RawBreakpoint>, source: Node, parent: map<Node, Node>, containers: set<Node>): (r: Result<seq<Entry>>)
    ensures r.Ok? <==> forall i | 0 <= i < |bs| :: AcceptableEntry(bs[i], source, parent, containers)
    ensures r.Ok? ==> |r.value| == |bs|
    ensures r.Ok? ==> forall i | 0 <= i < |bs| ::
      r.value[i] == Entry(bs[i].trigger.value, Place(bs[i].target, ValidatePosition(bs[i].position).value))
  {
    if bs == [] then Ok([])
    else match ValidateEntry(bs[0], source, parent, containers)
      case Err(e) => Err(e)
      case Ok(e0) =>
        match ValidateEntries(bs[1..], source, parent, containers)
        case Err(e) => Err(e)
        case Ok(es) => Ok([e0] + es)
  }

  /** The error of the entries is that of the first entry rejected. */
  lemma {:induction false} ValidateEntriesRejects(bs: seq<RawBreakpoint>, source: Node, parent: map<Node, Node>,
                                                  containers: set<Node>)
    ensures ValidateEntries(bs, source, parent, containers).Err? ==>
      exists i | 0 <= i < |bs| ::
        EntryRejectedAt(bs, i, source, parent, containers, ValidateEntries(bs, source, parent, containers).error)
  {
    var r := ValidateEntries(bs, source, parent, containers);
    if bs != [] && r.Err? {
      if ValidateEntry(bs[0], source, parent, containers).Err? {
        assert EntryRejectedAt(bs, 0, source, parent, containers, r.error);
      } else {
        ValidateEntriesRejects(bs[1..], source, parent, containers);
        EntryRejectedLater(bs, source, parent, containers, r.error);
      }
    }
  }

  /** A failure after an accepted first entry is a failure of the whole list at the next index. */
  lemma {:induction false} EntryRejectedLater(bs: seq<RawBreakpoint>, source: Node, parent: map<Node, Node>,
                                              containers: set<Node>, e: Error)
    requires bs != [] && AcceptableEntry(bs[0], source, parent, containers)
    requires exists i | 0 <= i < |bs| - 1 :: EntryRejectedAt(bs[1..], i, source, parent, containers, e)
    ensures exists i | 0 <= i < |bs| :: EntryRejectedAt(bs, i, source, parent, containers, e)
  {
    var i :| 0 <= i < |bs| - 1 && EntryRejectedAt(bs[1..], i, source, parent, containers, e);
    forall k | 0 <= k < i + 1 ensures AcceptableEntry(bs[k], source, parent, containers) {
      if k > 0 {
        assert bs[k] == bs[1..][k - 1];
      }
    }
    assert bs[i + 1] == bs[1..][i];
    assert EntryRejectedAt(bs, i + 1, source, parent, containers, e);
  }

  /**
   * `Object.fromEntries` over validated entries: keys are compared as
   * numbers, and a later entry with the same number overwrites an earlier one.
   */
  function FromEntries(es: seq<Entry>): (m: map<real, Place>)
    ensures m.Keys == set i | 0 <= i < |es| :: es[i].trigger
    ensures forall t | t in m :: exists i | 0 <= i < |es| :: es[i].trigger == t && es[i].place == m[t]
  {
    if es == [] then map[] else FromEntries(es[..|es| - 1])[es[|es| - 1].trigger := es[|es| - 1].place]
  }

  /** Entry `i` is the last one with its key. */
  predicate LastWithTrigger(es: seq<Entry>, i: nat)
    requires i < |es|
  {
    forall j | i < j < |es| :: es[j].trigger != es[i].trigger
  }

  /** The last entry with a given key is the one `Object.fromEntries` keeps. */
  lemma {:induction false} FromEntriesLastWins(es: seq<Entry>, i: nat)
    requires i < |es| && LastWithTrigger(es, i)
    ensures es[i].trigger in FromEntries(es) && FromEntries(es)[es[i].trigger] == es[i].place
    decreases |es|
  {
    if i < |es| - 1 {
      var init := es[..|es| - 1];
      assert LastWithTrigger(init, i) by {
        forall j | i < j < |init| ensures init[j].trigger != init[i].trigger {
          assert init[j] == es[j];
        }
      }
      FromEntriesLastWins(init, i);
      assert es[|es| - 1].trigger != es[i].trigger;
    }
  }

  /**
   * `#generateBreakpointObject(sourceElement, false)`: the source's parent and
   * its index among the parent's children. A source without a parent element
   * makes the read of `children` throw a TypeError.
   */
  function CurrentPlace(kids: Layout, parent: map<Node, Node>, source: Node): (r: Result<Place>)
    requires Consistent(kids, parent)
    ensures r.Ok? <==> source in parent
    ensures r.Ok? ==> r.value.target in kids && r.value.position < |kids[r.value.target]|
                      && kids[r.value.target][r.value.position] == source
  {
    if source !in parent then Err(SourceDetached(source))
    else
      var p := parent[source];
      Ok(Place(p, IndexOf(kids[p], source)))
  }

  /** No entry after entry `i` has the same key. */
  predicate LastWithKey(bs: seq<RawBreakpoint>, i: nat)
    requires i < |bs|
  {
    forall j | i < j < |bs| :: bs[j].trigger != bs[i].trigger
  }

  /**
   * `#assembleBreakpoints(breakpoints, sourceElement)`: validate every entry,
   * keep the last entry of each key, and add the source's current place.
   */
  function AssembleBreakpoints(spec: RawSpec, kids: Layout, parent: map<Node, Node>, containers: set<Node>): (r: Result<ValidSpec>)
    requires Consistent(kids, parent)
    ensures r.Ok? <==> AcceptableSpec(spec, parent, containers)
    ensures spec.breakpoints == [] ==> r == Err(NoBreakpoints(spec.source))
    ensures r.Ok? ==> && r.value.source == spec.source
                      && r.value.default == CurrentPlace(kids, parent, spec.source).value
                      && r.value.breakpoints.Keys == (set i | 0 <= i < |spec.breakpoints| :: spec.breakpoints[i].trigger.value)
                      && forall t | t in r.value.breakpoints :: r.value.breakpoints[t].target in containers
  {
    if spec.breakpoints == [] then Err(NoBreakpoints(spec.source))
    else match ValidateEntries(spec.breakpoints, spec.source, parent, containers)
      case Err(e) => Err(e)
      case Ok(es) =>
        match CurrentPlace(kids, parent, spec.source)
        case Err(e) => Err(e)
        case Ok(d) => Ok(ValidSpec(spec.source, FromEntries(es), d))
  }

  /**
   * The order of the assembly's errors: an empty breakpoints object, then
   * the first rejected entry, then a source without a parent.
   */
  lemma {:induction false} AssembleBreakpointsFails(spec: RawSpec, kids: Layout, parent: map<Node, Node>, containers: set<Node>)
    requires Consistent(kids, parent)
    ensures var r := AssembleBreakpoints(spec, kids, parent, containers);
      var es := ValidateEntries(spec.breakpoints, spec.source, parent, containers);
      && (spec.breakpoints != [] && es.Err? ==> r == Err(es.error))
      && (spec.breakpoints != [] && es.Ok? && spec.source !in parent ==> r == Err(SourceDetached(spec.source)))
  {
  }

  /** For every key, the assembled object keeps the place of the last entry with that key. */
  lemma {:induction false} AssembleBreakpointsLastWins(spec: RawSpec, kids: Layout, parent: map<Node, Node>, containers: set<Node>)
    requires Consistent(kids, parent) && AssembleBreakpoints(spec, kids, parent, containers).Ok?
    ensures var m := AssembleBreakpoints(spec, kids, parent, containers).value.breakpoints;
      forall i | 0 <= i < |spec.breakpoints| && LastWithKey(spec.breakpoints, i) ::
        && spec.breakpoints[i].trigger.value in m
        && m[spec.breakpoints[i].trigger.value]
           == Place(spec.breakpoints[i].target, ValidatePosition(spec.breakpoints[i].position).value)
  {
    var es := ValidateEntries(spec.breakpoints, spec.source, parent, containers).value;
    LastEntriesWin(spec.breakpoints, es);
  }

  /** For every key, the last entry with that key is the one the object keeps. */
  lemma {:induction false} LastEntriesWin(bs: seq<RawBreakpoint>, es: seq<Entry>)
    requires |es| == |bs|
    requires forall i | 0 <= i < |bs| :: bs[i].trigger.Finite? && es[i].trigger == bs[i].trigger.value
    ensures forall i | 0 <= i < |bs| && LastWithKey(bs, i) ::
      es[i].trigger in FromEntries(es) && FromEntries(es)[es[i].trigger] == es[i].place
  {
    forall i | 0 <= i < |bs| && LastWithKey(bs, i)
      ensures es[i].trigger in FromEntries(es) && FromEntries(es)[es[i].trigger] == es[i].place
    {
      assert LastWithTrigger(es, i) by {
        forall j | i < j < |es| ensures es[j].trigger != es[i].trigger {
          assert bs[j].trigger != bs[i].trigger;
        }
      }
      FromEntriesLastWins(es, i);
    }
  }

  /** No source element is named by two objects. */
  predicate RawSourcesDistinct(specs: seq<RawSpec>)
  {
    forall i, j | 0 <= i < j < |specs| :: specs[i].source != specs[j].source
  }

  /** The sources recorded in `sourceElements` when object `i` is reached. */
  function SeenBefore(specs: seq<RawSpec>, seen: set<Node>, i: nat): set<Node>
    requires i <= |specs|
  {
    seen + set k | 0 <= k < i :: specs[k].source
  }

  /**
   * Every object before index `i` passes, and object `i` fails with `e`:
   * with `DuplicateSource` when its source was already recorded, otherwise
   * with the error of its own checks.
   */
  ghost predicate SpecRejectedAt(specs: seq<RawSpec>, seen: set<Node>, i: nat, kids: Layout, parent: map<Node, Node>,
                                 containers: set<Node>, e: Error)
    requires Consistent(kids, parent) && i < |specs|
  {
    && (forall k | 0 <= k < i :: && specs[k].source !in SeenBefore(specs, seen, k)
                                  && AssembleBreakpoints(specs[k], kids, parent, containers).Ok?)
    && if specs[i].source in SeenBefore(specs, seen, i) then e == DuplicateSource(specs[i].source)
       else AssembleBreakpoints(specs[i], kids, parent, containers) == Err(e)
  }

  /** The constructor's `map` over its arguments, with `sourceElements` as `seen`. */
  function ValidateFrom(specs: seq<RawSpec>, seen: set<Node>, kids: Layout, parent: map<Node, Node>, containers: set<Node>): (r: Result<seq<ValidSpec>>)
    requires Consistent(kids, parent)
    ensures r.Ok? ==> |r.value| == |specs|
    ensures r.Ok? ==> forall i | 0 <= i < |specs| :: && AssembleBreakpoints(specs[i], kids, parent, containers).Ok?
                                                       && r.value[i] == AssembleBreakpoints(specs[i], kids, parent, containers).value
  {
    if specs == [] then Ok([])
    else if specs[0].source in seen then Err(DuplicateSource(specs[0].source))
    else match AssembleBreakpoints(specs[0], kids, parent, containers)
      case Err(e) => Err(e)
      case Ok(v) =>
        match ValidateFrom(specs[1..], seen + {specs[0].source}, kids, parent, containers)
        case Err(e) => Err(e)
        case Ok(vs) =>
          ConsAgrees(specs, s requires Consistent(kids, parent) => AssembleBreakpoints(s, kids, parent, containers), v, vs);
          Ok([v] + vs)
  }

  /** Agreement of `ys` with `f` on the tail, and of `y` on the head, is agreement of `[y] + ys` on all of `xs`. */
  lemma {:induction false} ConsAgrees<A, B>(xs: seq<A>, f: A --> Result<B>, y: B, ys: seq<B>)
    requires xs != [] && |ys| == |xs| - 1
    requires forall i | 0 <= i < |xs| :: f.requires(xs[i])
    requires f(xs[0]) == Ok(y)
    requires forall i | 0 <= i < |ys| :: f(xs[1..][i]).Ok? && ys[i] == f(xs[1..][i]).value
    ensures forall i | 0 <= i < |xs| :: f(xs[i]).Ok? && ([y] + ys)[i] == f(xs[i]).value
  {
    forall i | 0 <= i < |xs| ensures f(xs[i]).Ok? && ([y] + ys)[i] == f(xs[i]).value {
      if i > 0 {
        assert xs[i] == xs[1..][i - 1];
      }
    }
  }

  /** The walk's error is that of the first object it rejects. */
  lemma {:induction false} ValidateFromRejects(specs: seq<RawSpec>, seen: set<Node>, kids: Layout, parent: map<Node, Node>,
                                               containers: set<Node>)
    requires Consistent(kids, parent)
    ensures ValidateFrom(specs, seen, kids, parent, containers).Err? ==>
      exists i | 0 <= i < |specs| ::
        SpecRejectedAt(specs, seen, i, kids, parent, containers, ValidateFrom(specs, seen, kids, parent, containers).error)
  {
    var r := ValidateFrom(specs, seen, kids, parent, containers);
    if specs != [] && r.Err? {
      if specs[0].source in seen || AssembleBreakpoints(specs[0], kids, parent, containers).Err? {
        SpecRejectedFirst(specs, seen, kids, parent, containers, r.error);
      } else {
        ValidateFromRejects(specs[1..], seen + {specs[0].source}, kids, parent, containers);
        SpecRejectedLater(specs, seen, kids, parent, containers, r.error);
      }
    }
  }

  /** The first object fails: with `DuplicateSource` when its source was seen, otherwise with its own error. */
  lemma {:induction false} SpecRejectedFirst(specs: seq<RawSpec>, seen: set<Node>, kids: Layout, parent: map<Node, Node>,
                                             containers: set<Node>, e: Error)
    requires Consistent(kids, parent) && specs != []
    requires if specs[0].source in seen then e == DuplicateSource(specs[0].source)
             else AssembleBreakpoints(specs[0], kids, parent, containers) == Err(e)
    ensures exists i | 0 <= i < |specs| :: SpecRejectedAt(specs, seen, i, kids, parent, containers, e)
  {
    assert SeenBefore(specs, seen, 0) == seen;
    assert SpecRejectedAt(specs, seen, 0, kids, parent, containers, e);
  }

  /** Recording the first source and moving on shifts every later index by one. */
  lemma {:induction false} SeenBeforeShift(specs: seq<RawSpec>, seen: set<Node>, k: nat)
    requires 0 < |specs| && k < |specs|
    ensures SeenBefore(specs[1..], seen + {specs[0].source}, k) == SeenBefore(specs, seen, k + 1)
  {
    var rest := specs[1..];
    forall x | x in SeenBefore(specs, seen, k + 1) ensures x in SeenBefore(rest, seen + {specs[0].source}, k) {
      if x !in seen && x != specs[0].source {
        var j :| 0 <= j < k + 1 && specs[j].source == x;
        assert j > 0 && rest[j - 1] == specs[j];
      }
    }
    forall x | x in SeenBefore(rest, seen + {specs[0].source}, k) ensures x in SeenBefore(specs, seen, k + 1) {
      if x !in seen && x != specs[0].source {
        var j :| 0 <= j < k && rest[j].source == x;
        assert rest[j] == specs[j + 1];
      }
    }
  }

  /** A failure after an accepted first object is a failure of the whole walk at the next index. */
  lemma {:induction false} SpecRejectedLater(specs: seq<RawSpec>, seen: set<Node>, kids: Layout, parent: map<Node, Node>,
                                             containers: set<Node>, e: Error)
    requires Consistent(kids, parent) && specs != []
    requires specs[0].source !in seen && AssembleBreakpoints(specs[0], kids, parent, containers).Ok?
    requires exists i | 0 <= i < |specs| - 1 :: SpecRejectedAt(specs[1..], seen + {specs[0].source}, i, kids, parent, containers, e)
    ensures exists i | 0 <= i < |specs| :: SpecRejectedAt(specs, seen, i, kids, parent, containers, e)
  {
    var rest := specs[1..];
    var seen' := seen + {specs[0].source};
    var i :| 0 <= i < |specs| - 1 && SpecRejectedAt(rest, seen', i, kids, parent, containers, e);
    forall k | 0 <= k < i + 1
      ensures && specs[k].source !in SeenBefore(specs, seen, k)
              && AssembleBreakpoints(specs[k], kids, parent, containers).Ok?
    {
      if k > 0 {
        assert specs[k] == rest[k - 1];
        SeenBeforeShift(specs, seen, k - 1);
      }
    }
    assert specs[i + 1] == rest[i];
    SeenBeforeShift(specs, seen, i);
    assert SpecRejectedAt(specs, seen, i + 1, kids, parent, containers, e);
  }

  /**
   * The walk succeeds exactly when no source was seen before or named twice
   * and every object passes its own checks.
   */
  lemma {:induction false} ValidateFromAccepts(specs: seq<RawSpec>, seen: set<Node>, kids: Layout, parent: map<Node, Node>, containers: set<Node>)
    requires Consistent(kids, parent)
    ensures ValidateFrom(specs, seen, kids, parent, containers).Ok? <==>
              && (forall i | 0 <= i < |specs| :: specs[i].source !in seen)
              && RawSourcesDistinct(specs)
              && forall i | 0 <= i < |specs| :: AcceptableSpec(specs[i], parent, containers)
  {
    if ValidateFrom(specs, seen, kids, parent, containers).Ok? {
      ValidateFromSound(specs, seen, kids, parent, containers);
    } else if && (forall i | 0 <= i < |specs| :: specs[i].source !in seen)
              && RawSourcesDistinct(specs)
              && forall i | 0 <= i < |specs| :: AcceptableSpec(specs[i], parent, containers) {
      ValidateFromComplete(specs, seen, kids, parent, containers);
    }
  }

  lemma {:induction false} ValidateFromSound(specs: seq<RawSpec>, seen: set<Node>, kids: Layout, parent: map<Node, Node>, containers: set<Node>)
    requires Consistent(kids, parent) && ValidateFrom(specs, seen, kids, parent, containers).Ok?
    ensures forall i | 0 <= i < |specs| :: specs[i].source !in seen && AcceptableSpec(specs[i], parent, containers)
    ensures RawSourcesDistinct(specs)
  {
    if specs != [] {
      var rest := specs[1..];
      ValidateFromSound(rest, seen + {specs[0].source}, kids, parent, containers);
      forall i | 0 <= i < |specs| ensures specs[i].source !in seen && AcceptableSpec(specs[i], parent, containers) {
        if i > 0 { assert specs[i] == rest[i - 1]; }
      }
      forall a, b | 0 <= a < b < |specs| ensures specs[a].source != specs[b].source {
        if a > 0 { assert specs[a] == rest[a - 1]; }
        assert specs[b] == rest[b - 1];
      }
    }
  }

  lemma {:induction false} ValidateFromComplete(specs: seq<RawSpec>, seen: set<Node>, kids: Layout, parent: map<Node, Node>, containers: set<Node>)
    requires Consistent(kids, parent)
    requires forall i | 0 <= i < |specs| :: specs[i].source !in seen && AcceptableSpec(specs[i], parent, containers)
    requires RawSourcesDistinct(specs)
    ensures ValidateFrom(specs, seen, kids, parent, containers).Ok?
  {
    if specs != [] {
      var rest := specs[1..];
      var seen' := seen + {specs[0].source};
      forall i | 0 <= i < |rest| ensures rest[i].source !in seen' && AcceptableSpec(rest[i], parent, containers) {
        assert rest[i] == specs[i + 1];
      }
      assert AcceptableSpec(specs[0], parent, containers);
      ValidateFromComplete(rest, seen', kids, parent, containers);
    }
  }

  /** All validation the constructor performs before it touches the tree. */
  function ValidateSpecs(specs: seq<RawSpec>, kids: Layout, parent: map<Node, Node>, containers: set<Node>): (r: Result<seq<ValidSpec>>)
    requires Consistent(kids, parent)
    ensures specs == [] ==> r == Err(NoSpecs)
    ensures r.Ok? <==> && specs != []
                       && RawSourcesDistinct(specs)
                       && forall i | 0 <= i < |specs| :: AcceptableSpec(specs[i], parent, containers)
    ensures r.Ok? ==> |r.value| == |specs|
    ensures r.Ok? ==> forall i | 0 <= i < |specs| :: r.value[i] == AssembleBreakpoints(specs[i], kids, parent, containers).value
    ensures r.Err? && specs != [] ==> exists i | 0 <= i < |specs| :: SpecRejectedAt(specs, {}, i, kids, parent, containers, r.error)
  {
    if specs == [] then Err(NoSpecs)
    else
      ValidateFromAccepts(specs, {}, kids, parent, containers);
      ValidateFromRejects(specs, {}, kids, parent, containers);
      ValidateFrom(specs, {}, kids, parent, containers)
  }
}
