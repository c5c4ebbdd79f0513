/**
 * Breakpoint triggers and the choice of the active one for a width.
 *
 * The engine keeps its numeric triggers in one array with `'default'` as the
 * last element. The current version sorts the numbers ascending and searches
 * them by bisection; the earlier version sorts them descending and scans
 * them from the end. Both choose, "desktop first", the smallest threshold
 * that is at least the width, and `default` when the width exceeds them all.
 */
module Selection {

  /** A breakpoint trigger: a numeric width threshold or the sentinel `default`. */
  datatype Key = Threshold(width: real) | Default

  datatype Option<T> = None | Some(value: T)

  /** Numeric thresholds followed by `default` as the last element. */
  predicate Shaped(triggers: seq<Key>)
  {
    && |triggers| >= 1
    && triggers[|triggers| - 1] == Default
    && forall i | 0 <= i < |triggers| - 1 :: triggers[i].Threshold?
  }

  /** The order of the current version: ascending, `default` last. */
  predicate Ascending(triggers: seq<Key>)
  {
    && Shaped(triggers)
    && forall i, j | 0 <= i < j < |triggers| - 1 :: triggers[i].width < triggers[j].width
  }

  /** The order of the earlier version: descending, `default` last. */
  predicate Descending(triggers: seq<Key>)
  {
    && Shaped(triggers)
    && forall i, j | 0 <= i < j < |triggers| - 1 :: triggers[i].width > triggers[j].width
  }

  /**
   * Desktop first: `k` is the smallest threshold that is at least `w`, or
   * `default` when every threshold is below `w`.
   */
  ghost predicate Selects(triggers: seq<Key>, w: real, k: Key)
  {
    match k
    case Default =>
      forall t | Threshold(t) in triggers :: t < w
    case Threshold(t) =>
      && Threshold(t) in triggers
      && w <= t
      && forall u | Threshold(u) in triggers && w <= u :: t <= u
  }

  /**
   * `#getBreakpointTrigger` of the current version: bisection over the
   * numbers in front of `default`. An exact hit returns at once; otherwise
   * the last guess above the width is the answer, or `default` when there
   * was none.
   */
  method BinarySelect(triggers: seq<Key>, w: real) returns (k: Key)
    requires Ascending(triggers)
    ensures Selects(triggers, w, k)
  {
    var last := |triggers| - 1;
    var start: int := 0;
    var end: int := last - 1;
    var saved: Option<real> := None;
    while start <= end
      invariant 0 <= start <= end + 1 <= last
      invariant forall i | 0 <= i < start :: triggers[i].width < w
      invariant forall i | end < i < last :: w < triggers[i].width
      invariant saved == if end + 1 < last then Some(triggers[end + 1].width) else None
      decreases end - start
    {
      var middle := (start + end) / 2;
      var guess := triggers[middle].width;
      if guess == w {
        return triggers[middle];
      } else if guess > w {
        end := middle - 1;
      } else {
        start := middle + 1;
      }
      if guess - w > 0.0 {
        saved := Some(guess);
      }
    }
    k := if saved.Some? then Threshold(saved.value) else Default;
  }

  /**
   * `#getBreakpointTrigger` of the earlier version: scan from the element in
   * front of `default` (the smallest threshold) towards the largest and
   * return the first one that is at least the width.
   */
  method LinearSelect(triggers: seq<Key>, w: real) returns (k: Key)
    requires Descending(triggers)
    ensures Selects(triggers, w, k)
  {
    var i: int := |triggers| - 2;
    while i >= 0
      invariant -1 <= i <= |triggers| - 2
      invariant forall j | i < j < |triggers| - 1 :: triggers[j].width < w
    {
      if w <= triggers[i].width {
        return triggers[i];
      }
      i := i - 1;
    }
    return Default;
  }

  /**
   * The choice is determined by the set of thresholds alone, so the two
   * versions choose the same trigger for the same thresholds whatever order
   * they keep them in.
   */
  lemma {:induction false} SelectorsAgree(asc: seq<Key>, desc: seq<Key>, w: real, ka: Key, kd: Key)
    requires forall x :: x in asc <==> x in desc
    requires Selects(asc, w, ka) && Selects(desc, w, kd)
    ensures ka == kd
  {
  }
}
