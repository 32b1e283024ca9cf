/** Loop detection of the ELCH pipeline: a hysteresis walk over the distances
    between the origin of scan `end` and the origins of the earlier scans,
    with a best-candidate slot that survives from one call to the next.

    The distance `d[i]` stands for the Euclidean distance between the origin
    of scan `i` and the origin of scan `end`; it is given, not computed. */
module LoopDetection {

  /** The persistent part of the detector: the best distance seen so far
      (negative means "no candidate") and the candidate pair (first, last). */
  datatype Slot = Slot(minDist: real, first: int, last: int)

  /** The state of one walk: the hysteresis cursor and the slot. */
  datatype Walk = Walk(state: int, slot: Slot)

  /** What one call of the detector answers, and the slot it leaves behind. */
  datatype Verdict = Verdict(found: bool, slot: Slot)

  /** Every distance is a norm, hence never negative. */
  predicate NonNegative(d: seq<real>)
  {
    forall i :: 0 <= i < |d| ==> 0.0 <= d[i]
  }

  /** The body of the walk for index `i`, whose distance to `end` is `norm`. */
  function Step(w: Walk, i: int, end: int, norm: real, dist: real): Walk
  {
    var state := if w.state == 0 && norm > dist then 1 else w.state;
    if state > 0 && norm < dist then
      if w.slot.minDist < 0.0 || norm < w.slot.minDist then Walk(2, Slot(norm, i, end))
      else Walk(2, w.slot)
    else Walk(state, w.slot)
  }

  /** The walk after it has visited the indices `end-1` down to `k`,
      starting with the cursor at 0 and the slot `slot0`. */
  function WalkTo(d: seq<real>, end: int, dist: real, slot0: Slot, k: int): (w: Walk)
    requires 0 <= k <= end <= |d|
    ensures w.state == 0 || w.state == 1 || w.state == 2
    ensures NonNegative(d) && (slot0.minDist == -1.0 || slot0.minDist >= 0.0) ==>
              w.slot.minDist == -1.0 || w.slot.minDist >= 0.0
    decreases end - k
  {
    if k == end then Walk(0, slot0)
    else Step(WalkTo(d, end, dist, slot0, k + 1), k, end, d[k], dist)
  }

  /** The complete walk of one call: indices `end-1` down to 1. */
  function Walked(d: seq<real>, end: int, dist: real, slot0: Slot): Walk
    requires 0 <= end <= |d|
  {
    WalkTo(d, end, dist, slot0, if end == 0 then 0 else 1)
  }

  /** One call of the detector on the slot it finds: the walk, then the
      emission rule, which clears the remembered distance when it fires. */
  function Detection(slot: Slot, d: seq<real>, end: int, dist: real): (v: Verdict)
    requires 0 <= end < |d|
    ensures v.found ==> v.slot.minDist == -1.0
    ensures !v.found ==> v.slot.minDist <= 0.0 || (v.slot.minDist > 0.0 && 2 <= end < |d| - 1)
    ensures NonNegative(d) && (slot.minDist == -1.0 || slot.minDist >= 0.0) ==>
              v.slot.minDist == -1.0 || v.slot.minDist >= 0.0
  {
    var w := Walked(d, end, dist, slot);
    if w.slot.minDist > 0.0 && (w.state < 2 || end == |d| - 1) then
      Verdict(true, w.slot.(minDist := -1.0))
    else
      Verdict(false, w.slot)
  }

  // ---------------------------------------------------------------------
  // A reference description of the walk that does not follow its steps.

  /** Some index in [lo, hi) lies farther than `dist` from scan `end`. */
  ghost predicate FarIn(d: seq<real>, lo: int, hi: int, dist: real)
    requires 0 <= lo && hi <= |d|
  {
    exists j :: lo <= j < hi && d[j] > dist
  }

  /** Index `i` is back within `dist` after some larger index of the walk was
      farther than `dist`: the walk reaches state 2 at `i`. */
  ghost predicate Qualifies(d: seq<real>, end: int, dist: real, i: int)
    requires 0 <= i < end <= |d|
  {
    d[i] < dist && FarIn(d, i + 1, end, dist)
  }

  /** Some index of [k, end) qualifies. */
  ghost predicate AnyQualifies(d: seq<real>, end: int, dist: real, k: int)
    requires 0 <= k && end <= |d|
  {
    exists i :: k <= i < end && Qualifies(d, end, dist, i)
  }

  /** Some qualifying index of [k, end) beats the remembered distance `m0`
      (any distance beats a negative one). */
  ghost predicate ImprovesFrom(d: seq<real>, end: int, dist: real, k: int, m0: real)
    requires 0 <= k && end <= |d|
  {
    exists i :: k <= i < end && Qualifies(d, end, dist, i) && (m0 < 0.0 || d[i] < m0)
  }

  /** What the slot must look like after a walk over [k, end) from `slot0`:
      unchanged when nothing improved on it, otherwise the qualifying index of
      smallest distance, the largest such index on a tie, paired with `end`. */
  ghost predicate BestCandidate(d: seq<real>, end: int, dist: real, k: int, slot0: Slot, s: Slot)
    requires 0 <= k <= end <= |d|
  {
    if !ImprovesFrom(d, end, dist, k, slot0.minDist) then s == slot0
    else
      && k <= s.first < end
      && s.last == end
      && Qualifies(d, end, dist, s.first)
      && s.minDist == d[s.first]
      && (slot0.minDist < 0.0 || s.minDist < slot0.minDist)
      && (forall i :: k <= i < end && Qualifies(d, end, dist, i) ==> s.minDist <= d[i])
      && (forall i :: s.first < i < end && Qualifies(d, end, dist, i) ==> s.minDist < d[i])
  }

  // ---------------------------------------------------------------------
  // The walk agrees with the reference description.

  /** The cursor ends at 2 exactly when some index qualified, at 1 when some
      index was far but none came back, and at 0 otherwise. */
  lemma {:induction false} WalkToState(d: seq<real>, end: int, dist: real, slot0: Slot, k: int)
    requires 0 <= k <= end <= |d|
    ensures WalkTo(d, end, dist, slot0, k).state ==
      if AnyQualifies(d, end, dist, k) then 2 else if FarIn(d, k, end, dist) then 1 else 0
    decreases end - k
  {
    if k < end {
      WalkToState(d, end, dist, slot0, k + 1);
      if AnyQualifies(d, end, dist, k + 1) {
        var i :| k + 1 <= i < end && Qualifies(d, end, dist, i);
        assert FarIn(d, i + 1, end, dist);
        var j :| i + 1 <= j < end && d[j] > dist;
        assert FarIn(d, k, end, dist);
      } else if Qualifies(d, end, dist, k) {
        assert FarIn(d, k + 1, end, dist);
        var j :| k + 1 <= j < end && d[j] > dist;
        assert FarIn(d, k, end, dist);
      } else {
        if FarIn(d, k, end, dist) {
          var j :| k <= j < end && d[j] > dist;
          if j != k { assert FarIn(d, k + 1, end, dist); }
        }
        if FarIn(d, k + 1, end, dist) {
          var j :| k + 1 <= j < end && d[j] > dist;
          assert FarIn(d, k, end, dist);
        }
      }
    }
  }

  /** The index `k` is recorded by its step of the walk exactly when it
      qualifies, whatever happened at larger indices. */
  lemma StepQualifies(d: seq<real>, end: int, dist: real, slot0: Slot, k: int)
    requires 0 <= k < end <= |d|
    ensures var w := WalkTo(d, end, dist, slot0, k + 1);
            var state := if w.state == 0 && d[k] > dist then 1 else w.state;
            (state > 0 && d[k] < dist) == Qualifies(d, end, dist, k)
  {
    WalkToState(d, end, dist, slot0, k + 1);
    if AnyQualifies(d, end, dist, k + 1) {
      var i :| k + 1 <= i < end && Qualifies(d, end, dist, i);
      var j :| i + 1 <= j < end && d[j] > dist;
      assert FarIn(d, k + 1, end, dist);
    }
  }

  /** The slot after a walk over [k, end) is the best candidate of that range. */
  lemma {:induction false} WalkToSlot(d: seq<real>, end: int, dist: real, slot0: Slot, k: int)
    requires 0 <= k <= end <= |d|
    requires NonNegative(d)
    ensures BestCandidate(d, end, dist, k, slot0, WalkTo(d, end, dist, slot0, k).slot)
    decreases end - k
  {
    if k < end {
      WalkToSlot(d, end, dist, slot0, k + 1);
      StepQualifies(d, end, dist, slot0, k);
      var s1 := WalkTo(d, end, dist, slot0, k + 1).slot;
      var s := WalkTo(d, end, dist, slot0, k).slot;
      var m0 := slot0.minDist;
      if ImprovesFrom(d, end, dist, k + 1, m0) {
        assert 0.0 <= s1.minDist;
        if Qualifies(d, end, dist, k) && d[k] < s1.minDist {
          assert s == Slot(d[k], k, end);
        } else {
          assert s == s1;
        }
      } else {
        if Qualifies(d, end, dist, k) && (m0 < 0.0 || d[k] < m0) {
          assert s == Slot(d[k], k, end);
          forall i | k < i < end && Qualifies(d, end, dist, i)
            ensures s.minDist < d[i]
          {
            assert !(m0 < 0.0 || d[i] < m0);
          }
        } else {
          assert s == slot0;
          if ImprovesFrom(d, end, dist, k, m0) {
            var i :| k <= i < end && Qualifies(d, end, dist, i) && (m0 < 0.0 || d[i] < m0);
            assert i != k;
            assert ImprovesFrom(d, end, dist, k + 1, m0);
          }
        }
      }
    }
  }

  /** Within one call the cursor never decreases. */
  lemma {:induction false} WalkStateMonotone(d: seq<real>, end: int, dist: real, slot0: Slot, k: int, k': int)
    requires 0 <= k <= k' <= end <= |d|
    ensures WalkTo(d, end, dist, slot0, k').state <= WalkTo(d, end, dist, slot0, k).state
    decreases k' - k
  {
    if k < k' {
      WalkStateMonotone(d, end, dist, slot0, k + 1, k');
    }
  }

  /** The walk only ever looks at the indices 1 .. end-1. */
  lemma {:induction false} WalkToFrame(d: seq<real>, d': seq<real>, end: int, dist: real, slot0: Slot, k: int)
    requires 0 <= k <= end <= |d| && end <= |d'|
    requires forall i :: k <= i < end ==> d[i] == d'[i]
    ensures WalkTo(d, end, dist, slot0, k) == WalkTo(d', end, dist, slot0, k)
    decreases end - k
  {
    if k < end {
      WalkToFrame(d, d', end, dist, slot0, k + 1);
    }
  }

  // ---------------------------------------------------------------------
  // Properties of one call.

  /** One call, described without reference to the walk's steps: the recorded
      candidate is the best qualifying index (or the old one if none beats it),
      the call fires exactly when the remembered distance is positive and either
      no index of this walk came back within `dist` or `end` is the last scan,
      and firing clears the remembered distance while keeping (first, last). */
  lemma DetectionMeaning(slot: Slot, d: seq<real>, end: int, dist: real)
    requires 0 <= end < |d|
    requires NonNegative(d)
    ensures var v := Detection(slot, d, end, dist);
      var improved := ImprovesFrom(d, end, dist, 1, slot.minDist);
      && (!improved ==> v.slot.first == slot.first && v.slot.last == slot.last)
      && (improved ==>
            && 1 <= v.slot.first < end
            && v.slot.last == end
            && Qualifies(d, end, dist, v.slot.first)
            && (slot.minDist < 0.0 || d[v.slot.first] < slot.minDist)
            && (forall i :: 1 <= i < end && Qualifies(d, end, dist, i) ==> d[v.slot.first] <= d[i])
            && (forall i :: v.slot.first < i < end && Qualifies(d, end, dist, i) ==> d[v.slot.first] < d[i]))
      && var m := if improved then d[v.slot.first] else slot.minDist;
      && v.found == (m > 0.0 && (!AnyQualifies(d, end, dist, 1) || end == |d| - 1))
      && v.slot.minDist == (if v.found then -1.0 else m)
  {
    var lo := if end == 0 then 0 else 1;
    WalkToSlot(d, end, dist, slot, lo);
    WalkToState(d, end, dist, slot, lo);
    if end == 0 {
      assert !ImprovesFrom(d, end, dist, 1, slot.minDist);
      assert !AnyQualifies(d, end, dist, 1);
    }
  }

  /** A recorded candidate always lies strictly inside the walk, 1 <= first < end,
      and is paired with the `end` of the call that recorded it. */
  lemma CandidateInsideWalk(slot: Slot, d: seq<real>, end: int, dist: real)
    requires 0 <= end < |d|
    requires NonNegative(d)
    ensures var v := Detection(slot, d, end, dist);
      (v.slot.first, v.slot.last) == (slot.first, slot.last) || (1 <= v.slot.first < end && v.slot.last == end)
  {
    DetectionMeaning(slot, d, end, dist);
  }

  /** A candidate (i, end) is recorded only if `d[i] < dist` and a larger index
      j < end of the same walk had `d[j] > dist`; a distance equal to `dist`
      moves the cursor neither way. */
  lemma RecordedOnlyAfterReturn(slot: Slot, d: seq<real>, end: int, dist: real)
    requires 0 <= end < |d|
    requires NonNegative(d)
    ensures var v := Detection(slot, d, end, dist);
      (v.slot.first, v.slot.last) != (slot.first, slot.last) ==>
        && 1 <= v.slot.first < end
        && d[v.slot.first] < dist
        && exists j :: v.slot.first < j < end && d[j] > dist
  {
    DetectionMeaning(slot, d, end, dist);
  }

  /** The call changes nothing but the cursor, and never fires, when no
      distance of its walk exceeds `dist` or none falls below it. */
  lemma NoReturnNothingRecorded(slot: Slot, d: seq<real>, end: int, dist: real)
    requires 0 <= end < |d|
    requires NonNegative(d)
    requires slot.minDist < 0.0
    requires (forall i :: 1 <= i < end ==> d[i] <= dist) || (forall i :: 1 <= i < end ==> d[i] >= dist)
    ensures Detection(slot, d, end, dist) == Verdict(false, slot)
  {
    DetectionMeaning(slot, d, end, dist);
  }

  /** A fresh detector called with end <= 1 walks over nothing: it answers
      false and leaves the slot as it was. */
  lemma FreshShortCall(d: seq<real>, end: int, dist: real, first: int, last: int)
    requires 0 <= end <= 1 && end < |d|
    ensures Detection(Slot(-1.0, first, last), d, end, dist) == Verdict(false, Slot(-1.0, first, last))
  {
  }

  /** A candidate remembered from an earlier call is emitted, unchanged, by a
      later call whose own walk finds no return within `dist`. */
  lemma StaleCandidateEmitted(slot: Slot, d: seq<real>, end: int, dist: real)
    requires 0 <= end < |d|
    requires NonNegative(d)
    requires slot.minDist > 0.0
    requires !AnyQualifies(d, end, dist, 1)
    ensures Detection(slot, d, end, dist) == Verdict(true, slot.(minDist := -1.0))
  {
    DetectionMeaning(slot, d, end, dist);
  }

  /** Once a zero distance has been recorded, no call fires or changes the slot:
      no norm is below 0 and the emission rule needs a positive distance. */
  lemma ZeroDistanceSticks(slot: Slot, d: seq<real>, end: int, dist: real)
    requires 0 <= end < |d|
    requires NonNegative(d)
    requires slot.minDist == 0.0
    ensures Detection(slot, d, end, dist) == Verdict(false, slot)
  {
    DetectionMeaning(slot, d, end, dist);
  }

  /** The answer does not depend on the distance of scan 0 or of any scan from
      `end` on, only on how many scans there are. */
  lemma DetectionIgnoresEnds(slot: Slot, d: seq<real>, d': seq<real>, end: int, dist: real)
    requires 0 <= end < |d| && |d'| == |d|
    requires forall i :: 1 <= i < end ==> d[i] == d'[i]
    ensures Detection(slot, d, end, dist) == Detection(slot, d', end, dist)
  {
    WalkToFrame(d, d', end, dist, slot, if end == 0 then 0 else 1);
  }

  // ---------------------------------------------------------------------
  // The detector object: the function-local static `min_dist` is its field.

  class LoopDetector {
    var minDist: real

    /** The remembered distance is either "none" (-1) or a recorded norm.
        Every call keeps this bound (the last ensures of `Detection`); no proof
        of the walk depends on it. */
    predicate Valid()
      reads this
    {
      minDist == -1.0 || minDist >= 0.0
    }

    constructor ()
      ensures Valid() && minDist == -1.0
    {
      minDist := -1.0;
    }

    /** One call of the detector for scan `end`; `first0`/`last0` are the
        caller's variables passed by reference, returned as `first`/`last`. */
    method Detect(end: int, d: seq<real>, dist: real, first0: int, last0: int)
      returns (found: bool, first: int, last: int)
      requires Valid()
      requires 0 <= end < |d|
      requires NonNegative(d)
      modifies this
      ensures Valid()
      ensures Verdict(found, Slot(minDist, first, last)) == Detection(Slot(old(minDist), first0, last0), d, end, dist)
      ensures found ==> minDist == -1.0
    {
      ghost var slot0 := Slot(minDist, first0, last0);
      var state := 0;
      first, last := first0, last0;
      var i := end - 1;
      while i > 0
        invariant 0 <= i + 1 <= end
        invariant end >= 1 ==> i >= 0
        invariant Valid()
        invariant Walk(state, Slot(minDist, first, last)) == WalkTo(d, end, dist, slot0, i + 1)
        decreases i
      {
        var norm := d[i];
        if state == 0 && norm > dist {
          state := 1;
        }
        if state > 0 && norm < dist {
          state := 2;
          if minDist < 0.0 || norm < minDist {
            minDist := norm;
            first := i;
            last := end;
          }
        }
        i := i - 1;
      }
      if minDist > 0.0 && (state < 2 || end == |d| - 1) {
        minDist := -1.0;
        found := true;
      } else {
        found := false;
      }
    }
  }
}
