/** The ELCH driver: the argument checks, the detection loop that asks for a
    loop-closure correction every time the detector fires, and the final
    pose update `corrected = delta * original` for every scan.

    The scan-set file, the point clouds, the registration engine and the
    rigid-motion estimator are outside the model: the scans arrive as a
    value, the distances between scan origins arrive as a matrix, the
    estimated per-scan deltas arrive as a sequence, and each correction the
    driver asks for is recorded in a log. */
module Elch {
  import opened LoopDetection
  import opened Poses

  datatype Option<T> = None | Some(value: T)

  /** One entry of a scan-set description. */
  datatype Scan = Scan(id: string, file: string, pose: Matrix)

  /** A scan-set description: the data-set root and the scans in order. */
  datatype ScanSet = ScanSet(root: string, scans: seq<Scan>)

  /** A loop-closure correction between scans `first` and `last`. */
  type Correction = (int, int)

  /** The state of the detection loop: the detector's slot together with the
      caller's `first`/`last`, and the corrections asked for so far. */
  datatype Progress = Progress(slot: Slot, log: seq<Correction>)

  predicate PosesAre4x4(scans: seq<Scan>)
  {
    forall i :: 0 <= i < |scans| ==> Is4x4(scans[i].pose)
  }

  predicate AllAre4x4(ms: seq<Matrix>)
  {
    forall i :: 0 <= i < |ms| ==> Is4x4(ms[i])
  }

  /** `dists[e][i]` is the distance between the origins of scans `i` and `e`. */
  predicate DistanceTable(dists: seq<seq<real>>)
  {
    forall e :: 0 <= e < |dists| ==> |dists[e]| == |dists| && NonNegative(dists[e])
  }

  /** The detection loop after its first `n` iterations, with a fresh
      detector and `first = last = 0`. */
  function DriveTo(dists: seq<seq<real>>, dist: real, n: int): (p: Progress)
    requires DistanceTable(dists)
    requires 0 <= n <= |dists|
    ensures |p.log| <= n
    ensures p.slot.minDist == -1.0 || p.slot.minDist >= 0.0
  {
    if n == 0 then Progress(Slot(-1.0, 0, 0), [])
    else
      var p := DriveTo(dists, dist, n - 1);
      var v := Detection(p.slot, dists[n - 1], n - 1, dist);
      Progress(v.slot, if v.found then p.log + [(v.slot.first, v.slot.last)] else p.log)
  }

  /** Every scan with its pose replaced by its delta composed after it. */
  function Corrected(scans: seq<Scan>, deltas: seq<Matrix>): (r: seq<Scan>)
    requires |deltas| == |scans| && AllAre4x4(deltas) && PosesAre4x4(scans)
    ensures |r| == |scans| && PosesAre4x4(r)
    ensures forall i :: 0 <= i < |r| ==> r[i].id == scans[i].id && r[i].file == scans[i].file
  {
    seq(|scans|, i requires 0 <= i < |scans| => scans[i].(pose := Mul(deltas[i], scans[i].pose)))
  }

  /** The program: exit code -1 for fewer than three arguments, -2 unless
      exactly two `.xml` arguments were found, and otherwise a completed run
      with exit code 0 that writes the corrected scan set. `argc` counts the
      program name, as in C; `xmlArgs` is how many `.xml` arguments the
      command line holds. */
  method Run(argc: int, xmlArgs: nat, input: ScanSet, dists: seq<seq<real>>, loopDist: real, deltas: seq<Matrix>)
    returns (code: int, corrections: seq<Correction>, saved: Option<ScanSet>)
    requires PosesAre4x4(input.scans)
    requires |dists| == |input.scans| && DistanceTable(dists)
    requires |deltas| == |input.scans| && AllAre4x4(deltas)
    ensures argc < 3 ==> code == -1 && corrections == [] && saved == None
    ensures argc >= 3 && xmlArgs != 2 ==> code == -2 && corrections == [] && saved == None
    ensures argc >= 3 && xmlArgs == 2 ==>
      && code == 0
      && corrections == DriveTo(dists, loopDist, |dists|).log
      && saved == Some(ScanSet(input.root, Corrected(input.scans, deltas)))
  {
    corrections := [];
    saved := None;
    if argc < 3 {
      return -1, corrections, saved;
    }
    if xmlArgs != 2 {
      return -2, corrections, saved;
    }
    var n := |input.scans|;

    var detector := new LoopDetector();
    var first, last := 0, 0;
    var i := 0;
    while i < n
      invariant 0 <= i <= n
      invariant detector.Valid()
      invariant Progress(Slot(detector.minDist, first, last), corrections) == DriveTo(dists, loopDist, i)
    {
      var found;
      found, first, last := detector.Detect(i, dists[i], loopDist, first, last);
      if found {
        corrections := corrections + [(first, last)];
      }
      i := i + 1;
    }

    var scans: seq<Scan> := [];
    i := 0;
    while i < n
      invariant 0 <= i <= n
      invariant scans == Corrected(input.scans[..i], deltas[..i])
    {
      var s := input.scans[i];
      scans := scans + [Scan(s.id, s.file, Mul(deltas[i], s.pose))];
      i := i + 1;
    }
    assert input.scans[..n] == input.scans && deltas[..n] == deltas;
    saved := Some(ScanSet(input.root, scans));
    code := 0;
  }

  // ---------------------------------------------------------------------
  // Properties of the detection loop.

  /** Between calls the remembered distance is "none" (-1) or the distance
      of the remembered candidate (first, last), which is a real return of the
      walk of call `last`; every correction asked for is such a return with
      1 <= first < last < n; each call adds at most one correction. */
  lemma {:induction false} DriveInvariant(dists: seq<seq<real>>, dist: real, n: int)
    requires DistanceTable(dists)
    requires 0 <= n <= |dists|
    ensures var p := DriveTo(dists, dist, n);
      && (p.slot.minDist == -1.0 || p.slot.minDist >= 0.0)
      && (p.slot.minDist >= 0.0 ==>
            && 1 <= p.slot.first < p.slot.last < n
            && p.slot.minDist == dists[p.slot.last][p.slot.first]
            && Qualifies(dists[p.slot.last], p.slot.last, dist, p.slot.first))
      && (n > 0 ==> |p.log| <= |DriveTo(dists, dist, n - 1).log| + 1)
      && |p.log| <= n
      && forall k :: 0 <= k < |p.log| ==>
           && 1 <= p.log[k].0 < p.log[k].1 < n
           && Qualifies(dists[p.log[k].1], p.log[k].1, dist, p.log[k].0)
  {
    if n > 0 {
      DriveInvariant(dists, dist, n - 1);
      var p := DriveTo(dists, dist, n - 1);
      DetectionMeaning(p.slot, dists[n - 1], n - 1, dist);
    }
  }

  /** Corrections fire in the order the calls are made: the log after `n`
      calls extends the log after any earlier number of calls. */
  lemma {:induction false} LogGrows(dists: seq<seq<real>>, dist: real, n: int, n': int)
    requires DistanceTable(dists)
    requires 0 <= n <= n' <= |dists|
    ensures DriveTo(dists, dist, n).log <= DriveTo(dists, dist, n').log
    decreases n' - n
  {
    if n < n' {
      LogGrows(dists, dist, n, n' - 1);
    }
  }

  /** Once a zero distance has been recorded, the loop asks for no further
      correction and the slot, `first` and `last` no longer change. */
  lemma {:induction false} ZeroDistanceEndsCorrections(dists: seq<seq<real>>, dist: real, n: int, n': int)
    requires DistanceTable(dists)
    requires 0 <= n <= n' <= |dists|
    requires DriveTo(dists, dist, n).slot.minDist == 0.0
    ensures DriveTo(dists, dist, n') == DriveTo(dists, dist, n)
    decreases n' - n
  {
    if n < n' {
      ZeroDistanceEndsCorrections(dists, dist, n, n' - 1);
      var p := DriveTo(dists, dist, n' - 1);
      ZeroDistanceSticks(p.slot, dists[n' - 1], n' - 1, dist);
    }
  }

  /** A path on which no scan comes back to within `dist` of scan `e` after
      having been farther than `dist` from it, for any `e`, asks for no
      correction and leaves first = last = 0. */
  lemma {:induction false} NoReturnNoCorrection(dists: seq<seq<real>>, dist: real, n: int)
    requires DistanceTable(dists)
    requires 0 <= n <= |dists|
    requires forall e :: 0 <= e < n ==> !AnyQualifies(dists[e], e, dist, 1)
    ensures DriveTo(dists, dist, n) == Progress(Slot(-1.0, 0, 0), [])
  {
    if n > 0 {
      NoReturnNoCorrection(dists, dist, n - 1);
      DetectionMeaning(Slot(-1.0, 0, 0), dists[n - 1], n - 1, dist);
    }
  }

  /** A straight path that moves away from every earlier scan, one unit per
      scan, never closes a loop, whatever the threshold. */
  lemma StraightPathNoCorrection(dists: seq<seq<real>>, dist: real, n: int)
    requires DistanceTable(dists)
    requires 0 <= n <= |dists|
    requires forall e, i :: 0 <= e < |dists| && 0 <= i < |dists| ==> dists[e][i] == if e >= i then (e - i) as real else (i - e) as real
    ensures DriveTo(dists, dist, n).log == []
  {
    // Along the walk of call e the distances only decrease as i grows, so no
    // index below `dist` can follow a larger index above it.
    assert forall e :: 0 <= e < n ==> !AnyQualifies(dists[e], e, dist, 1);
    NoReturnNoCorrection(dists, dist, n);
  }

  // ---------------------------------------------------------------------
  // Properties of the pose update.

  /** The output keeps every scan's identifier and file, and its new pose moves
      a point by the original pose first and by the delta after it. */
  lemma CorrectedPoses(scans: seq<Scan>, deltas: seq<Matrix>, i: int, p: seq<real>)
    requires |deltas| == |scans| && AllAre4x4(deltas) && PosesAre4x4(scans)
    requires 0 <= i < |scans| && |p| == 4
    ensures var out := Corrected(scans, deltas)[i];
      && out.id == scans[i].id
      && out.file == scans[i].file
      && Apply(out.pose, p) == Apply(deltas[i], Apply(scans[i].pose, p))
  {
    ApplyMul(deltas[i], scans[i].pose, p);
  }

  /** Identity deltas leave every pose exactly as it was loaded. */
  lemma CorrectedByIdentity(scans: seq<Scan>, deltas: seq<Matrix>)
    requires |deltas| == |scans| && AllAre4x4(deltas) && PosesAre4x4(scans)
    requires forall i :: 0 <= i < |deltas| ==> deltas[i] == Identity()
    ensures Corrected(scans, deltas) == scans
  {
    var r := Corrected(scans, deltas);
    forall i | 0 <= i < |scans|
      ensures r[i] == scans[i]
    {
      MulIdentityLeft(scans[i].pose);
    }
  }

  // ---------------------------------------------------------------------
  // A worked scenario.

  /** Six scans on a closed, roughly square path: scan 5 comes back to within
      0.5 of scan 1, and every other pair the walks examine is more than 3
      apart. */
  function SquarePathDistances(): (dists: seq<seq<real>>)
    ensures |dists| == 6 && DistanceTable(dists)
  {
    [[0.0, 1.0, 5.0, 7.0, 5.1, 1.1],
     [1.0, 0.0, 4.0, 6.4, 5.0, 0.5],
     [5.0, 4.0, 0.0, 5.0, 6.4, 4.1],
     [7.0, 6.4, 5.0, 0.0, 4.0, 6.0],
     [5.1, 5.0, 6.4, 4.0, 0.0, 4.5],
     [1.1, 0.5, 4.1, 6.0, 4.5, 0.0]]
  }

  /** With the default loop distance 3.0 exactly one correction is asked for,
      between scans 1 and 5, when the last scan is processed. */
  lemma SquarePathClosesOnce()
    ensures DriveTo(SquarePathDistances(), 3.0, 6).log == [(1, 5)]
  {
  }
}
