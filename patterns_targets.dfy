/** The peak-target assembly of the ChIP-seq configuration: for each peak
    caller in turn, the slice of the peak patterns that belongs to it is
    filled in and deep-merged into one tree of peak targets; the sample
    targets and the peak targets are then combined by shallow updates, and so
    are the sample and peak patterns.

    Filling a pattern tree (`helpers.fill_patterns`) and listing the runs of
    a peak caller (`chipseq.peak_calling_dict`) belong to other libraries;
    both are parameters here. */
module PatternsTargets {
  import opened Wrappers
  import opened Nested
  import opened Utils

  /** The peak callers, in the order the assembly visits them. */
  const PeakCallers: seq<string> := ["macs2", "spp"]

  /** `v[pc]` succeeds: `v` is a dict holding `pc`. */
  predicate HasPattern(v: Value, pc: string) {
    v.Dict? && pc in Keys(v.entries)
  }

  /** `{pc: v[pc]}`; None when `v[pc]` raises (a value that is not a dict, or
      a dict without the key). */
  function PeakItem(v: Value, pc: string): Option<Value> {
    if HasPattern(v, pc) then Some(Dict([(pc, Get(v.entries, pc).value)])) else None
  }

  /** `_peak_patterns` for peak caller `pc`, built item by item in the order
      of `patterns_by_peaks`; None when some item raises. */
  function PeakSlice(byPeaks: Entries, pc: string): Option<Entries>
    decreases |byPeaks|
  {
    if byPeaks == [] then Some([])
    else
      var last := byPeaks[|byPeaks| - 1];
      match PeakSlice(byPeaks[..|byPeaks| - 1], pc)
      case None => None
      case Some(acc) =>
        match PeakItem(last.1, pc)
        case None => None
        case Some(x) => Some(acc + [(last.0, x)])
  }

  /** The slice for `pc` exists exactly when every peak pattern is a dict
      holding `pc`. */
  lemma {:induction false} PeakSliceDefined(byPeaks: Entries, pc: string)
    ensures PeakSlice(byPeaks, pc).Some? <==> forall i :: 0 <= i < |byPeaks| ==> HasPattern(byPeaks[i].1, pc)
    decreases |byPeaks|
  {
    if byPeaks != [] {
      var n := |byPeaks| - 1;
      var init := byPeaks[..n];
      PeakSliceDefined(init, pc);
      assert PeakSlice(byPeaks, pc).Some? <==> PeakSlice(init, pc).Some? && HasPattern(byPeaks[n].1, pc);
      if forall i :: 0 <= i < n ==> HasPattern(init[i].1, pc) {
        forall i | 0 <= i < n ensures HasPattern(byPeaks[i].1, pc) {
          assert init[i] == byPeaks[i];
        }
      } else {
        var i :| 0 <= i < n && !HasPattern(init[i].1, pc);
        assert init[i] == byPeaks[i];
      }
    }
  }

  /** A slice that exists has the keys of `patterns_by_peaks`, in order, and
      maps each to the one-key dict `{pc: patterns_by_peaks[k][pc]}`. */
  lemma {:induction false} PeakSliceEntries(byPeaks: Entries, pc: string)
    requires PeakSlice(byPeaks, pc).Some?
    ensures var r := PeakSlice(byPeaks, pc).value;
      && |r| == |byPeaks|
      && forall i :: 0 <= i < |r| ==>
           HasPattern(byPeaks[i].1, pc)
           && r[i] == (byPeaks[i].0, Dict([(pc, Get(byPeaks[i].1.entries, pc).value)]))
    decreases |byPeaks|
  {
    if byPeaks != [] {
      var n := |byPeaks| - 1;
      var init := byPeaks[..n];
      PeakSliceEntries(init, pc);
      assert forall i :: 0 <= i < n ==> init[i] == byPeaks[i];
    }
  }

  /** `patterns_by_peaks` and the slice for `pc` have the same keys. */
  lemma PeakSliceKeys(byPeaks: Entries, pc: string)
    requires PeakSlice(byPeaks, pc).Some?
    ensures Keys(PeakSlice(byPeaks, pc).value) == Keys(byPeaks)
  {
    PeakSliceEntries(byPeaks, pc);
  }

  /** The `_peak_patterns` loop of `ChIPSeqConfig.__init__`: each key of
      `patterns_by_peaks` is assigned its one-key dict. The loop raises at an
      item that has no pattern for `pc`; None stands for that. */
  method PeakPatterns(byPeaks: Entries, pc: string) returns (r: Option<Entries>)
    requires DistinctKeys(byPeaks)
    ensures r == PeakSlice(byPeaks, pc)
  {
    var acc: Entries := [];
    for i := 0 to |byPeaks|
      invariant PeakSlice(byPeaks[..i], pc) == Some(acc)
    {
      var k, v := byPeaks[i].0, byPeaks[i].1;
      if !HasPattern(v, pc) {
        PeakSliceDefined(byPeaks, pc);
        return None;
      }
      var x := Dict([(pc, Get(v.entries, pc).value)]);
      PeakSliceEntries(byPeaks[..i], pc);
      assert k !in Keys(acc) by {
        forall j | 0 <= j < i ensures Keys(acc)[j] != k {
          assert acc[j].0 == byPeaks[..i][j].0 == byPeaks[j].0;
        }
      }
      AppendNew(acc, k, x);
      assert byPeaks[..i + 1][..i] == byPeaks[..i] && byPeaks[..i + 1][i] == byPeaks[i];
      acc := Set(acc, k, x);
    }
    assert byPeaks[..|byPeaks|] == byPeaks;
    r := Some(acc);
  }

  /** The string values of a list of runs. */
  function Strs(ss: seq<string>): (r: seq<Value>)
    ensures |r| == |ss| && forall i :: 0 <= i < |ss| ==> r[i] == Str(ss[i])
  {
    seq(|ss|, i requires 0 <= i < |ss| => Str(ss[i]))
  }

  /** `_fill` for peak caller `pc`: the peak-calling directory, and the runs
      of `pc` under the key `<pc>_run`. */
  function PeakFill(peakCalling: string, pc: string, runs: seq<string>): (f: Entries)
    ensures Keys(f) == ["peak_calling", pc + "_run"]
    ensures Get(f, "peak_calling") == Some(Str(peakCalling))
    ensures Get(f, pc + "_run") == Some(List(Strs(runs)))
  {
    var f := [("peak_calling", Str(peakCalling)), (pc + "_run", List(Strs(runs)))];
    assert pc + "_run" != "peak_calling" by {
      if |pc + "_run"| == |"peak_calling"| {
        assert (pc + "_run")[|pc| + 1] == 'r' != "peak_calling"[|pc| + 1];
      }
    }
    f
  }

  /** The targets filled in for peak caller `pc` (the argument of
      `update_recursive`); None exactly when the slice raises or the fill
      does not give a dict (whose `items()` the merge would then fail to
      call). */
  function Filled(byPeaks: Entries, pc: string, peakCalling: string,
                  runs: string -> seq<string>, fill: (Value, Entries) -> Value): (r: Option<Entries>)
    ensures (exists i :: 0 <= i < |byPeaks| && !HasPattern(byPeaks[i].1, pc)) ==> r.None?
    ensures r.Some? ==>
      (PeakSlice(byPeaks, pc).Some? &&
       fill(Dict(PeakSlice(byPeaks, pc).value), PeakFill(peakCalling, pc, runs(pc))) == Dict(r.value))
    ensures r.Some? <==>
      (PeakSlice(byPeaks, pc).Some? &&
       fill(Dict(PeakSlice(byPeaks, pc).value), PeakFill(peakCalling, pc, runs(pc))).Dict?)
  {
    PeakSliceDefined(byPeaks, pc);
    match PeakSlice(byPeaks, pc)
    case None => None
    case Some(slice) =>
      var t := fill(Dict(slice), PeakFill(peakCalling, pc, runs(pc)));
      if t.Dict? then Some(t.entries) else None
  }

  /** `targets_for_peaks` after the peak callers in `pcs` have been merged
      into `acc`, one after the other; None when a step raises. */
  function PeakTargetsFrom(acc: Value, pcs: seq<string>, byPeaks: Entries, peakCalling: string,
                           runs: string -> seq<string>, fill: (Value, Entries) -> Value): (r: Option<Value>)
    ensures acc.Dict? && r.Some? ==> r.value.Dict?
    decreases pcs
  {
    if pcs == [] then Some(acc)
    else
      match Filled(byPeaks, pcs[0], peakCalling, runs, fill)
      case None => None
      case Some(u) =>
        match UpdatedRecursively(acc, u)
        case None => None
        case Some(next) => PeakTargetsFrom(next, pcs[1..], byPeaks, peakCalling, runs, fill)
  }

  /** `targets_for_peaks`: starts as `{}`; macs2's targets are merged first,
      then spp's. Whenever the assembly gets through, the result is a dict. */
  function PeakTargets(byPeaks: Entries, peakCalling: string,
                       runs: string -> seq<string>, fill: (Value, Entries) -> Value): (r: Option<Value>)
    ensures r.Some? ==> r.value.Dict?
  {
    PeakTargetsFrom(EmptyDict, PeakCallers, byPeaks, peakCalling, runs, fill)
  }

  /** The assembly in two merges: macs2's filled targets merged into `{}`,
      then spp's merged into that. Merging into `{}` keeps macs2's targets as
      they are, so the result is macs2's targets deep-updated with spp's. */
  lemma PeakTargetsTwoMerges(byPeaks: Entries, peakCalling: string,
                             runs: string -> seq<string>, fill: (Value, Entries) -> Value)
    ensures PeakTargets(byPeaks, peakCalling, runs, fill).Some? ==>
      var u1 := Filled(byPeaks, "macs2", peakCalling, runs, fill);
      var u2 := Filled(byPeaks, "spp", peakCalling, runs, fill);
      && u1.Some? && u2.Some?
      && UpdatedRecursively(EmptyDict, u1.value).Some?
      && PeakTargets(byPeaks, peakCalling, runs, fill)
         == UpdatedRecursively(UpdatedRecursively(EmptyDict, u1.value).value, u2.value)
      && (WellFormed(Dict(u1.value)) ==>
            PeakTargets(byPeaks, peakCalling, runs, fill) == UpdatedRecursively(Dict(u1.value), u2.value))
  {
    assert PeakCallers[1..] == ["spp"] && PeakCallers[1..][1..] == [];
    var u1 := Filled(byPeaks, "macs2", peakCalling, runs, fill);
    if u1.Some? && WellFormed(Dict(u1.value)) {
      UpdateAppends([], u1.value);
      assert [] + u1.value == u1.value;
    }
  }

  /** Macs2's and spp's targets in the merged tree: every leaf spp's fill
      produces is there at its own key path, and every leaf macs2's fill
      produces survives unless spp's targets overwrite its key path. */
  lemma PeakTargetsMergeOrder(byPeaks: Entries, peakCalling: string,
                              runs: string -> seq<string>, fill: (Value, Entries) -> Value,
                              path: seq<string>)
    requires PeakTargets(byPeaks, peakCalling, runs, fill).Some?
    requires var u1 := Filled(byPeaks, "macs2", peakCalling, runs, fill);
      var u2 := Filled(byPeaks, "spp", peakCalling, runs, fill);
      u1.Some? && u2.Some? && WellFormed(Dict(u1.value)) && WellFormed(Dict(u2.value))
    ensures var u1 := Filled(byPeaks, "macs2", peakCalling, runs, fill).value;
      var u2 := Filled(byPeaks, "spp", peakCalling, runs, fill).value;
      var t := PeakTargets(byPeaks, peakCalling, runs, fill).value;
      && (At(Dict(u2), path).Some? && !At(Dict(u2), path).value.Dict? ==>
            At(t, path) == At(Dict(u2), path))
      && (At(Dict(u1), path).Some? && !At(Dict(u1), path).value.Dict? && !Touched(u2, path) ==>
            At(t, path) == At(Dict(u1), path))
  {
    PeakTargetsTwoMerges(byPeaks, peakCalling, runs, fill);
    var u1 := Filled(byPeaks, "macs2", peakCalling, runs, fill).value;
    var u2 := Filled(byPeaks, "spp", peakCalling, runs, fill).value;
    var first := UpdatedRecursively(EmptyDict, u1).value;
    if At(Dict(u2), path).Some? && !At(Dict(u2), path).value.Dict? {
      UpdateRecursivePlacesLeaves(first, u2, path);
    }
    if At(Dict(u1), path).Some? && !At(Dict(u1), path).value.Dict? && !Touched(u2, path) {
      UpdateRecursivePlacesLeaves(EmptyDict, u1, path);
      UpdateRecursiveKeepsLeaves(first, u2, path);
    }
  }

  /** `x = {}; x.update(a); x.update(b)`: a shallow union in which `b` wins
      every shared top-level key wholesale, with no deep merge; `a`'s keys
      come first, then the keys only `b` has, in `b`'s order. */
  lemma ShallowUnion(a: Entries, b: Entries)
    requires DistinctKeys(a) && DistinctKeys(b)
    ensures var x := ShallowUpdate(ShallowUpdate([], a), b);
      && (forall k :: Get(x, k) == if k in Keys(b) then Get(b, k) else Get(a, k))
      && |x| >= |a| && Keys(x)[..|a|] == Keys(a)
      && Keys(x) == Keys(a) + NewKeys(Keys(a), Keys(b))
  {
    ShallowUpdateEmpty(a);
    ShallowUpdateGet(a, b);
  }

  /** The peak-related state of `ChIPSeqConfig`: the inputs the assembly
      reads and the three dicts it builds. */
  class ChIPSeqConfig {
    /** `self.peak_calling`: the peak-calling output directory. */
    const peakCalling: string
    /** `self.patterns_by_sample` */
    const patternsBySample: Entries
    /** `self.targets_by_sample`: the sample patterns as filled in earlier. */
    const targetsBySample: Entries
    /** `self.patterns_by_peaks` */
    const patternsByPeaks: Entries
    /** `self.targets_for_peaks` */
    var targetsForPeaks: MutableDict
    /** `self.targets` */
    var targets: MutableDict
    /** `self.patterns` */
    var patterns: MutableDict

    /** The peak-target steps of `ChIPSeqConfig.__init__`: build
        `targets_for_peaks` by one in-place deep merge per peak caller, whose
        return value is discarded, then `targets` and `patterns` by shallow
        updates of fresh dicts. */
    constructor (peakCalling: string, patternsBySample: Entries, targetsBySample: Entries,
                 patternsByPeaks: Entries, runs: string -> seq<string>, fill: (Value, Entries) -> Value)
      requires DistinctKeys(patternsByPeaks)
      requires PeakTargets(patternsByPeaks, peakCalling, runs, fill).Some?
      ensures this.peakCalling == peakCalling && this.patternsBySample == patternsBySample
      ensures this.targetsBySample == targetsBySample && this.patternsByPeaks == patternsByPeaks
      ensures fresh(targetsForPeaks) && fresh(targets) && fresh(patterns)
      ensures Some(Dict(targetsForPeaks.entries)) == PeakTargets(patternsByPeaks, peakCalling, runs, fill)
      ensures targets.entries == ShallowUpdate(ShallowUpdate([], targetsBySample), targetsForPeaks.entries)
      ensures patterns.entries == ShallowUpdate(ShallowUpdate([], patternsBySample), patternsByPeaks)
    {
      var forPeaks := new MutableDict([]);
      var j := 0;
      while j < |PeakCallers|
        invariant 0 <= j <= |PeakCallers|
        invariant PeakTargetsFrom(Dict(forPeaks.entries), PeakCallers[j..], patternsByPeaks, peakCalling, runs, fill)
          == PeakTargets(patternsByPeaks, peakCalling, runs, fill)
      {
        var pc := PeakCallers[j];
        assert PeakCallers[j..][0] == pc && PeakCallers[j..][1..] == PeakCallers[j + 1..];
        var slice := PeakPatterns(patternsByPeaks, pc);
        var filled := fill(Dict(slice.value), PeakFill(peakCalling, pc, runs(pc)));
        var _ := forPeaks.UpdateRecursive(filled.entries);
        j := j + 1;
      }
      var t := new MutableDict([]);
      t.Update(targetsBySample);
      t.Update(forPeaks.entries);
      var p := new MutableDict([]);
      p.Update(patternsBySample);
      p.Update(patternsByPeaks);
      this.peakCalling := peakCalling;
      this.patternsBySample := patternsBySample;
      this.targetsBySample := targetsBySample;
      this.patternsByPeaks := patternsByPeaks;
      targetsForPeaks := forPeaks;
      targets := t;
      patterns := p;
    }
  }

  /** Under Python's dict invariant, the assembled `targets` hold, key by
      key, the peak targets where those have the key and the sample targets
      otherwise. */
  lemma TargetsUnion(targetsBySample: Entries, patternsByPeaks: Entries, peakCalling: string,
                     runs: string -> seq<string>, fill: (Value, Entries) -> Value, k: string)
    requires DistinctKeys(targetsBySample)
    requires PeakTargets(patternsByPeaks, peakCalling, runs, fill).Some?
    ensures var t := PeakTargets(patternsByPeaks, peakCalling, runs, fill).value;
      && t.Dict?
      && Get(ShallowUpdate(ShallowUpdate([], targetsBySample), t.entries), k)
         == if k in Keys(t.entries) then Get(t.entries, k) else Get(targetsBySample, k)
  {
    PeakTargetsTwoMerges(patternsByPeaks, peakCalling, runs, fill);
    var u1 := Filled(patternsByPeaks, "macs2", peakCalling, runs, fill).value;
    var u2 := Filled(patternsByPeaks, "spp", peakCalling, runs, fill).value;
    var first := UpdatedRecursively(EmptyDict, u1).value;
    assert u1 != [] ==> first.Dict?;
    UpdateRecursiveDistinct(EmptyDict, u1);
    UpdateRecursiveKeys(EmptyDict, u1);
    UpdateRecursiveDistinct(first, u2);
    UpdateRecursiveKeys(first, u2);
    ShallowUnion(targetsBySample, PeakTargets(patternsByPeaks, peakCalling, runs, fill).value.entries);
  }
}
