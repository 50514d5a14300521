// The rename planner of `reorganize_all_files`: from the files in creation-time
// order and a prefix it builds one `(current, temp, final)` triple per file that
// is not already at its target name.
module Planner {
  import opened Text
  import opened Naming

  datatype RenameStep = RenameStep(current: string, temp: string, final: string)

  /** The name the file at 0-based position i must end up with. */
  function Target(prefix: string, policy: ExtPolicy, i: nat, name: string): string {
    FinalName(prefix, i, TargetExtension(policy, name))
  }

  /** The triple the planner writes for position i: the extension, the final
      name and the temporary name computed from the 1-based position. */
  function StepAt(names: seq<string>, prefix: string, policy: ExtPolicy, i: nat): RenameStep
    requires i < |names|
  {
    var ext := TargetExtension(policy, names[i]);
    RenameStep(names[i], TempName(prefix, i, ext), FinalName(prefix, i, ext))
  }

  /** Which positions hold a file that is not at its target name. */
  function Misplaced(names: seq<string>, prefix: string, policy: ExtPolicy): (r: seq<bool>)
    ensures |r| == |names|
    ensures forall i {:trigger r[i]} :: 0 <= i < |names| ==> (r[i] <==> names[i] != Target(prefix, policy, i, names[i]))
  {
    seq(|names|, i requires 0 <= i < |names| => names[i] != Target(prefix, policy, i, names[i]))
  }

  /** The triple of every position, whether or not it is planned. */
  function Steps(names: seq<string>, prefix: string, policy: ExtPolicy): (r: seq<RenameStep>)
    ensures |r| == |names|
    ensures forall i {:trigger r[i]} :: 0 <= i < |names| ==> r[i] == StepAt(names, prefix, policy, i)
  {
    seq(|names|, i requires 0 <= i < |names| => StepAt(names, prefix, policy, i))
  }

  /** The entries of steps among the first k whose flag is set, in order. */
  function Selected(flags: seq<bool>, steps: seq<RenameStep>, k: nat): seq<RenameStep>
    requires k <= |flags| == |steps|
  {
    if k == 0 then []
    else Selected(flags, steps, k - 1) + (if flags[k - 1] then [steps[k - 1]] else [])
  }

  /** The whole rename plan for the files `names`, already in creation-time order. */
  function Plan(names: seq<string>, prefix: string, policy: ExtPolicy): seq<RenameStep> {
    Selected(Misplaced(names, prefix, policy), Steps(names, prefix, policy), |names|)
  }

  /** The loop of `reorganize_all_files` that enumerates the sorted files and
      appends a triple for every file whose name differs from its target. */
  method BuildPlan(names: seq<string>, prefix: string, policy: ExtPolicy) returns (renames: seq<RenameStep>)
    ensures renames == Plan(names, prefix, policy)
  {
    renames := [];
    var i := 0;
    while i < |names|
      invariant 0 <= i <= |names|
      invariant renames == Selected(Misplaced(names, prefix, policy), Steps(names, prefix, policy), i)
    {
      renames := AppendIfMisplaced(names, prefix, policy, i, renames);
      i := i + 1;
    }
  }

  /** One iteration of the loop: the triple of position i is appended when
      that file's name differs from its target. */
  method AppendIfMisplaced(names: seq<string>, prefix: string, policy: ExtPolicy, i: nat, renames: seq<RenameStep>)
    returns (next: seq<RenameStep>)
    requires i < |names|
    requires renames == Selected(Misplaced(names, prefix, policy), Steps(names, prefix, policy), i)
    ensures next == Selected(Misplaced(names, prefix, policy), Steps(names, prefix, policy), i + 1)
  {
    var step := StepAt(names, prefix, policy, i);
    SelectedNext(names, prefix, policy, i);
    next := renames;
    if step.current != step.final {
      next := next + [step];
    }
  }

  /** One more position of the selection is one more iteration of the loop. */
  lemma SelectedNext(names: seq<string>, prefix: string, policy: ExtPolicy, i: nat)
    requires i < |names|
    ensures var step := StepAt(names, prefix, policy, i);
      Selected(Misplaced(names, prefix, policy), Steps(names, prefix, policy), i + 1) ==
        Selected(Misplaced(names, prefix, policy), Steps(names, prefix, policy), i) +
        (if step.current != step.final then [step] else [])
  {
  }

  // ---------------------------------------------------------------------------
  // What the plan contains.

  /** A selection lists, in increasing position order, exactly the flagged
      positions, each with its own entry. */
  lemma {:induction false} SelectedPositions(flags: seq<bool>, steps: seq<RenameStep>, k: nat)
    returns (idx: seq<nat>)
    requires k <= |flags| == |steps|
    ensures |idx| == |Selected(flags, steps, k)|
    ensures forall m :: 0 <= m < |idx| ==>
      idx[m] < k && flags[idx[m]] && Selected(flags, steps, k)[m] == steps[idx[m]]
    ensures forall m, n :: 0 <= m < n < |idx| ==> idx[m] < idx[n]
    ensures forall i :: 0 <= i < k && flags[i] ==> i in idx
    decreases k
  {
    if k == 0 {
      idx := [];
    } else {
      var prev := SelectedPositions(flags, steps, k - 1);
      var before, after := Selected(flags, steps, k - 1), Selected(flags, steps, k);
      if flags[k - 1] {
        idx := prev + [k - 1];
        assert after == before + [steps[k - 1]];
        assert idx[|prev|] == k - 1 && after[|prev|] == steps[k - 1];
        forall m | 0 <= m < |prev| ensures idx[m] == prev[m] && after[m] == before[m] {
        }
      } else {
        idx := prev;
        assert after == before;
      }
    }
  }

  /** The plan lists, in increasing position order, exactly the positions whose
      file is not at its target, each with its own triple. */
  lemma PlanPositions(names: seq<string>, prefix: string, policy: ExtPolicy) returns (idx: seq<nat>)
    ensures var plan := Plan(names, prefix, policy);
      |idx| == |plan| &&
      (forall m :: 0 <= m < |idx| ==>
        idx[m] < |names| && names[idx[m]] != Target(prefix, policy, idx[m], names[idx[m]]) &&
        plan[m] == StepAt(names, prefix, policy, idx[m])) &&
      (forall m, n :: 0 <= m < n < |idx| ==> idx[m] < idx[n]) &&
      (forall i :: 0 <= i < |names| && names[i] != Target(prefix, policy, i, names[i]) ==> i in idx)
  {
    idx := SelectedPositions(Misplaced(names, prefix, policy), Steps(names, prefix, policy), |names|);
  }

  /** The file at position i is in the plan exactly when its name differs from
      `<prefix>_<i+1 as %02d><ext>`. */
  lemma PlanMembership(names: seq<string>, prefix: string, policy: ExtPolicy, i: nat)
    requires i < |names|
    ensures StepAt(names, prefix, policy, i) in Plan(names, prefix, policy)
            <==> names[i] != Target(prefix, policy, i, names[i])
  {
    var idx := PlanPositions(names, prefix, policy);
    var plan := Plan(names, prefix, policy);
    if StepAt(names, prefix, policy, i) in plan {
      var m :| 0 <= m < |plan| && plan[m] == StepAt(names, prefix, policy, i);
      assert names[idx[m]] == names[i];
      FinalNameRecoversPosition(names, prefix, policy, idx[m], i);
    }
  }

  lemma TargetExtensionDigitFree(policy: ExtPolicy, name: string)
    ensures DigitFree(TargetExtension(policy, name))
  {
    if policy == KeepLowered {
      var s := Suffix(name);
      if |s| > 0 {
        assert Lower(s)[0] == LowerChar(s[0]) == '.';
      }
    }
  }

  lemma FinalNameRecoversPosition(names: seq<string>, prefix: string, policy: ExtPolicy, a: nat, b: nat)
    requires a < |names| && b < |names|
    requires StepAt(names, prefix, policy, a).final == StepAt(names, prefix, policy, b).final
    ensures a == b
  {
    TargetExtensionDigitFree(policy, names[a]);
    TargetExtensionDigitFree(policy, names[b]);
    FinalNameInjective(prefix, a, b, TargetExtension(policy, names[a]), TargetExtension(policy, names[b]));
  }

  /** No rename happens exactly when every file already has its target name. */
  lemma PlanEmptyIffAllInPlace(names: seq<string>, prefix: string, policy: ExtPolicy)
    ensures Plan(names, prefix, policy) == [] <==>
            forall i :: 0 <= i < |names| ==> names[i] == Target(prefix, policy, i, names[i])
  {
    var idx := PlanPositions(names, prefix, policy);
    if Plan(names, prefix, policy) == [] {
    } else {
      assert names[idx[0]] != Target(prefix, policy, idx[0], names[idx[0]]);
    }
  }

  // ---------------------------------------------------------------------------
  // The names in a plan never collide.

  /** The extensions of all planned names are real image extensions: always so
      for the PNG-only planner, and for the other planner when no file is a bare
      extension such as `.png`. */
  predicate KnownExtensions(names: seq<string>, policy: ExtPolicy) {
    policy == AlwaysPng ||
    forall i :: 0 <= i < |names| ==> HasImageExtension(names[i]) && !IsBareExtension(names[i])
  }

  lemma KnownExtension(names: seq<string>, policy: ExtPolicy, i: nat)
    requires KnownExtensions(names, policy) && i < |names|
    ensures TargetExtension(policy, names[i]) in ImageExtensions
  {
    if policy == KeepLowered {
      ImageSuffix(names[i]);
    }
  }

  /** Final names are pairwise distinct, temporary names are pairwise distinct,
      and (for fewer than 1,000,000 files with image extensions) no temporary
      name is a final name of the same plan. */
  lemma {:induction false} PlanNamesDistinct(names: seq<string>, prefix: string, policy: ExtPolicy)
    ensures var plan := Plan(names, prefix, policy);
      forall a, b :: 0 <= a < b < |plan| ==> plan[a].final != plan[b].final && plan[a].temp != plan[b].temp
    ensures var plan := Plan(names, prefix, policy);
      |names| < 1000000 && KnownExtensions(names, policy) ==>
      forall a, b :: 0 <= a < |plan| && 0 <= b < |plan| ==> plan[a].temp != plan[b].final
  {
    var plan := Plan(names, prefix, policy);
    var idx := PlanPositions(names, prefix, policy);
    forall a, b | 0 <= a < b < |plan| ensures plan[a].final != plan[b].final && plan[a].temp != plan[b].temp {
      if plan[a].final == plan[b].final {
        FinalNameRecoversPosition(names, prefix, policy, idx[a], idx[b]);
      }
      if plan[a].temp == plan[b].temp {
        TempNameInjective(prefix, idx[a], idx[b],
          TargetExtension(policy, names[idx[a]]), TargetExtension(policy, names[idx[b]]));
      }
    }
    if |names| < 1000000 && KnownExtensions(names, policy) {
      forall a, b | 0 <= a < |plan| && 0 <= b < |plan| ensures plan[a].temp != plan[b].final {
        KnownExtension(names, policy, idx[a]);
        KnownExtension(names, policy, idx[b]);
        TempNeverFinal(prefix, idx[a], idx[b],
          TargetExtension(policy, names[idx[a]]), TargetExtension(policy, names[idx[b]]));
      }
    }
  }

  /** Distinct listed files give distinct current names in the plan. */
  lemma {:induction false} PlanCurrentsDistinct(names: seq<string>, prefix: string, policy: ExtPolicy)
    requires forall a, b :: 0 <= a < b < |names| ==> names[a] != names[b]
    ensures var plan := Plan(names, prefix, policy);
      forall a, b :: 0 <= a < b < |plan| ==> plan[a].current != plan[b].current
  {
    var plan := Plan(names, prefix, policy);
    var idx := PlanPositions(names, prefix, policy);
    forall a, b | 0 <= a < b < |plan| ensures plan[a].current != plan[b].current {
      assert idx[a] < idx[b];
    }
  }

  /** Every final name the planner hands out is recognised as already renamed:
      case-insensitively for the PNG/JPG/JPEG planner (files that are more than
      a bare extension), case-sensitively for the PNG-only planner. */
  lemma PlanFinalsCanonical(names: seq<string>, prefix: string, policy: ExtPolicy)
    requires KnownExtensions(names, policy)
    ensures forall s :: s in Plan(names, prefix, policy) ==>
      if policy == KeepLowered then IsCanonicalImage(prefix, s.final) else IsCanonicalPng(prefix, s.final)
  {
    var plan := Plan(names, prefix, policy);
    var idx := PlanPositions(names, prefix, policy);
    forall s | s in plan
      ensures if policy == KeepLowered then IsCanonicalImage(prefix, s.final) else IsCanonicalPng(prefix, s.final)
    {
      var m :| 0 <= m < |plan| && plan[m] == s;
      if policy == KeepLowered {
        FinalNameIsCanonicalImage(prefix, idx[m], names[idx[m]]);
      } else {
        FinalNameIsCanonicalPng(prefix, idx[m]);
      }
    }
  }
}
