// The two-phase applier of `reorganize_all_files`: phase 1 moves every planned
// file to its temporary name, phase 2 moves every temporary name to its final
// name. The original and PNG-only variants let the first failing rename end
// the whole pass; the corrected variant skips a failing entry and goes on.
module Apply {
  import opened FileSystem
  import opened Planner

  /** Which rename of a step is meant: phase 1, phase 2, or both together. */
  datatype Leg = ToTemp | ToFinal | Whole

  function Src(s: RenameStep, leg: Leg): string {
    match leg
    case ToTemp => s.current
    case ToFinal => s.temp
    case Whole => s.current
  }

  function Dst(s: RenameStep, leg: Leg): string {
    match leg
    case ToTemp => s.temp
    case ToFinal => s.final
    case Whole => s.final
  }

  function Srcs(steps: seq<RenameStep>, leg: Leg): set<string> {
    set s | s in steps :: Src(s, leg)
  }

  function Dsts(steps: seq<RenameStep>, leg: Leg): set<string> {
    set s | s in steps :: Dst(s, leg)
  }

  /** The temporary names of some steps, collected in order as
      `temp_files.add` does. */
  function Temps(steps: seq<RenameStep>): set<string> {
    if steps == [] then {} else Temps(steps[..|steps| - 1]) + {steps[|steps| - 1].temp}
  }

  // ---------------------------------------------------------------------------
  // One sweep of renames over a list of steps.

  datatype Run = Run(files: Files, done: nat)

  /** Abort-on-error sweep: renames leg by leg until the first one fails; `done`
      counts the renames made, starting from the `done` passed in. */
  function Chain(files: Files, steps: seq<RenameStep>, leg: Leg, done: nat): (r: Run)
    ensures done <= r.done <= done + |steps|
    decreases |steps|
  {
    if steps == [] then Run(files, done)
    else if CanRename(files, Src(steps[0], leg), Dst(steps[0], leg)) then
      Chain(Renamed(files, Src(steps[0], leg), Dst(steps[0], leg)), steps[1..], leg, done + 1)
    else Run(files, done)
  }

  datatype Sweep = Sweep(files: Files, moved: seq<RenameStep>)

  /** Per-entry sweep: tries every step, skips the ones whose rename fails, and
      appends the ones that succeed to `moved`. */
  function Each(files: Files, steps: seq<RenameStep>, leg: Leg, moved: seq<RenameStep>): (r: Sweep)
    ensures |moved| <= |r.moved| <= |moved| + |steps|
    decreases |steps|
  {
    if steps == [] then Sweep(files, moved)
    else if CanRename(files, Src(steps[0], leg), Dst(steps[0], leg)) then
      Each(Renamed(files, Src(steps[0], leg), Dst(steps[0], leg)), steps[1..], leg, moved + [steps[0]])
    else Each(files, steps[1..], leg, moved)
  }

  // ---------------------------------------------------------------------------
  // The two passes.

  /** What a pass leaves behind: the directory, the handler's `temp_files`,
      whether it ran to the end without an exception, and how many files
      reached their final name. */
  datatype Outcome = Outcome(files: Files, temps: set<string>, ok: bool, renamed: nat)

  /** Original and PNG-only variants: `temp_files.add` before each phase-1
      rename, `discard` after each phase-2 rename, and the first exception ends
      the pass. */
  function AbortPass(files: Files, temps: set<string>, plan: seq<RenameStep>): Outcome {
    var p1 := Chain(files, plan, ToTemp, 0);
    if p1.done < |plan| then
      Outcome(p1.files, temps + Temps(plan[..p1.done + 1]), false, 0)
    else
      var p2 := Chain(p1.files, plan, ToFinal, 0);
      Outcome(p2.files, temps + Temps(plan) - Temps(plan[..p2.done]), p2.done == |plan|, p2.done)
  }

  /** Corrected variant: phase 1 tries every entry and keeps the ones that
      moved (`successful_phase1`); phase 2 tries only those, and a temporary name
      leaves `temp_files` only once its final rename succeeded. */
  function PerEntryPass(files: Files, temps: set<string>, plan: seq<RenameStep>): (r: Outcome)
    ensures r.renamed <= |Each(files, plan, ToTemp, []).moved| <= |plan|
  {
    var p1 := Each(files, plan, ToTemp, []);
    var p2 := Each(p1.files, p1.moved, ToFinal, []);
    Outcome(p2.files, temps + Temps(plan) - Temps(p2.moved), true, |p2.moved|)
  }

  lemma TempsAppend(steps: seq<RenameStep>, s: RenameStep)
    ensures Temps(steps + [s]) == Temps(steps) + {s.temp}
  {
    assert (steps + [s])[..|steps|] == steps;
  }

  lemma TempsSnoc(steps: seq<RenameStep>, i: nat)
    requires i < |steps|
    ensures Temps(steps[..i + 1]) == Temps(steps[..i]) + {steps[i].temp}
  {
    assert steps[..i + 1] == steps[..i] + [steps[i]];
    TempsAppend(steps[..i], steps[i]);
  }

  /** The temporary names of a prefix of the steps are among those of all of them. */
  lemma {:induction false} TempsPrefix(steps: seq<RenameStep>, k: nat)
    requires k <= |steps|
    ensures Temps(steps[..k]) <= Temps(steps)
    decreases |steps| - k
  {
    if k < |steps| {
      TempsSnoc(steps, k);
      TempsPrefix(steps, k + 1);
    } else {
      assert steps[..k] == steps;
    }
  }

  /** Every name Temps collects is the temporary name of one of the steps. */
  lemma {:induction false} TempsOfSteps(steps: seq<RenameStep>, t: string) returns (i: nat)
    requires t in Temps(steps)
    ensures i < |steps| && steps[i].temp == t
    decreases |steps|
  {
    var init := steps[..|steps| - 1];
    if t == steps[|steps| - 1].temp {
      i := |steps| - 1;
    } else {
      i := TempsOfSteps(init, t);
      assert init[i] == steps[i];
    }
  }

  /** Neither pass registers a temporary name that is not one of the plan's. */
  lemma PassTempsBound(files: Files, temps: set<string>, plan: seq<RenameStep>)
    ensures AbortPass(files, temps, plan).temps <= temps + Temps(plan)
    ensures PerEntryPass(files, temps, plan).temps <= temps + Temps(plan)
  {
    var p1 := Chain(files, plan, ToTemp, 0);
    if p1.done < |plan| {
      TempsPrefix(plan, p1.done + 1);
    }
  }

  /** The two renaming loops of the original / PNG-only `reorganize_all_files`. */
  method ApplyAbortOnError(dir: Directory, temps: set<string>, plan: seq<RenameStep>)
    returns (tempFiles: set<string>, ok: bool, renamed: nat)
    modifies dir
    ensures Outcome(dir.files, tempFiles, ok, renamed) == AbortPass(old(dir.files), temps, plan)
  {
    ghost var files0 := dir.files;
    var done;
    tempFiles, done := ToTempsUntilFailure(dir, temps, plan);
    if done < |plan| {
      AbortInPhaseOne(files0, temps, plan, dir.files, done);
      return tempFiles, false, 0;
    }
    ghost var files1 := dir.files;
    assert plan[..|plan|] == plan;
    tempFiles, renamed := ToFinalsUntilFailure(dir, tempFiles, plan);
    AbortInPhaseTwo(files0, temps, plan, files1, dir.files, renamed);
    ok := renamed == |plan|;
  }

  /** Phase 1 of the original / PNG-only applier: each temporary name is added
      to `temp_files` just before its rename, and the first failure stops. */
  method ToTempsUntilFailure(dir: Directory, temps: set<string>, plan: seq<RenameStep>)
    returns (tempFiles: set<string>, done: nat)
    modifies dir
    ensures Run(dir.files, done) == Chain(old(dir.files), plan, ToTemp, 0)
    ensures tempFiles == temps + Temps(plan[..if done < |plan| then done + 1 else done])
  {
    ghost var files0 := dir.files;
    tempFiles := temps;
    done := 0;
    while done < |plan|
      invariant 0 <= done <= |plan|
      invariant Chain(dir.files, plan[done..], ToTemp, done) == Chain(files0, plan, ToTemp, 0)
      invariant tempFiles == temps + Temps(plan[..done])
    {
      ChainNext(dir.files, plan, ToTemp, done);
      TempsSnoc(plan, done);
      tempFiles := tempFiles + {plan[done].temp};
      var moved := dir.Rename(plan[done].current, plan[done].temp);
      if !moved {
        return;
      }
      done := done + 1;
    }
    ChainEnd(dir.files, plan, ToTemp);
  }

  /** Phase 2 of the original / PNG-only applier: each temporary name leaves
      `temp_files` once its final rename succeeded, and the first failure stops. */
  method ToFinalsUntilFailure(dir: Directory, temps: set<string>, plan: seq<RenameStep>)
    returns (tempFiles: set<string>, done: nat)
    modifies dir
    ensures Run(dir.files, done) == Chain(old(dir.files), plan, ToFinal, 0)
    ensures tempFiles == temps - Temps(plan[..done])
  {
    ghost var files0 := dir.files;
    tempFiles := temps;
    done := 0;
    while done < |plan|
      invariant 0 <= done <= |plan|
      invariant Chain(dir.files, plan[done..], ToFinal, done) == Chain(files0, plan, ToFinal, 0)
      invariant tempFiles == temps - Temps(plan[..done])
    {
      ChainNext(dir.files, plan, ToFinal, done);
      TempsSnoc(plan, done);
      var moved := dir.Rename(plan[done].temp, plan[done].final);
      if !moved {
        return;
      }
      tempFiles := tempFiles - {plan[done].temp};
      done := done + 1;
    }
    ChainEnd(dir.files, plan, ToFinal);
  }

  /** One step of an abort-on-error sweep, seen from position i. */
  lemma ChainNext(files: Files, steps: seq<RenameStep>, leg: Leg, i: nat)
    requires i < |steps|
    ensures Chain(files, steps[i..], leg, i) ==
      if CanRename(files, Src(steps[i], leg), Dst(steps[i], leg))
      then Chain(Renamed(files, Src(steps[i], leg), Dst(steps[i], leg)), steps[i + 1..], leg, i + 1)
      else Run(files, i)
  {
    assert steps[i..][0] == steps[i];
    assert steps[i..][1..] == steps[i + 1..];
  }

  lemma ChainEnd(files: Files, steps: seq<RenameStep>, leg: Leg)
    ensures Chain(files, steps[|steps|..], leg, |steps|) == Run(files, |steps|)
  {
    assert steps[|steps|..] == [];
  }

  lemma AbortInPhaseOne(files: Files, temps: set<string>, plan: seq<RenameStep>, f: Files, i: nat)
    requires i < |plan| && Chain(files, plan, ToTemp, 0) == Run(f, i)
    ensures AbortPass(files, temps, plan) == Outcome(f, temps + Temps(plan[..i + 1]), false, 0)
  {
  }

  lemma AbortInPhaseTwo(files: Files, temps: set<string>, plan: seq<RenameStep>, f1: Files, f: Files, k: nat)
    requires Chain(files, plan, ToTemp, 0) == Run(f1, |plan|) && Chain(f1, plan, ToFinal, 0) == Run(f, k)
    ensures AbortPass(files, temps, plan) == Outcome(f, (temps + Temps(plan)) - Temps(plan[..k]), k == |plan|, k)
  {
  }

  /** The two renaming loops of the corrected `reorganize_all_files`. */
  method ApplyPerEntry(dir: Directory, temps: set<string>, plan: seq<RenameStep>)
    returns (tempFiles: set<string>, renamed: nat)
    modifies dir
    ensures Outcome(dir.files, tempFiles, true, renamed) == PerEntryPass(old(dir.files), temps, plan)
  {
    ghost var files0 := dir.files;
    var succeeded;
    tempFiles, succeeded := ToTempsEach(dir, temps, plan);
    ghost var files1 := dir.files;
    tempFiles, renamed := ToFinalsEach(dir, tempFiles, succeeded);
    PerEntryAssembled(files0, temps, plan, files1, succeeded);
  }

  /** Phase 1 of the corrected applier: every entry is tried, and the ones
      whose rename succeeded are collected (`successful_phase1`). */
  method ToTempsEach(dir: Directory, temps: set<string>, plan: seq<RenameStep>)
    returns (tempFiles: set<string>, succeeded: seq<RenameStep>)
    modifies dir
    ensures Sweep(dir.files, succeeded) == Each(old(dir.files), plan, ToTemp, [])
    ensures tempFiles == temps + Temps(plan)
  {
    ghost var files0 := dir.files;
    tempFiles := temps;
    succeeded := [];
    var i := 0;
    while i < |plan|
      invariant 0 <= i <= |plan|
      invariant Each(dir.files, plan[i..], ToTemp, succeeded) == Each(files0, plan, ToTemp, [])
      invariant tempFiles == temps + Temps(plan[..i])
    {
      EachNext(dir.files, plan, ToTemp, i, succeeded);
      TempsSnoc(plan, i);
      tempFiles := tempFiles + {plan[i].temp};
      var moved := dir.Rename(plan[i].current, plan[i].temp);
      if moved {
        succeeded := succeeded + [plan[i]];
      }
      i := i + 1;
    }
    EachEnd(dir.files, plan, ToTemp, succeeded);
    assert plan[..|plan|] == plan;
  }

  /** Phase 2 of the corrected applier: an entry whose temporary name no
      longer exists is skipped, and a temporary name leaves `temp_files` only
      once its final rename succeeded. */
  method ToFinalsEach(dir: Directory, temps: set<string>, succeeded: seq<RenameStep>)
    returns (tempFiles: set<string>, renamed: nat)
    modifies dir
    ensures var p2 := Each(old(dir.files), succeeded, ToFinal, []);
      dir.files == p2.files && tempFiles == temps - Temps(p2.moved) && renamed == |p2.moved|
  {
    ghost var files0 := dir.files;
    ghost var finished: seq<RenameStep> := [];
    tempFiles := temps;
    renamed := 0;
    var j := 0;
    while j < |succeeded|
      invariant 0 <= j <= |succeeded|
      invariant Each(dir.files, succeeded[j..], ToFinal, finished) == Each(files0, succeeded, ToFinal, [])
      invariant tempFiles == temps - Temps(finished)
      invariant renamed == |finished|
    {
      var step := succeeded[j];
      EachNext(dir.files, succeeded, ToFinal, j, finished);
      assert Src(step, ToFinal) == step.temp && Dst(step, ToFinal) == step.final;
      if dir.Exists(step.temp) {
        var moved := dir.Rename(step.temp, step.final);
        if moved {
          TempsAppend(finished, step);
          tempFiles := tempFiles - {step.temp};
          renamed := renamed + 1;
          finished := finished + [step];
        }
      }
      j := j + 1;
    }
    EachEnd(dir.files, succeeded, ToFinal, finished);
  }

  /** One step of a per-entry sweep, seen from position i. */
  lemma EachNext(files: Files, steps: seq<RenameStep>, leg: Leg, i: nat, moved: seq<RenameStep>)
    requires i < |steps|
    ensures Each(files, steps[i..], leg, moved) ==
      if CanRename(files, Src(steps[i], leg), Dst(steps[i], leg))
      then Each(Renamed(files, Src(steps[i], leg), Dst(steps[i], leg)), steps[i + 1..], leg, moved + [steps[i]])
      else Each(files, steps[i + 1..], leg, moved)
  {
    assert steps[i..][0] == steps[i];
    assert steps[i..][1..] == steps[i + 1..];
  }

  lemma EachEnd(files: Files, steps: seq<RenameStep>, leg: Leg, moved: seq<RenameStep>)
    ensures Each(files, steps[|steps|..], leg, moved) == Sweep(files, moved)
  {
    assert steps[|steps|..] == [];
  }

  lemma PerEntryAssembled(files: Files, temps: set<string>, plan: seq<RenameStep>, f1: Files, moved1: seq<RenameStep>)
    requires Each(files, plan, ToTemp, []) == Sweep(f1, moved1)
    ensures var p2 := Each(f1, moved1, ToFinal, []);
      PerEntryPass(files, temps, plan) == Outcome(p2.files, (temps + Temps(plan)) - Temps(p2.moved), true, |p2.moved|)
  {
  }

  // ---------------------------------------------------------------------------
  // What a sweep does to the directory.

  /** Within one leg of a list of steps, no two steps share a source or a
      destination. */
  predicate DistinctLegs(steps: seq<RenameStep>, leg: Leg) {
    forall i, j :: 0 <= i < j < |steps| ==>
      Src(steps[i], leg) != Src(steps[j], leg) && Dst(steps[i], leg) != Dst(steps[j], leg)
  }

  /** Every source is present and every destination is free. */
  predicate Movable(files: Files, steps: seq<RenameStep>, leg: Leg) {
    DistinctLegs(steps, leg) &&
    forall s :: s in steps ==> Src(s, leg) in files && Dst(s, leg) !in files
  }

  predicate Free(files: Files, s: RenameStep, leg: Leg) {
    Src(s, leg) in files && !files[Src(s, leg)].locked
  }

  /** The steps whose source can be renamed, in order. */
  function Unlocked(files: Files, steps: seq<RenameStep>, leg: Leg): (r: seq<RenameStep>)
    ensures forall s :: s in r <==> s in steps && Free(files, s, leg)
    ensures |r| <= |steps|
  {
    if steps == [] then []
    else (if Free(files, steps[0], leg) then [steps[0]] else []) + Unlocked(files, steps[1..], leg)
  }

  /** after is before with the source of every step moved to its destination. */
  predicate Relocated(before: Files, after: Files, steps: seq<RenameStep>, leg: Leg) {
    (forall s :: s in steps ==> Src(s, leg) in before && Dst(s, leg) in after) &&
    after.Keys == before.Keys - Srcs(steps, leg) + Dsts(steps, leg) &&
    (forall s :: s in steps ==> after[Dst(s, leg)] == before[Src(s, leg)]) &&
    (forall n :: n in before && n !in Srcs(steps, leg) ==> n in after && after[n] == before[n])
  }

  lemma LegsCons(s: RenameStep, rest: seq<RenameStep>, leg: Leg)
    ensures Srcs([s] + rest, leg) == {Src(s, leg)} + Srcs(rest, leg)
    ensures Dsts([s] + rest, leg) == {Dst(s, leg)} + Dsts(rest, leg)
  {
    assert forall t :: t in [s] + rest <==> t == s || t in rest;
  }

  lemma {:induction false} UnlockedDistinct(files: Files, steps: seq<RenameStep>, leg: Leg, other: Leg)
    requires DistinctLegs(steps, other)
    ensures DistinctLegs(Unlocked(files, steps, leg), other)
    decreases |steps|
  {
    if steps != [] {
      UnlockedDistinct(files, steps[1..], leg, other);
      var u := Unlocked(files, steps, leg);
      var rest := Unlocked(files, steps[1..], leg);
      if Free(files, steps[0], leg) {
        assert u == [steps[0]] + rest;
        forall i, j | 0 <= i < j < |u|
          ensures Src(u[i], other) != Src(u[j], other) && Dst(u[i], other) != Dst(u[j], other)
        {
          if i == 0 {
            assert u[j] in steps[1..];
            var k :| 0 <= k < |steps[1..]| && steps[1..][k] == u[j];
            assert steps[k + 1] == u[j];
          } else {
            assert u[i] == rest[i - 1] && u[j] == rest[j - 1];
          }
        }
      } else {
        assert u == rest;
      }
    }
  }

  lemma {:induction false} UnlockedAll(files: Files, steps: seq<RenameStep>, leg: Leg)
    requires forall s :: s in steps ==> Free(files, s, leg)
    ensures Unlocked(files, steps, leg) == steps
    decreases |steps|
  {
    if steps != [] {
      var rest := steps[1..];
      assert steps == [steps[0]] + rest;
      assert Free(files, steps[0], leg);
      forall s | s in rest ensures Free(files, s, leg) {
        assert s in steps;
      }
      UnlockedAll(files, rest, leg);
    }
  }

  lemma {:induction false} UnlockedSame(files: Files, other: Files, steps: seq<RenameStep>, leg: Leg)
    requires forall s :: s in steps ==> Src(s, leg) in files && Src(s, leg) in other && other[Src(s, leg)] == files[Src(s, leg)]
    ensures Unlocked(other, steps, leg) == Unlocked(files, steps, leg)
    decreases |steps|
  {
    if steps != [] {
      UnlockedSame(files, other, steps[1..], leg);
    }
  }

  lemma AppendAssoc(a: seq<RenameStep>, b: seq<RenameStep>, c: seq<RenameStep>)
    ensures (a + b) + c == a + (b + c)
  {
  }

  /** A first rename composed with a relocation of the remaining steps. */
  lemma RelocatedCons(files: Files, mid: Files, after: Files, s: RenameStep, rest: seq<RenameStep>, leg: Leg)
    requires Src(s, leg) in files && Dst(s, leg) !in files
    requires mid == Renamed(files, Src(s, leg), Dst(s, leg))
    requires forall t :: t in rest ==> Src(t, leg) != Src(s, leg) && Src(t, leg) in files && Dst(t, leg) != Dst(s, leg)
    requires Relocated(mid, after, rest, leg)
    ensures Relocated(files, after, [s] + rest, leg)
  {
    LegsCons(s, rest, leg);
    var src, dst := Src(s, leg), Dst(s, leg);
    RenamedMoves(files, src, dst);
    assert dst !in Srcs(rest, leg);
    assert after.Keys == files.Keys - Srcs([s] + rest, leg) + Dsts([s] + rest, leg);
    assert after[dst] == files[src];
    forall t | t in [s] + rest ensures Src(t, leg) in files && Dst(t, leg) in after && after[Dst(t, leg)] == files[Src(t, leg)] {
      if t != s {
        assert t in rest;
      }
    }
  }

  /** Under distinct legs with present sources and free destinations, the
      per-entry sweep moves exactly the unlocked steps and nothing else. */
  lemma {:induction false} EachRelocates(files: Files, steps: seq<RenameStep>, leg: Leg, moved: seq<RenameStep>)
    requires Movable(files, steps, leg)
    ensures var r := Each(files, steps, leg, moved);
      r.moved == moved + Unlocked(files, steps, leg) && Relocated(files, r.files, Unlocked(files, steps, leg), leg)
    decreases |steps|
  {
    if steps == [] {
      assert moved + [] == moved;
    } else {
      MovableRest(files, steps, leg);
      if Free(files, steps[0], leg) {
        var mid := Renamed(files, Src(steps[0], leg), Dst(steps[0], leg));
        MovableAfterFirst(files, steps, leg);
        EachRelocates(mid, steps[1..], leg, moved + [steps[0]]);
        EachRelocatesFirst(files, steps, leg, moved);
      } else {
        EachRelocates(files, steps[1..], leg, moved);
        assert Each(files, steps, leg, moved) == Each(files, steps[1..], leg, moved);
        assert Unlocked(files, steps, leg) == Unlocked(files, steps[1..], leg);
      }
    }
  }

  /** The steps after the first are movable and avoid its names. */
  lemma MovableRest(files: Files, steps: seq<RenameStep>, leg: Leg)
    requires Movable(files, steps, leg) && steps != []
    ensures Movable(files, steps[1..], leg)
    ensures forall t :: t in steps[1..] ==>
      t in steps && Src(t, leg) != Src(steps[0], leg) && Dst(t, leg) != Dst(steps[0], leg)
  {
    var rest := steps[1..];
    forall t | t in rest ensures t in steps && Src(t, leg) != Src(steps[0], leg) && Dst(t, leg) != Dst(steps[0], leg) {
      var k :| 0 <= k < |rest| && rest[k] == t;
      assert steps[k + 1] == t;
    }
    forall i, j | 0 <= i < j < |rest|
      ensures Src(rest[i], leg) != Src(rest[j], leg) && Dst(rest[i], leg) != Dst(rest[j], leg)
    {
      assert rest[i] == steps[i + 1] && rest[j] == steps[j + 1];
    }
  }

  /** After the first rename the remaining steps are still movable, and the
      same ones are unlocked. */
  lemma MovableAfterFirst(files: Files, steps: seq<RenameStep>, leg: Leg)
    requires Movable(files, steps, leg) && steps != [] && Free(files, steps[0], leg)
    requires Movable(files, steps[1..], leg)
    requires forall t :: t in steps[1..] ==>
      t in steps && Src(t, leg) != Src(steps[0], leg) && Dst(t, leg) != Dst(steps[0], leg)
    ensures var mid := Renamed(files, Src(steps[0], leg), Dst(steps[0], leg));
      Movable(mid, steps[1..], leg) && Unlocked(mid, steps[1..], leg) == Unlocked(files, steps[1..], leg)
  {
    var src, dst := Src(steps[0], leg), Dst(steps[0], leg);
    var mid := Renamed(files, src, dst);
    RenamedMoves(files, src, dst);
    forall t | t in steps[1..] ensures Src(t, leg) in mid && Dst(t, leg) !in mid && mid[Src(t, leg)] == files[Src(t, leg)] {
    }
    UnlockedSame(files, mid, steps[1..], leg);
  }

  /** The induction step of EachRelocates when the first step moves. */
  lemma EachRelocatesFirst(files: Files, steps: seq<RenameStep>, leg: Leg, moved: seq<RenameStep>)
    requires steps != [] && Free(files, steps[0], leg) && Dst(steps[0], leg) !in files
    requires forall t :: t in steps[1..] ==>
      t in steps && Src(t, leg) != Src(steps[0], leg) && Src(t, leg) in files && Dst(t, leg) != Dst(steps[0], leg)
    requires var mid := Renamed(files, Src(steps[0], leg), Dst(steps[0], leg));
      var r := Each(mid, steps[1..], leg, moved + [steps[0]]);
      var u := Unlocked(files, steps[1..], leg);
      r.moved == (moved + [steps[0]]) + u && Relocated(mid, r.files, u, leg)
    ensures var r := Each(files, steps, leg, moved);
      r.moved == moved + Unlocked(files, steps, leg) && Relocated(files, r.files, Unlocked(files, steps, leg), leg)
  {
    var s := steps[0];
    var mid := Renamed(files, Src(s, leg), Dst(s, leg));
    var u := Unlocked(files, steps[1..], leg);
    var r := Each(mid, steps[1..], leg, moved + [s]);
    assert Each(files, steps, leg, moved) == r;
    assert Unlocked(files, steps, leg) == [s] + u;
    AppendAssoc(moved, [s], u);
    RelocatedCons(files, mid, r.files, s, u, leg);
  }

  /** When the per-entry sweep moves every step, the abort-on-error sweep takes
      the same renames and never stops early. */
  lemma {:induction false} ChainMatchesEach(files: Files, steps: seq<RenameStep>, leg: Leg, done: nat, moved: seq<RenameStep>)
    requires Each(files, steps, leg, moved).moved == moved + steps
    ensures Chain(files, steps, leg, done) == Run(Each(files, steps, leg, moved).files, done + |steps|)
    decreases |steps|
  {
    if steps != [] && CanRename(files, Src(steps[0], leg), Dst(steps[0], leg)) {
      assert moved + steps == (moved + [steps[0]]) + steps[1..];
      ChainMatchesEach(Renamed(files, Src(steps[0], leg), Dst(steps[0], leg)), steps[1..], leg, done + 1, moved + [steps[0]]);
    }
  }

  // ---------------------------------------------------------------------------
  // What a whole pass does.

  /** The conditions phase 1 relies on: distinct current and temporary names,
      no temporary name equal to a final name, every planned file present and
      no temporary name taken. */
  predicate PhaseOneFits(files: Files, plan: seq<RenameStep>) {
    DistinctLegs(plan, ToTemp) &&
    (forall i, j :: 0 <= i < |plan| && 0 <= j < |plan| ==> plan[i].temp != plan[j].final) &&
    (forall s :: s in plan ==> s.current in files && s.temp !in files)
  }

  /** The conditions under which a plan can be carried out on a directory:
      those of phase 1, distinct final names, and a final name taken only by a
      file that itself moves away. */
  predicate PlanFits(files: Files, plan: seq<RenameStep>) {
    PhaseOneFits(files, plan) && DistinctLegs(plan, ToFinal) &&
    (forall s :: s in plan && Free(files, s, ToTemp) && s.final in files ==>
      exists t :: t in plan && Free(files, t, ToTemp) && t.current == s.final)
  }

  /** Phase 1 followed by phase 2 moves each file from its current to its final name. */
  lemma RelocatedThen(f0: Files, f1: Files, f2: Files, steps: seq<RenameStep>)
    requires Relocated(f0, f1, steps, ToTemp) && Relocated(f1, f2, steps, ToFinal)
    requires forall s :: s in steps ==> s.temp !in f0
    ensures Relocated(f0, f2, steps, Whole)
  {
    LegSets(steps);
    var sources, temps, finals := Srcs(steps, ToTemp), Dsts(steps, ToTemp), Dsts(steps, ToFinal);
    assert f0.Keys !! temps;
    KeysThen(f0.Keys, f1.Keys, f2.Keys, sources, temps, finals);
    forall s | s in steps ensures Src(s, Whole) in f0 && Dst(s, Whole) in f2 && f2[Dst(s, Whole)] == f0[Src(s, Whole)] {
      assert Src(s, Whole) == Src(s, ToTemp) && Dst(s, Whole) == Dst(s, ToFinal) && Src(s, ToFinal) == Dst(s, ToTemp);
      assert f2[Dst(s, ToFinal)] == f1[Src(s, ToFinal)];
      assert f1[Dst(s, ToTemp)] == f0[Src(s, ToTemp)];
    }
    forall n | n in f0 && n !in Srcs(steps, Whole) ensures n in f2 && f2[n] == f0[n] {
      assert n !in temps;
    }
  }

  /** How the names of the three legs relate. */
  lemma LegSets(steps: seq<RenameStep>)
    ensures Srcs(steps, ToFinal) == Dsts(steps, ToTemp)
    ensures Srcs(steps, Whole) == Srcs(steps, ToTemp) && Dsts(steps, Whole) == Dsts(steps, ToFinal)
  {
  }

  /** Two rounds of renaming, through names the first directory does not use. */
  lemma KeysThen(a: set<string>, b: set<string>, c: set<string>, sources: set<string>, temps: set<string>, finals: set<string>)
    requires b == a - sources + temps && c == b - temps + finals && a !! temps
    ensures c == a - sources + finals
  {
  }

  lemma PlanFitsPhaseTwo(files: Files, plan: seq<RenameStep>, mid: Files)
    requires PlanFits(files, plan)
    requires Relocated(files, mid, Unlocked(files, plan, ToTemp), ToTemp)
    ensures Movable(mid, Unlocked(files, plan, ToTemp), ToFinal)
    ensures Unlocked(mid, Unlocked(files, plan, ToTemp), ToFinal) == Unlocked(files, plan, ToTemp)
  {
    var u := Unlocked(files, plan, ToTemp);
    UnlockedDistinct(files, plan, ToTemp, ToFinal);
    forall s | s in u ensures Src(s, ToFinal) in mid && Dst(s, ToFinal) !in mid {
      assert mid[Dst(s, ToTemp)] == files[Src(s, ToTemp)];
    }
    forall s | s in u ensures Free(mid, s, ToFinal) {
      assert mid[Dst(s, ToTemp)] == files[Src(s, ToTemp)];
    }
    UnlockedAll(mid, u, ToFinal);
  }

  /** Corrected variant: every entry whose file can be moved ends at its final
      name, every other file keeps its name and contents, the temporary names of
      the entries that could not move stay in `temp_files`, and the number of
      successful renames is the number of entries that moved. */
  lemma {:induction false} PerEntryOutcome(files: Files, temps: set<string>, plan: seq<RenameStep>)
    requires PlanFits(files, plan)
    ensures var r := PerEntryPass(files, temps, plan);
      var moving := Unlocked(files, plan, ToTemp);
      Relocated(files, r.files, moving, Whole) &&
      r.temps == temps + Temps(plan) - Temps(moving) &&
      r.renamed == |moving|
  {
    var u := Unlocked(files, plan, ToTemp);
    EachRelocates(files, plan, ToTemp, []);
    var p1 := Each(files, plan, ToTemp, []);
    assert p1.moved == u;
    PlanFitsPhaseTwo(files, plan, p1.files);
    EachRelocates(p1.files, u, ToFinal, []);
    var p2 := Each(p1.files, u, ToFinal, []);
    assert p2.moved == u;
    RelocatedThen(files, p1.files, p2.files, u);
  }

  /** Original and PNG-only variants: when no planned file is locked the pass
      completes, every planned file ends at its final name, every other file is
      untouched, and `temp_files` is back to what it was (less any planned
      temporary name it held before). */
  lemma {:induction false} AbortOutcome(files: Files, temps: set<string>, plan: seq<RenameStep>)
    requires PlanFits(files, plan)
    requires forall s :: s in plan ==> !files[s.current].locked
    ensures var r := AbortPass(files, temps, plan);
      r.ok && Relocated(files, r.files, plan, Whole) && r.temps == temps - Temps(plan) && r.renamed == |plan|
  {
    UnlockedAll(files, plan, ToTemp);
    EachRelocates(files, plan, ToTemp, []);
    var p1 := Each(files, plan, ToTemp, []);
    ChainMatchesEach(files, plan, ToTemp, 0, []);
    PlanFitsPhaseTwo(files, plan, p1.files);
    EachRelocates(p1.files, plan, ToFinal, []);
    var p2 := Each(p1.files, plan, ToFinal, []);
    ChainMatchesEach(p1.files, plan, ToFinal, 0, []);
    RelocatedThen(files, p1.files, p2.files, plan);
    assert plan[..|plan|] == plan;
  }

  /** With no lock anywhere both variants leave the same directory and the same
      `temp_files`. */
  lemma VariantsAgreeWithoutLocks(files: Files, temps: set<string>, plan: seq<RenameStep>)
    requires PlanFits(files, plan)
    requires forall s :: s in plan ==> !files[s.current].locked
    ensures AbortPass(files, temps, plan).files == PerEntryPass(files, temps, plan).files
    ensures AbortPass(files, temps, plan).temps == PerEntryPass(files, temps, plan).temps
  {
    UnlockedAll(files, plan, ToTemp);
    PerEntryOutcome(files, temps, plan);
    AbortOutcome(files, temps, plan);
    RelocatedUnique(files, AbortPass(files, temps, plan).files, PerEntryPass(files, temps, plan).files, plan, Whole);
  }

  lemma RelocatedUnique(before: Files, a: Files, b: Files, steps: seq<RenameStep>, leg: Leg)
    requires Relocated(before, a, steps, leg) && Relocated(before, b, steps, leg)
    ensures a == b
  {
    forall n | n in a ensures a[n] == b[n] {
      if n in Dsts(steps, leg) {
        var s :| s in steps && Dst(s, leg) == n;
      }
    }
  }

  // ---------------------------------------------------------------------------
  // Passes that fail part-way.

  /** The names a sweep leaves occupied: untouched originals and destinations
      of the renames it made. */
  lemma {:induction false} ChainKeys(files: Files, steps: seq<RenameStep>, leg: Leg, done: nat) returns (k: nat)
    ensures k <= |steps| && Chain(files, steps, leg, done).done == done + k
    ensures Chain(files, steps, leg, done).files.Keys <= files.Keys - Srcs(steps[..k], leg) + Dsts(steps[..k], leg)
    decreases |steps|
  {
    if steps != [] && CanRename(files, Src(steps[0], leg), Dst(steps[0], leg)) {
      var mid := Renamed(files, Src(steps[0], leg), Dst(steps[0], leg));
      assert Chain(files, steps, leg, done) == Chain(mid, steps[1..], leg, done + 1);
      var j := ChainKeys(mid, steps[1..], leg, done + 1);
      SliceCons(steps, j);
      KeysAfterFirst(files, mid, Chain(mid, steps[1..], leg, done + 1).files, steps[0], steps[1..][..j], leg);
      k := j + 1;
    } else {
      assert steps[..0] == [];
      k := 0;
    }
  }

  /** The induction step of ChainKeys and EachKeys: one rename in front of a
      sweep whose occupied names are bounded. */
  lemma KeysAfterFirst(files: Files, mid: Files, after: Files, s: RenameStep, made: seq<RenameStep>, leg: Leg)
    requires Src(s, leg) in files && Dst(s, leg) !in files
    requires mid == Renamed(files, Src(s, leg), Dst(s, leg))
    requires after.Keys <= mid.Keys - Srcs(made, leg) + Dsts(made, leg)
    ensures after.Keys <= files.Keys - Srcs([s] + made, leg) + Dsts([s] + made, leg)
  {
    RenamedKeys(files, Src(s, leg), Dst(s, leg));
    LegsCons(s, made, leg);
    KeysShift(files.Keys, mid.Keys, after.Keys, Src(s, leg), Dst(s, leg), Srcs(made, leg), Dsts(made, leg));
  }

  lemma SliceCons(steps: seq<RenameStep>, k: nat)
    requires k < |steps|
    ensures steps[..k + 1] == [steps[0]] + steps[1..][..k]
  {
  }

  lemma KeysShift(k: set<string>, m: set<string>, r: set<string>, a: string, b: string, src: set<string>, dst: set<string>)
    requires m == k - {a} + {b} && r <= m - src + dst
    ensures r <= k - ({a} + src) + ({b} + dst)
  {
  }

  lemma {:induction false} EachKeys(files: Files, steps: seq<RenameStep>, leg: Leg, moved: seq<RenameStep>)
    ensures var r := Each(files, steps, leg, moved);
      r.moved[..|moved|] == moved &&
      (forall s :: s in r.moved[|moved|..] ==> s in steps) &&
      r.files.Keys <= files.Keys - Srcs(r.moved[|moved|..], leg) + Dsts(r.moved[|moved|..], leg)
    decreases |steps|
  {
    var r := Each(files, steps, leg, moved);
    if steps == [] {
      assert r.moved[|moved|..] == [];
    } else if CanRename(files, Src(steps[0], leg), Dst(steps[0], leg)) {
      var mid := Renamed(files, Src(steps[0], leg), Dst(steps[0], leg));
      assert r == Each(mid, steps[1..], leg, moved + [steps[0]]);
      EachKeys(mid, steps[1..], leg, moved + [steps[0]]);
      var made := r.moved[|moved| + 1..];
      assert r.files.Keys <= mid.Keys - Srcs(made, leg) + Dsts(made, leg);
      KeysAfterFirst(files, mid, r.files, steps[0], made, leg);
      MovedSplit(r.moved, moved, steps[0]);
      assert forall t :: t in steps[1..] ==> t in steps;
    } else {
      assert r == Each(files, steps[1..], leg, moved);
      EachKeys(files, steps[1..], leg, moved);
      assert forall t :: t in steps[1..] ==> t in steps;
    }
  }

  /** A sequence that starts with moved + [s] splits after moved. */
  lemma MovedSplit(all: seq<RenameStep>, moved: seq<RenameStep>, s: RenameStep)
    requires |moved| + 1 <= |all| && all[..|moved| + 1] == moved + [s]
    ensures all[..|moved|] == moved
    ensures all[|moved|..] == [s] + all[|moved| + 1..]
  {
    assert all[..|moved|] == all[..|moved| + 1][..|moved|];
  }

  /** The temporary names of some steps are the destinations of their first
      leg and the sources of their second. */
  lemma {:induction false} TempsAreSources(steps: seq<RenameStep>)
    ensures Temps(steps) == Dsts(steps, ToTemp) == Srcs(steps, ToFinal)
    decreases |steps|
  {
    if steps != [] {
      var init, last := steps[..|steps| - 1], steps[|steps| - 1];
      TempsAreSources(init);
      assert steps == init + [last];
      assert forall t :: t in steps <==> t in init || t == last;
      assert Dsts(steps, ToTemp) == Dsts(init, ToTemp) + {Dst(last, ToTemp)};
      assert Srcs(steps, ToFinal) == Srcs(init, ToFinal) + {Src(last, ToFinal)};
    }
  }

  /** Corrected variant: any planned temporary name that still holds a file when
      the pass ends is still listed in `temp_files`. */
  lemma PerEntryKeepsTempsRegistered(files: Files, temps: set<string>, plan: seq<RenameStep>)
    requires forall i, j :: 0 <= i < |plan| && 0 <= j < |plan| ==> plan[i].temp != plan[j].final
    ensures var r := PerEntryPass(files, temps, plan);
      forall s :: s in plan && s.temp in r.files ==> s.temp in r.temps
  {
    var p1 := Each(files, plan, ToTemp, []);
    EachKeys(files, plan, ToTemp, []);
    assert p1.moved[0..] == p1.moved;
    var p2 := Each(p1.files, p1.moved, ToFinal, []);
    EachKeys(p1.files, p1.moved, ToFinal, []);
    assert p2.moved[0..] == p2.moved;
    TempsAreSources(p2.moved);
    forall s | s in plan && s.temp in p2.files ensures s.temp in Temps(plan) - Temps(p2.moved) {
      TempOfStep(plan, s);
    }
  }

  lemma TempOfStep(steps: seq<RenameStep>, s: RenameStep)
    requires s in steps
    ensures s.temp in Temps(steps)
  {
    TempsAreSources(steps);
    assert Dst(s, ToTemp) == s.temp;
  }

  /** Original and PNG-only variants: whether the pass completes or stops at a
      failing rename, every temporary name it filled is still listed in
      `temp_files`. */
  lemma AbortKeepsTempsRegistered(files: Files, temps: set<string>, plan: seq<RenameStep>)
    requires forall i, j :: 0 <= i < |plan| && 0 <= j < |plan| ==> plan[i].temp != plan[j].final
    ensures var r := AbortPass(files, temps, plan);
      forall s :: s in plan && s.temp in r.files && s.temp !in files ==> s.temp in r.temps
  {
    var p1 := Chain(files, plan, ToTemp, 0);
    if p1.done < |plan| {
      StoppedInPhaseOne(files, temps, plan);
    } else {
      StoppedInPhaseTwo(files, temps, plan);
    }
  }

  lemma StoppedInPhaseOne(files: Files, temps: set<string>, plan: seq<RenameStep>)
    requires Chain(files, plan, ToTemp, 0).done < |plan|
    ensures var r := AbortPass(files, temps, plan);
      forall s :: s in plan && s.temp in r.files && s.temp !in files ==> s.temp in r.temps
  {
    var p1 := Chain(files, plan, ToTemp, 0);
    var k := ChainKeys(files, plan, ToTemp, 0);
    var made := plan[..k];
    AbortInPhaseOne(files, temps, plan, p1.files, k);
    TempsSnoc(plan, k);
    TempsAreSources(made);
    var r := AbortPass(files, temps, plan);
    assert r.files == p1.files && r.temps == temps + (Temps(made) + {plan[k].temp});
    NewNamesAreDestinations(files.Keys, p1.files.Keys, Srcs(made, ToTemp), Dsts(made, ToTemp));
    forall s | s in plan && s.temp in r.files && s.temp !in files ensures s.temp in r.temps {
      assert s.temp in p1.files.Keys && s.temp !in files.Keys;
    }
  }

  lemma NewNamesAreDestinations(before: set<string>, after: set<string>, src: set<string>, dst: set<string>)
    requires after <= before - src + dst
    ensures forall x :: x in after && x !in before ==> x in dst
  {
  }

  lemma StoppedInPhaseTwo(files: Files, temps: set<string>, plan: seq<RenameStep>)
    requires forall i, j :: 0 <= i < |plan| && 0 <= j < |plan| ==> plan[i].temp != plan[j].final
    requires Chain(files, plan, ToTemp, 0).done == |plan|
    ensures var r := AbortPass(files, temps, plan);
      forall s :: s in plan && s.temp in r.files ==> s.temp in r.temps
  {
    var r := AbortPass(files, temps, plan);
    var p1 := Chain(files, plan, ToTemp, 0);
    var p2 := Chain(p1.files, plan, ToFinal, 0);
    var k2 := ChainKeys(p1.files, plan, ToFinal, 0);
    var prefix := plan[..p2.done];
    assert r.files == p2.files && r.temps == temps + Temps(plan) - Temps(prefix);
    assert forall t :: t in prefix ==> t in plan;
    forall s | s in plan && s.temp in r.files ensures s.temp in r.temps {
      TempNotLeftBehind(p1.files, r.files, prefix, plan, s);
      TempOfStep(plan, s);
    }
  }

  /** A phase-2 sweep that has moved the steps `made` leaves none of their
      temporary names occupied, as long as no final name is a temporary one. */
  lemma TempNotLeftBehind(before: Files, after: Files, made: seq<RenameStep>, plan: seq<RenameStep>, s: RenameStep)
    requires after.Keys <= before.Keys - Srcs(made, ToFinal) + Dsts(made, ToFinal)
    requires forall t :: t in made ==> t in plan
    requires forall i, j :: 0 <= i < |plan| && 0 <= j < |plan| ==> plan[i].temp != plan[j].final
    requires s in plan && s.temp in after
    ensures s.temp !in Temps(made)
  {
    TempsAreSources(made);
    forall t | t in made ensures Dst(t, ToFinal) != s.temp {
      var i :| 0 <= i < |plan| && plan[i] == t;
      var j :| 0 <= j < |plan| && plan[j] == s;
      assert plan[j].temp != plan[i].final;
    }
  }

  lemma {:induction false} ChainSplit(files: Files, steps: seq<RenameStep>, leg: Leg, done: nat, k: nat)
    requires k <= |steps| && Chain(files, steps[..k], leg, done).done == done + k
    ensures Chain(files, steps, leg, done) ==
            Chain(Chain(files, steps[..k], leg, done).files, steps[k..], leg, done + k)
    decreases k
  {
    if k == 0 {
      assert steps[..0] == [] && steps[0..] == steps;
    } else {
      assert steps[..k][0] == steps[0];
      var mid := Renamed(files, Src(steps[0], leg), Dst(steps[0], leg));
      assert steps[..k][1..] == steps[1..][..k - 1];
      ChainSplit(mid, steps[1..], leg, done + 1, k - 1);
      assert steps[1..][k - 1..] == steps[k..];
    }
  }

  /** Phase 1 over a prefix of unlocked planned files takes every rename. */
  lemma PrefixToTemps(files: Files, plan: seq<RenameStep>, k: nat) returns (f: Files)
    requires PhaseOneFits(files, plan)
    requires k <= |plan| && forall j :: 0 <= j < k ==> !files[plan[j].current].locked
    ensures Chain(files, plan[..k], ToTemp, 0) == Run(f, k)
    ensures Relocated(files, f, plan[..k], ToTemp)
  {
    var prefix := plan[..k];
    assert forall t :: t in prefix ==> t in plan;
    assert Movable(files, prefix, ToTemp);
    forall t | t in prefix ensures Free(files, t, ToTemp) {
      var j :| 0 <= j < k && prefix[j] == t;
    }
    UnlockedAll(files, prefix, ToTemp);
    EachRelocates(files, prefix, ToTemp, []);
    f := Each(files, prefix, ToTemp, []).files;
    ChainMatchesEach(files, prefix, ToTemp, 0, []);
  }

  /** The files from position k on are not sources of the first k steps. */
  lemma LaterCurrentsUntouched(files: Files, plan: seq<RenameStep>, k: nat)
    requires PhaseOneFits(files, plan) && k <= |plan|
    ensures forall j :: k <= j < |plan| ==> plan[j].current !in Srcs(plan[..k], ToTemp)
  {
    var prefix := plan[..k];
    forall j | k <= j < |plan| ensures plan[j].current !in Srcs(prefix, ToTemp) {
    }
  }

  /** Original and PNG-only variants: a locked planned file makes its phase-1
      rename raise, and the pass stops there. The files before it are left under
      their temporary names (still in `temp_files`), it and every file after it
      keep their current names, and no file reaches a final name. */
  lemma AbortHaltsAtFirstLock(files: Files, temps: set<string>, plan: seq<RenameStep>, k: nat)
    requires PhaseOneFits(files, plan)
    requires k < |plan| && files[plan[k].current].locked
    requires forall j :: 0 <= j < k ==> !files[plan[j].current].locked
    ensures var r := AbortPass(files, temps, plan);
      !r.ok && r.renamed == 0 &&
      Relocated(files, r.files, plan[..k], ToTemp) &&
      r.temps == temps + Temps(plan[..k + 1]) &&
      forall j :: k <= j < |plan| ==> plan[j].current in r.files && r.files[plan[j].current] == files[plan[j].current]
  {
    var f := PrefixToTemps(files, plan, k);
    ChainSplit(files, plan, ToTemp, 0, k);
    LaterCurrentsUntouched(files, plan, k);
    assert plan[k] in plan;
    assert plan[k].current in f && f[plan[k].current] == files[plan[k].current];
    assert plan[k..][0] == plan[k];
    assert !CanRename(f, plan[k].current, plan[k].temp);
    assert Chain(files, plan, ToTemp, 0) == Run(f, k);
    assert AbortPass(files, temps, plan) == Outcome(f, temps + Temps(plan[..k + 1]), false, 0);
  }

  /** Corrected variant: a locked planned file is skipped on its own. It keeps
      its name and contents, and its temporary name stays in `temp_files`
      although no file holds it. Whether the other entries reach their final
      names does not matter: a final name is never a temporary one, and a
      phase-2 rename onto the locked file's name fails. */
  lemma LockedEntryStays(files: Files, temps: set<string>, plan: seq<RenameStep>, s: RenameStep)
    requires PhaseOneFits(files, plan)
    requires s in plan && files[s.current].locked
    ensures var r := PerEntryPass(files, temps, plan);
      s.current in r.files && r.files[s.current] == files[s.current] &&
      s.temp in r.temps && s.temp !in r.files
  {
    var u := Unlocked(files, plan, ToTemp);
    var p1 := PhaseOneSweep(files, plan);
    OthersAvoidLocked(files, plan, s);
    assert s.current !in Srcs(u, ToTemp);
    assert p1.files[s.current] == files[s.current] && s.temp !in p1.files;
    var p2 := Each(p1.files, u, ToFinal, []);
    LockedEntryPhaseTwo(files, plan, s, p1.files);
    TempOfStep(plan, s);
  }

  /** Phase 2 of the corrected pass neither moves the locked entry's file nor
      fills its temporary name, and never discards that name. */
  lemma LockedEntryPhaseTwo(files: Files, plan: seq<RenameStep>, s: RenameStep, mid: Files)
    requires PhaseOneFits(files, plan)
    requires s in plan && files[s.current].locked
    requires s.current in mid && mid[s.current] == files[s.current] && s.temp !in mid
    ensures var p2 := Each(mid, Unlocked(files, plan, ToTemp), ToFinal, []);
      s.current in p2.files && p2.files[s.current] == files[s.current] &&
      s.temp !in p2.files && s.temp !in Temps(p2.moved)
  {
    var u := Unlocked(files, plan, ToTemp);
    OthersAvoidLocked(files, plan, s);
    EachKeys(mid, u, ToFinal, []);
    var p2 := Each(mid, u, ToFinal, []);
    assert p2.moved[0..] == p2.moved;
    var j :| 0 <= j < |plan| && plan[j] == s;
    forall t | t in u ensures Src(t, ToFinal) != s.current && Dst(t, ToFinal) != s.temp {
      var i :| 0 <= i < |plan| && plan[i] == t;
      assert plan[j].temp != plan[i].final;
    }
    EachHolds(mid, u, ToFinal, [], s.current, s.current);
    TempsAreSources(p2.moved);
    assert s.temp !in Dsts(p2.moved, ToFinal);
    assert s.temp !in Dsts(p2.moved, ToTemp);
  }

  /** Phase 1 of the corrected pass moves exactly the unlocked entries to
      their temporary names. */
  lemma PhaseOneSweep(files: Files, plan: seq<RenameStep>) returns (p1: Sweep)
    requires PhaseOneFits(files, plan)
    ensures p1 == Each(files, plan, ToTemp, [])
    ensures p1.moved == Unlocked(files, plan, ToTemp) && Relocated(files, p1.files, p1.moved, ToTemp)
  {
    assert Movable(files, plan, ToTemp);
    EachRelocates(files, plan, ToTemp, []);
    p1 := Each(files, plan, ToTemp, []);
    assert [] + Unlocked(files, plan, ToTemp) == Unlocked(files, plan, ToTemp);
  }

  /** Corrected variant: an unlocked planned file whose final name is held by
      a locked file moves to its temporary name in phase 1, its phase-2 rename
      fails, and it stays under the temporary name, which stays in
      `temp_files`; the locked file keeps its name and contents. */
  lemma BlockedEntryStaysTemp(files: Files, temps: set<string>, plan: seq<RenameStep>, t: RenameStep)
    requires PhaseOneFits(files, plan)
    requires t in plan && !files[t.current].locked
    requires t.final in files && files[t.final].locked
    ensures var r := PerEntryPass(files, temps, plan);
      t.temp in r.files && r.files[t.temp] == files[t.current] && t.temp in r.temps &&
      t.final in r.files && r.files[t.final] == files[t.final]
  {
    var u := Unlocked(files, plan, ToTemp);
    var p1 := PhaseOneSweep(files, plan);
    assert t in u;
    assert p1.files[t.temp] == files[t.current];
    EachHolds(files, plan, ToTemp, [], t.final, t.final);
    BlockedEntryPhaseTwo(plan, u, t, p1.files);
    PerEntryKeepsTempsRegistered(files, temps, plan);
  }

  /** An older misnamed `a.png` and a newer locked `H_01.png` with prefix `H`:
      the locked file holds the first entry's final name. The plan meets the
      phase-1 conditions, so the two lemmas above apply, but not those of a
      complete pass. */
  lemma LockOnFinalFitsPhaseOne()
    ensures var a, h := "a.png", "H_01.png";
      var files := map[a := FileRecord(1, 1, false), h := FileRecord(2, 1, true)];
      var plan := [RenameStep(a, "TEMP_01_H.png", h), RenameStep(h, "TEMP_02_H.png", "H_02.png")];
      PhaseOneFits(files, plan) && !PlanFits(files, plan)
  {
    var a, h := "a.png", "H_01.png";
    var files := map[a := FileRecord(1, 1, false), h := FileRecord(2, 1, true)];
    var plan := [RenameStep(a, "TEMP_01_H.png", h), RenameStep(h, "TEMP_02_H.png", "H_02.png")];
    assert "TEMP_01_H.png"[0] != a[0] && "TEMP_01_H.png"[0] != "H_02.png"[0];
    assert "TEMP_02_H.png"[0] != a[0] && "TEMP_02_H.png"[0] != h[0];
    assert "TEMP_01_H.png"[6] != "TEMP_02_H.png"[6];
    assert Free(files, plan[0], ToTemp) && plan[0].final in files;
    assert forall t :: t in plan ==> t == plan[0] || t == plan[1];
  }

  /** Phase 2 of the corrected pass cannot move an entry off its temporary
      name while its final name stays taken by a locked file. */
  lemma BlockedEntryPhaseTwo(plan: seq<RenameStep>, u: seq<RenameStep>, t: RenameStep, mid: Files)
    requires DistinctLegs(plan, ToTemp)
    requires forall i, j :: 0 <= i < |plan| && 0 <= j < |plan| ==> plan[i].temp != plan[j].final
    requires t in plan && forall x :: x in u ==> x in plan
    requires t.temp in mid && t.final in mid && mid[t.final].locked
    ensures var p2 := Each(mid, u, ToFinal, []);
      t.temp in p2.files && p2.files[t.temp] == mid[t.temp] &&
      t.final in p2.files && p2.files[t.final] == mid[t.final]
  {
    var j :| 0 <= j < |plan| && plan[j] == t;
    forall x | x in u ensures (Src(x, ToFinal) == t.temp ==> Dst(x, ToFinal) == t.final) && Src(x, ToFinal) != t.final {
      var i :| 0 <= i < |plan| && plan[i] == x;
      assert plan[i].temp != plan[j].final;
    }
    EachHolds(mid, u, ToFinal, [], t.temp, t.final);
  }

  /** A per-entry sweep leaves the names n and b with their records when no
      step can move either of them: a step from n goes to b, which is taken, and
      a step from b finds it locked. */
  lemma {:induction false} EachHolds(files: Files, steps: seq<RenameStep>, leg: Leg, moved: seq<RenameStep>, n: string, b: string)
    requires n in files && b in files
    requires forall x :: x in steps && Src(x, leg) == n ==> files[n].locked || Dst(x, leg) == b
    requires forall x :: x in steps && Src(x, leg) == b ==> files[b].locked
    ensures var r := Each(files, steps, leg, moved);
      n in r.files && r.files[n] == files[n] && b in r.files && r.files[b] == files[b]
    decreases |steps|
  {
    if steps != [] {
      assert forall x :: x in steps[1..] ==> x in steps;
      var x := steps[0];
      if CanRename(files, Src(x, leg), Dst(x, leg)) {
        var mid := Renamed(files, Src(x, leg), Dst(x, leg));
        RenamedMoves(files, Src(x, leg), Dst(x, leg));
        EachHolds(mid, steps[1..], leg, moved + [x], n, b);
      } else {
        EachHolds(files, steps[1..], leg, moved, n, b);
      }
    }
  }

  /** The entries that move share no name with a locked entry's current and
      temporary names. */
  lemma OthersAvoidLocked(files: Files, plan: seq<RenameStep>, s: RenameStep)
    requires PhaseOneFits(files, plan)
    requires s in plan && files[s.current].locked
    ensures var u := Unlocked(files, plan, ToTemp);
      s.current !in Srcs(u, Whole) && s.temp !in Dsts(u, Whole) && s.temp !in Dsts(u, ToTemp)
  {
    var j :| 0 <= j < |plan| && plan[j] == s;
    var u := Unlocked(files, plan, ToTemp);
    forall t | t in u ensures Src(t, Whole) != s.current && Dst(t, Whole) != s.temp && Dst(t, ToTemp) != s.temp {
      var i :| 0 <= i < |plan| && plan[i] == t;
      assert i != j;
      assert plan[i].temp != plan[j].final;
      assert plan[j].temp != plan[i].final;
    }
  }
}
