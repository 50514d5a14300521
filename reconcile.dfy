// One reorganisation pass of `reorganize_all_files` as a whole, over the
// directory: enumerate the images, order them by creation time, plan, and
// apply the plan. The original and PNG-only variants take the glob result and
// stop at the first failing rename; the corrected variant takes the
// resolver's result and skips failing entries.
module Reconcile {
  import opened Optional
  import opened Text
  import opened Naming
  import opened Ordering
  import opened Planner
  import opened FileSystem
  import opened Apply
  import opened Resolver

  /** The listed names with the creation times `os.path.getctime` reports. */
  function Attach(files: Files, names: seq<string>): (r: seq<File>)
    requires forall i :: 0 <= i < |names| ==> names[i] in files
    ensures |r| == |names|
    ensures forall i :: 0 <= i < |names| ==> r[i] == File(names[i], files[names[i]].ctime)
  {
    seq(|names|, i requires 0 <= i < |names| => File(names[i], files[names[i]].ctime))
  }

  predicate AllPresent(files: Files, names: seq<string>) {
    forall i :: 0 <= i < |names| ==> names[i] in files
  }

  /** The names in creation-time order, as `sort(key=getctime)` leaves them. */
  function Ordered(files: Files, names: seq<string>): (r: seq<string>)
    requires AllPresent(files, names)
    ensures |r| == |names|
  {
    Names(SortByCtime(Attach(files, names)))
  }

  /** The plan of a pass over the listed names; absent when `getctime` raises
      because a listed name is no longer in the directory. */
  function PassPlan(files: Files, names: seq<string>, prefix: string, policy: ExtPolicy): Option<seq<RenameStep>> {
    if AllPresent(files, names) then Some(Plan(Ordered(files, names), prefix, policy)) else None
  }

  /** What an exception caught by `reorganize_all_files` leaves: everything as it was. */
  function Unchanged(files: Files, temps: set<string>, ok: bool): Outcome {
    Outcome(files, temps, ok, 0)
  }

  /** Original and PNG-only variants over the glob result `listed`. */
  function AbortReorganize(files: Files, temps: set<string>, listed: seq<string>, prefix: string, policy: ExtPolicy): Outcome {
    if listed == [] then Unchanged(files, temps, true)
    else match PassPlan(files, listed, prefix, policy)
      case None => Unchanged(files, temps, false)
      case Some(plan) => if plan == [] then Unchanged(files, temps, true) else AbortPass(files, temps, plan)
  }

  /** The corrected variant's enumeration: `get_real_image_files`. */
  function RealNames(listing: Option<seq<Entry>>): seq<string> {
    if listing.None? then [] else RealImages(listing.value)
  }

  /** Corrected variant over the directory listing. */
  function PerEntryReorganize(files: Files, temps: set<string>, listing: Option<seq<Entry>>, prefix: string): Outcome {
    PerEntryReorganizeOver(files, temps, RealNames(listing), prefix)
  }

  /** Corrected variant over the names the resolver returned. */
  function PerEntryReorganizeOver(files: Files, temps: set<string>, found: seq<string>, prefix: string): Outcome {
    if found == [] then Unchanged(files, temps, true)
    else match PassPlan(files, found, prefix, KeepLowered)
      case None => Unchanged(files, temps, false)
      case Some(plan) => if plan == [] then Unchanged(files, temps, true) else PerEntryPass(files, temps, plan)
  }

  /** The canonical-name test of the variant that plans with policy. */
  predicate Canonical(policy: ExtPolicy, prefix: string, name: string) {
    if policy == KeepLowered then IsCanonicalImage(prefix, name) else IsCanonicalPng(prefix, name)
  }

  // ---------------------------------------------------------------------------
  // The ordered listing is a permutation of the listing.

  predicate Distinct<T(==)>(s: seq<T>) {
    forall i, j :: 0 <= i < j < |s| ==> s[i] != s[j]
  }

  lemma {:induction false} DistinctCount<T>(s: seq<T>, x: T)
    requires Distinct(s)
    ensures multiset(s)[x] <= 1
    decreases |s|
  {
    if s != [] {
      assert s == [s[0]] + s[1..];
      assert Distinct(s[1..]) by {
        assert forall i :: 0 <= i < |s[1..]| ==> s[1..][i] == s[i + 1];
      }
      DistinctCount(s[1..], x);
      if s[0] == x {
        assert x !in s[1..] by {
          assert forall i :: 0 <= i < |s[1..]| ==> s[1..][i] == s[i + 1];
        }
      }
    }
  }

  lemma TwiceCount<T>(s: seq<T>, a: nat, b: nat)
    requires a < b < |s| && s[a] == s[b]
    ensures multiset(s)[s[a]] >= 2
  {
    assert s == s[..b] + s[b..];
    assert s[a] in s[..b] && s[b] in s[b..];
  }

  /** Each position of the ordered listing holds a listed name with its own
      creation time. */
  lemma SortedEntry(files: Files, names: seq<string>, i: nat)
    requires AllPresent(files, names) && i < |names|
    ensures var f := SortByCtime(Attach(files, names))[i];
      f.name in names && f.name in files && f == File(f.name, files[f.name].ctime)
  {
    var fs := Attach(files, names);
    var sorted := SortByCtime(fs);
    assert sorted[i] in multiset(fs);
    var j :| 0 <= j < |fs| && fs[j] == sorted[i];
  }

  /** Every listed name shows up in the ordered listing. */
  lemma ListingInSorted(files: Files, names: seq<string>)
    requires AllPresent(files, names)
    ensures forall j :: 0 <= j < |names| ==> names[j] in Ordered(files, names)
  {
    var fs := Attach(files, names);
    var sorted := SortByCtime(fs);
    var o := Ordered(files, names);
    forall j | 0 <= j < |names| ensures names[j] in o {
      assert fs[j] in multiset(sorted);
      var i :| 0 <= i < |sorted| && sorted[i] == fs[j];
      assert o[i] == names[j];
    }
  }

  /** Distinct listed names stay distinct once ordered. */
  lemma OrderedDistinct(files: Files, names: seq<string>)
    requires AllPresent(files, names) && Distinct(names)
    ensures Distinct(Ordered(files, names))
  {
    var fs := Attach(files, names);
    var sorted := SortByCtime(fs);
    var o := Ordered(files, names);
    assert Distinct(fs) by {
      forall a, b | 0 <= a < b < |fs| ensures fs[a] != fs[b] {
        assert fs[a].name == names[a];
      }
    }
    forall a, b | 0 <= a < b < |o| ensures o[a] != o[b] {
      if o[a] == o[b] {
        assert o[a] == sorted[a].name && o[b] == sorted[b].name;
        SortedEntry(files, names, a);
        SortedEntry(files, names, b);
        TwiceCount(sorted, a, b);
        DistinctCount(fs, sorted[a]);
      }
    }
  }

  // ---------------------------------------------------------------------------
  // When a pass can run without a failing rename.

  /** The canonical test of the variant that plans with policy, made without
      case: the names a case-insensitive volume would take for a canonical
      name of the variant. */
  predicate CaseCanonical(policy: ExtPolicy, prefix: string, name: string) {
    FullMatch(Lower(prefix), Lower(name), if policy == KeepLowered then ImageExtensions else {".png"})
  }

  /** A listing over which a pass cannot meet a failing rename: distinct
      names, all present and none locked, all with image extensions (fewer than
      1,000,000 of them), no file anywhere in the directory whose name starts
      with `temp_` in any case, and every file listed whose name is canonical
      for the variant, with or without case. */
  predicate ListingFits(files: Files, names: seq<string>, prefix: string, policy: ExtPolicy) {
    AllPresent(files, names) && Distinct(names) &&
    (forall i :: 0 <= i < |names| ==> !files[names[i]].locked) &&
    KnownExtensions(names, policy) && |names| < 1000000 &&
    (forall n :: n in files ==> !StartsWith(Lower(n), "temp_")) &&
    (forall n :: n in files && (Canonical(policy, prefix, n) || CaseCanonical(policy, prefix, n)) ==> n in names)
  }

  lemma OrderedListingFits(files: Files, names: seq<string>, prefix: string, policy: ExtPolicy)
    requires ListingFits(files, names, prefix, policy)
    ensures var o := Ordered(files, names);
      Distinct(o) && KnownExtensions(o, policy) &&
      (forall i :: 0 <= i < |o| ==> o[i] in files && !files[o[i]].locked) &&
      (forall n :: n in files && (Canonical(policy, prefix, n) || CaseCanonical(policy, prefix, n)) ==> n in o) &&
      (forall n :: n in files ==> !IsTempName(n))
  {
    ListingInSorted(files, names);
    OrderedDistinct(files, names);
    var o := Ordered(files, names);
    forall i | 0 <= i < |o| ensures o[i] in names {
      assert o[i] == SortByCtime(Attach(files, names))[i].name;
      SortedEntry(files, names, i);
    }
    forall n | n in files && (Canonical(policy, prefix, n) || CaseCanonical(policy, prefix, n)) ensures n in o {
      var j :| 0 <= j < |names| && names[j] == n;
    }
    forall n | n in files ensures !IsTempName(n) {
      if IsTempName(n) {
        TempMarkLowered(n);
      }
    }
  }

  /** The steps of a plan are the steps of some misplaced positions. */
  lemma StepOfPlan(names: seq<string>, prefix: string, policy: ExtPolicy, s: RenameStep) returns (p: nat)
    requires s in Plan(names, prefix, policy)
    ensures p < |names| && s == StepAt(names, prefix, policy, p)
    ensures names[p] != Target(prefix, policy, p, names[p])
  {
    var plan := Plan(names, prefix, policy);
    var idx := PlanPositions(names, prefix, policy);
    var m :| 0 <= m < |plan| && plan[m] == s;
    p := idx[m];
  }

  /** A name that is some other position's final name is not at its own target. */
  lemma OccupantMisplaced(o: seq<string>, prefix: string, policy: ExtPolicy, p: nat, j: nat)
    requires p < |o| && j < |o| && o[p] != Target(prefix, policy, p, o[p])
    requires StepAt(o, prefix, policy, p).final == o[j]
    ensures o[j] != Target(prefix, policy, j, o[j])
  {
    if o[j] == Target(prefix, policy, j, o[j]) {
      assert StepAt(o, prefix, policy, j).final == o[j];
      FinalNameRecoversPosition(o, prefix, policy, p, j);
    }
  }

  /** A final name that is occupied belongs to a listed file that itself moves. */
  lemma OccupiedFinalMoves(files: Files, o: seq<string>, prefix: string, policy: ExtPolicy, s: RenameStep) returns (t: RenameStep)
    requires forall i :: 0 <= i < |o| ==> o[i] in files && !files[o[i]].locked
    requires s in Plan(o, prefix, policy) && s.final in o
    ensures t in Plan(o, prefix, policy) && Free(files, t, ToTemp) && t.current == s.final
  {
    var p := StepOfPlan(o, prefix, policy, s);
    var j :| 0 <= j < |o| && o[j] == s.final;
    OccupantMisplaced(o, prefix, policy, p, j);
    t := MovingStep(files, o, prefix, policy, j);
  }

  /** A listed, unlocked file away from its target has a step that frees its name. */
  lemma MovingStep(files: Files, o: seq<string>, prefix: string, policy: ExtPolicy, j: nat) returns (t: RenameStep)
    requires j < |o| && o[j] in files && !files[o[j]].locked
    requires o[j] != Target(prefix, policy, j, o[j])
    ensures t in Plan(o, prefix, policy) && Free(files, t, ToTemp) && t.current == o[j]
  {
    PlanMembership(o, prefix, policy, j);
    t := StepAt(o, prefix, policy, j);
  }

  /** The names within each leg of a plan are distinct, and no temporary name
      is a final name. */
  lemma PlanLegsDistinct(o: seq<string>, prefix: string, policy: ExtPolicy)
    requires Distinct(o) && KnownExtensions(o, policy) && |o| < 1000000
    ensures var plan := Plan(o, prefix, policy);
      DistinctLegs(plan, ToTemp) && DistinctLegs(plan, ToFinal) &&
      forall i, j :: 0 <= i < |plan| && 0 <= j < |plan| ==> plan[i].temp != plan[j].final
  {
    var plan := Plan(o, prefix, policy);
    PlanCurrentsDistinct(o, prefix, policy);
    PlanNamesDistinct(o, prefix, policy);
    forall i, j | 0 <= i < j < |plan|
      ensures Src(plan[i], ToTemp) != Src(plan[j], ToTemp) && Dst(plan[i], ToTemp) != Dst(plan[j], ToTemp)
      ensures Src(plan[i], ToFinal) != Src(plan[j], ToFinal) && Dst(plan[i], ToFinal) != Dst(plan[j], ToFinal)
    {
      assert plan[i].current != plan[j].current && plan[i].temp != plan[j].temp && plan[i].final != plan[j].final;
    }
  }

  /** Every planned file is present and unlocked and its temporary name is free. */
  lemma PlanSourcesPresent(files: Files, o: seq<string>, prefix: string, policy: ExtPolicy)
    requires forall i :: 0 <= i < |o| ==> o[i] in files && !files[o[i]].locked
    requires forall n :: n in files ==> !IsTempName(n)
    ensures forall s :: s in Plan(o, prefix, policy) ==> s.current in files && s.temp !in files && !files[s.current].locked
  {
    forall s | s in Plan(o, prefix, policy) ensures s.current in files && s.temp !in files && !files[s.current].locked {
      var p := StepOfPlan(o, prefix, policy, s);
      TempNameIsTemp(prefix, p, TargetExtension(policy, o[p]));
    }
  }

  /** Every occupied final name belongs to a planned file that moves away. */
  lemma PlanFinalsVacated(files: Files, o: seq<string>, prefix: string, policy: ExtPolicy)
    requires forall i :: 0 <= i < |o| ==> o[i] in files && !files[o[i]].locked
    requires KnownExtensions(o, policy)
    requires forall n :: n in files && Canonical(policy, prefix, n) ==> n in o
    ensures var plan := Plan(o, prefix, policy);
      forall s :: s in plan && Free(files, s, ToTemp) && s.final in files ==>
        exists t :: t in plan && Free(files, t, ToTemp) && t.current == s.final
  {
    var plan := Plan(o, prefix, policy);
    PlanFinalsCanonical(o, prefix, policy);
    forall s | s in plan && Free(files, s, ToTemp) && s.final in files
      ensures exists t :: t in plan && Free(files, t, ToTemp) && t.current == s.final
    {
      assert Canonical(policy, prefix, s.final);
      var t := OccupiedFinalMoves(files, o, prefix, policy, s);
    }
  }

  /** A listing that fits gives a plan that fits, with no locked file in it. */
  lemma ListingPlanFits(files: Files, names: seq<string>, prefix: string, policy: ExtPolicy)
    requires ListingFits(files, names, prefix, policy)
    ensures var plan := Plan(Ordered(files, names), prefix, policy);
      PlanFits(files, plan) && forall s :: s in plan ==> !files[s.current].locked
  {
    OrderedListingFits(files, names, prefix, policy);
    var o := Ordered(files, names);
    PlanLegsDistinct(o, prefix, policy);
    PlanSourcesPresent(files, o, prefix, policy);
    PlanFinalsVacated(files, o, prefix, policy);
  }

  // ---------------------------------------------------------------------------
  // The same pass on a volume that compares names without case.

  /** The names a plan uses never meet a case variant that the
      case-sensitive rename would let through: no temporary name is a case
      variant of a file of the directory, of another temporary name or of a
      final name; no two final names are case variants of each other; and a
      file that is a case variant of a final name is itself planned to move.
      Phase one renames each current name to its temporary name while the
      directory holds the original files and the earlier temporary names;
      phase two renames each temporary name to its final name while it holds
      the files that do not move, the remaining temporary names and the earlier
      final names. So a rename that also refuses a destination taken by a case
      variant refuses nothing more in either phase. */
  predicate CaseSafe(files: Files, plan: seq<RenameStep>) {
    (forall s, n :: s in plan && n in files ==> Lower(n) != Lower(s.temp)) &&
    (forall i, j :: 0 <= i < |plan| && 0 <= j < |plan| && i != j ==>
      Lower(plan[i].temp) != Lower(plan[j].temp) && Lower(plan[i].final) != Lower(plan[j].final)) &&
    (forall i, j :: 0 <= i < |plan| && 0 <= j < |plan| ==> Lower(plan[i].temp) != Lower(plan[j].final)) &&
    (forall s, n :: s in plan && n in files && Lower(n) == Lower(s.final) ==>
      exists t :: t in plan && t.current == n)
  }

  /** The triples of two different positions differ without case in both
      their temporary and their final names. */
  lemma StepsFoldApart(o: seq<string>, prefix: string, policy: ExtPolicy, a: nat, b: nat)
    requires a < |o| && b < |o| && a != b
    ensures Lower(StepAt(o, prefix, policy, a).temp) != Lower(StepAt(o, prefix, policy, b).temp)
    ensures Lower(StepAt(o, prefix, policy, a).final) != Lower(StepAt(o, prefix, policy, b).final)
  {
    var ea, eb := TargetExtension(policy, o[a]), TargetExtension(policy, o[b]);
    if Lower(TempName(prefix, a, ea)) == Lower(TempName(prefix, b, eb)) {
      TempNamesFoldApart(prefix, a, b, ea, eb);
    }
    if Lower(FinalName(prefix, a, ea)) == Lower(FinalName(prefix, b, eb)) {
      TargetExtensionDigitFree(policy, o[a]);
      TargetExtensionDigitFree(policy, o[b]);
      FinalNamesFoldApart(prefix, a, b, ea, eb);
    }
  }

  /** Without case, no temporary name of a position is the final name of any
      position. */
  lemma StepTempNotFinalFolded(o: seq<string>, prefix: string, policy: ExtPolicy, a: nat, b: nat)
    requires a < |o| && b < |o| && |o| < 1000000 && KnownExtensions(o, policy)
    ensures Lower(StepAt(o, prefix, policy, a).temp) != Lower(StepAt(o, prefix, policy, b).final)
  {
    KnownExtension(o, policy, a);
    KnownExtension(o, policy, b);
    TempNeverFinalFolded(prefix, a, b, TargetExtension(policy, o[a]), TargetExtension(policy, o[b]));
  }

  /** A final name handed out by the planner is canonical without case. */
  lemma PlannedFinalCaseCanonical(o: seq<string>, prefix: string, policy: ExtPolicy, s: RenameStep)
    requires KnownExtensions(o, policy) && s in Plan(o, prefix, policy)
    ensures CaseCanonical(policy, prefix, s.final)
  {
    if policy == KeepLowered {
      PlanFinalsCanonical(o, prefix, policy);
    } else {
      var p := StepOfPlan(o, prefix, policy, s);
      LowerFinalName(prefix, p, ".png");
      ImageExtensionsArePlain(".png");
      FinalNameIsCanonicalPng(Lower(prefix), p);
    }
  }

  /** A file that is a case variant of a planned final name is a listed file
      that itself moves away. */
  lemma CaseVariantMoves(files: Files, o: seq<string>, prefix: string, policy: ExtPolicy, s: RenameStep, n: string) returns (t: RenameStep)
    requires forall i :: 0 <= i < |o| ==> o[i] in files && !files[o[i]].locked
    requires KnownExtensions(o, policy)
    requires forall m :: m in files && (Canonical(policy, prefix, m) || CaseCanonical(policy, prefix, m)) ==> m in o
    requires s in Plan(o, prefix, policy) && n in files && Lower(n) == Lower(s.final)
    ensures t in Plan(o, prefix, policy) && t.current == n
  {
    var p := StepOfPlan(o, prefix, policy, s);
    PlannedFinalCaseCanonical(o, prefix, policy, s);
    assert CaseCanonical(policy, prefix, n);
    var j :| 0 <= j < |o| && o[j] == n;
    if o[j] == Target(prefix, policy, j, o[j]) {
      assert StepAt(o, prefix, policy, j).final == n;
      if j != p {
        StepsFoldApart(o, prefix, policy, j, p);
      }
      assert false;
    }
    t := MovingStep(files, o, prefix, policy, j);
  }

  /** Over a listing that fits, the plan is case-safe: a volume that compares
      names without case runs the same pass. */
  lemma ListingCaseSafe(files: Files, names: seq<string>, prefix: string, policy: ExtPolicy)
    requires ListingFits(files, names, prefix, policy)
    ensures CaseSafe(files, Plan(Ordered(files, names), prefix, policy))
  {
    OrderedListingFits(files, names, prefix, policy);
    var o := Ordered(files, names);
    var plan := Plan(o, prefix, policy);
    var idx := PlanPositions(o, prefix, policy);
    forall s, n | s in plan && n in files ensures Lower(n) != Lower(s.temp) {
      var p := StepOfPlan(o, prefix, policy, s);
      TempNameLowered(prefix, p, TargetExtension(policy, o[p]));
    }
    forall i, j | 0 <= i < |plan| && 0 <= j < |plan| && i != j
      ensures Lower(plan[i].temp) != Lower(plan[j].temp) && Lower(plan[i].final) != Lower(plan[j].final)
    {
      if i < j {
        assert idx[i] < idx[j];
      } else {
        assert idx[j] < idx[i];
      }
      StepsFoldApart(o, prefix, policy, idx[i], idx[j]);
    }
    forall i, j | 0 <= i < |plan| && 0 <= j < |plan| ensures Lower(plan[i].temp) != Lower(plan[j].final) {
      StepTempNotFinalFolded(o, prefix, policy, idx[i], idx[j]);
    }
    forall s, n | s in plan && n in files && Lower(n) == Lower(s.final)
      ensures exists t :: t in plan && t.current == n
    {
      var t := CaseVariantMoves(files, o, prefix, policy, s, n);
    }
  }

  // ---------------------------------------------------------------------------
  // A complete pass.

  /** Original and PNG-only variants: over a listing that fits, the pass
      completes; every planned file ends at its final name with its own record,
      every other file is untouched, `temp_files` loses only the plan's
      temporary names, and the count is the number of planned renames. */
  lemma AbortReorganizeSucceeds(files: Files, temps: set<string>, listed: seq<string>, prefix: string, policy: ExtPolicy)
    requires ListingFits(files, listed, prefix, policy)
    ensures var plan := Plan(Ordered(files, listed), prefix, policy);
      var r := AbortReorganize(files, temps, listed, prefix, policy);
      r.ok && Relocated(files, r.files, plan, Whole) && r.temps == temps - Temps(plan) && r.renamed == |plan|
  {
    var plan := Plan(Ordered(files, listed), prefix, policy);
    AbortReorganizeRuns(files, temps, listed, prefix, policy);
    if plan != [] {
      ListingPlanFits(files, listed, prefix, policy);
      AbortOutcome(files, temps, plan);
    } else {
      NothingRelocated(files);
    }
  }

  /** Over a listing whose files are all present, the abort-on-error pass is
      the plan applied, or nothing when the plan is empty. */
  lemma AbortReorganizeRuns(files: Files, temps: set<string>, listed: seq<string>, prefix: string, policy: ExtPolicy)
    requires AllPresent(files, listed)
    ensures var plan := Plan(Ordered(files, listed), prefix, policy);
      AbortReorganize(files, temps, listed, prefix, policy) ==
        if plan == [] then Unchanged(files, temps, true) else AbortPass(files, temps, plan)
  {
  }

  /** The corrected pass in terms of the resolver's result `found`. */
  lemma PerEntryReorganizeOf(files: Files, temps: set<string>, found: seq<string>, prefix: string)
    ensures PerEntryReorganizeOver(files, temps, found, prefix) ==
      if found == [] then Unchanged(files, temps, true)
      else if !AllPresent(files, found) then Unchanged(files, temps, false)
      else
        var plan := Plan(Ordered(files, found), prefix, KeepLowered);
        if plan == [] then Unchanged(files, temps, true) else PerEntryPass(files, temps, plan)
  {
  }

  lemma PerEntryReorganizeRuns(files: Files, temps: set<string>, listing: Option<seq<Entry>>, prefix: string)
    requires AllPresent(files, RealNames(listing))
    ensures var plan := Plan(Ordered(files, RealNames(listing)), prefix, KeepLowered);
      PerEntryReorganize(files, temps, listing, prefix) ==
        if plan == [] then Unchanged(files, temps, true) else PerEntryPass(files, temps, plan)
  {
  }

  lemma NothingRelocated(files: Files)
    ensures Relocated(files, files, [], Whole) && Temps([]) == {}
  {
    assert Srcs([], Whole) == {} && Dsts([], Whole) == {};
  }

  /** Corrected variant: the same outcome over the resolver's listing. */
  lemma PerEntryReorganizeSucceeds(files: Files, temps: set<string>, listing: Option<seq<Entry>>, prefix: string)
    requires ListingFits(files, RealNames(listing), prefix, KeepLowered)
    ensures var plan := Plan(Ordered(files, RealNames(listing)), prefix, KeepLowered);
      var r := PerEntryReorganize(files, temps, listing, prefix);
      r.ok && Relocated(files, r.files, plan, Whole) && r.temps == temps - Temps(plan) && r.renamed == |plan|
  {
    var plan := Plan(Ordered(files, RealNames(listing)), prefix, KeepLowered);
    PerEntryReorganizeRuns(files, temps, listing, prefix);
    if plan != [] {
      ListingPlanFits(files, RealNames(listing), prefix, KeepLowered);
      PerEntryAllMove(files, temps, plan);
    } else {
      NothingRelocated(files);
    }
  }

  /** The per-entry pass over a plan with no locked file moves every file. */
  lemma PerEntryAllMove(files: Files, temps: set<string>, plan: seq<RenameStep>)
    requires PlanFits(files, plan) && forall s :: s in plan ==> !files[s.current].locked
    ensures var r := PerEntryPass(files, temps, plan);
      Relocated(files, r.files, plan, Whole) && r.temps == temps - Temps(plan) && r.renamed == |plan|
  {
    forall s | s in plan ensures Free(files, s, ToTemp) {
      assert Src(s, ToTemp) == s.current;
    }
    UnlockedAll(files, plan, ToTemp);
    PerEntryOutcome(files, temps, plan);
    RegisteredThenDiscarded(temps, Temps(plan));
  }

  lemma RegisteredThenDiscarded(temps: set<string>, planned: set<string>)
    ensures temps + planned - planned == temps - planned
  {
  }

  /** After a complete pass the file at position i of the creation-time order
      carries the i-th target name and its own record. */
  lemma PlacedAtTarget(files: Files, after: Files, o: seq<string>, prefix: string, policy: ExtPolicy, i: nat)
    requires Distinct(o) && i < |o| && o[i] in files
    requires Relocated(files, after, Plan(o, prefix, policy), Whole)
    ensures Target(prefix, policy, i, o[i]) in after
    ensures after[Target(prefix, policy, i, o[i])] == files[o[i]]
  {
    if o[i] != Target(prefix, policy, i, o[i]) {
      PlanMembership(o, prefix, policy, i);
    } else {
      InPlaceKept(files, after, o, prefix, policy, i);
    }
  }

  /** A file already at its target name is not moved. */
  lemma InPlaceKept(files: Files, after: Files, o: seq<string>, prefix: string, policy: ExtPolicy, i: nat)
    requires Distinct(o) && i < |o| && o[i] in files && o[i] == Target(prefix, policy, i, o[i])
    requires Relocated(files, after, Plan(o, prefix, policy), Whole)
    ensures o[i] in after && after[o[i]] == files[o[i]]
  {
    forall s | s in Plan(o, prefix, policy) ensures s.current != o[i] {
      var p := StepOfPlan(o, prefix, policy, s);
      assert p != i;
    }
  }

  /** A complete pass loses no file: every record of the directory is still
      there, under its old name or its planned final name. */
  lemma NoFileLost(before: Files, after: Files, steps: seq<RenameStep>)
    requires Relocated(before, after, steps, Whole)
    ensures forall n :: n in before ==> exists m :: m in after && after[m] == before[n]
  {
    forall n | n in before ensures exists m :: m in after && after[m] == before[n] {
      if n in Srcs(steps, Whole) {
        var s :| s in steps && s.current == n;
        assert after[s.final] == before[n];
      } else {
        assert after[n] == before[n];
      }
    }
  }

  // ---------------------------------------------------------------------------
  // A second pass plans nothing.

  /** The names the files carry after a complete pass, in creation-time order. */
  function Targets(o: seq<string>, prefix: string, policy: ExtPolicy): (r: seq<string>)
    ensures |r| == |o|
    ensures forall i :: 0 <= i < |o| ==> r[i] == Target(prefix, policy, i, o[i])
  {
    seq(|o|, i requires 0 <= i < |o| => Target(prefix, policy, i, o[i]))
  }

  /** Files that already carry their target names are all in place. */
  lemma TargetsInPlace(o: seq<string>, prefix: string, policy: ExtPolicy)
    requires KnownExtensions(o, policy)
    ensures Plan(Targets(o, prefix, policy), prefix, policy) == []
  {
    var t := Targets(o, prefix, policy);
    forall i | 0 <= i < |t| ensures t[i] == Target(prefix, policy, i, t[i]) {
      KnownExtension(o, policy, i);
      FinalKeepsExtension(prefix, i, policy, TargetExtension(policy, o[i]));
    }
    PlanEmptyIffAllInPlace(t, prefix, policy);
  }

  lemma AttachAppend(files: Files, a: seq<string>, b: seq<string>)
    requires AllPresent(files, a) && AllPresent(files, b)
    ensures AllPresent(files, a + b) && Attach(files, a + b) == Attach(files, a) + Attach(files, b)
  {
  }

  lemma MultisetRemove<T>(s: seq<T>, j: nat)
    requires j < |s|
    ensures multiset(s) == multiset(s[..j] + s[j + 1..]) + multiset{s[j]}
  {
    assert s == s[..j] + [s[j]] + s[j + 1..];
  }

  /** Taking the name at position j out of a listing takes its file out of the
      attached listing. */
  lemma AttachRemove(files: Files, b: seq<string>, j: nat)
    requires AllPresent(files, b) && j < |b|
    ensures AllPresent(files, b[..j] + b[j + 1..])
    ensures multiset(b) == multiset(b[..j] + b[j + 1..]) + multiset{b[j]}
    ensures multiset(Attach(files, b)) == multiset(Attach(files, b[..j] + b[j + 1..])) + multiset{File(b[j], files[b[j]].ctime)}
  {
    var fs := Attach(files, b);
    var others := b[..j] + b[j + 1..];
    assert AllPresent(files, others) by {
      forall k | 0 <= k < |others| ensures others[k] in files {
        if k < j { assert others[k] == b[k]; } else { assert others[k] == b[k + 1]; }
      }
    }
    assert fs[..j] + fs[j + 1..] == Attach(files, others) by {
      forall k | 0 <= k < |others| ensures (fs[..j] + fs[j + 1..])[k] == Attach(files, others)[k] {
        if k < j { assert others[k] == b[k]; } else { assert others[k] == b[k + 1]; }
      }
    }
    MultisetRemove(b, j);
    MultisetRemove(fs, j);
  }

  /** Attaching a listing attaches its first name and then the rest. */
  lemma AttachHead(files: Files, a: seq<string>)
    requires AllPresent(files, a) && a != []
    ensures AllPresent(files, a[1..]) && multiset(a) == multiset(a[1..]) + multiset{a[0]}
    ensures multiset(Attach(files, a)) == multiset(Attach(files, a[1..])) + multiset{File(a[0], files[a[0]].ctime)}
  {
    AttachCons(files, a);
    HeadMultiset(a);
    ConsMultiset(Attach(files, a), File(a[0], files[a[0]].ctime), Attach(files, a[1..]));
  }

  lemma AttachCons(files: Files, a: seq<string>)
    requires AllPresent(files, a) && a != []
    ensures AllPresent(files, a[1..])
    ensures Attach(files, a) == [File(a[0], files[a[0]].ctime)] + Attach(files, a[1..])
  {
    var rest := a[1..];
    assert AllPresent(files, rest) by {
      forall k | 0 <= k < |rest| ensures rest[k] in files {
        assert rest[k] == a[k + 1];
      }
    }
    var fa, fr := Attach(files, a), Attach(files, rest);
    assert fa == [fa[0]] + fr by {
      forall k | 0 <= k < |fr| ensures fa[k + 1] == fr[k] {
        assert rest[k] == a[k + 1];
      }
    }
  }

  lemma HeadMultiset<T>(s: seq<T>)
    requires s != []
    ensures multiset(s) == multiset(s[1..]) + multiset{s[0]}
  {
    assert s == [s[0]] + s[1..];
  }

  lemma ConsMultiset<T>(s: seq<T>, x: T, t: seq<T>)
    requires s == [x] + t
    ensures multiset(s) == multiset(t) + multiset{x}
  {
  }

  /** Listing the same names in another order attaches the same files. */
  lemma {:induction false} AttachPermutation(files: Files, a: seq<string>, b: seq<string>)
    requires AllPresent(files, a) && AllPresent(files, b) && multiset(a) == multiset(b)
    ensures multiset(Attach(files, a)) == multiset(Attach(files, b))
    decreases |a|
  {
    if a == [] {
      assert |b| == |multiset(b)| == 0;
    } else {
      assert a[0] in multiset(b);
      var j :| 0 <= j < |b| && b[j] == a[0];
      var rest, others := a[1..], b[..j] + b[j + 1..];
      var x := File(a[0], files[a[0]].ctime);
      AttachHead(files, a);
      assert AllPresent(files, others) && multiset(b) == multiset(others) + multiset{a[0]} &&
             multiset(Attach(files, b)) == multiset(Attach(files, others)) + multiset{x} by {
        AttachRemove(files, b, j);
      }
      assert multiset(rest) == multiset(others) by {
        forall y ensures multiset(rest)[y] == multiset(others)[y] {
          assert multiset(a)[y] == multiset(b)[y];
        }
      }
      AttachPermutation(files, rest, others);
    }
  }

  /** No two listed files were created at the same time. */
  predicate DistinctCtimes(files: Files, names: seq<string>) {
    AllPresent(files, names) &&
    forall a, b :: 0 <= a < b < |names| ==> files[names[a]].ctime != files[names[b]].ctime
  }

  /** With distinct creation times the ordered listing is strictly increasing. */
  lemma OrderedStrict(files: Files, names: seq<string>)
    requires Distinct(names) && DistinctCtimes(files, names)
    ensures StrictlySortedByCtime(SortByCtime(Attach(files, names)))
  {
    var sorted := SortByCtime(Attach(files, names));
    OrderedDistinct(files, names);
    var o := Ordered(files, names);
    forall i, j | 0 <= i < j < |sorted| ensures sorted[i].ctime < sorted[j].ctime {
      SortedEntry(files, names, i);
      SortedEntry(files, names, j);
      assert o[i] == sorted[i].name && o[j] == sorted[j].name;
      var a :| 0 <= a < |names| && names[a] == sorted[i].name;
      var b :| 0 <= b < |names| && names[b] == sorted[j].name;
      assert a != b;
    }
  }

  /** After a complete pass the target names, in order, hold files with the
      creation times of the ordered listing. */
  lemma PlacedCtimes(files: Files, after: Files, listed: seq<string>, prefix: string, policy: ExtPolicy)
    requires ListingFits(files, listed, prefix, policy)
    requires Relocated(files, after, Plan(Ordered(files, listed), prefix, policy), Whole)
    ensures var t := Targets(Ordered(files, listed), prefix, policy);
      AllPresent(after, t) &&
      forall i :: 0 <= i < |t| ==> after[t[i]].ctime == SortByCtime(Attach(files, listed))[i].ctime
  {
    var o := Ordered(files, listed);
    var sorted := SortByCtime(Attach(files, listed));
    var t := Targets(o, prefix, policy);
    OrderedListingFits(files, listed, prefix, policy);
    forall i | 0 <= i < |t| ensures t[i] in after && after[t[i]].ctime == sorted[i].ctime {
      PlacedAtTarget(files, after, o, prefix, policy, i);
      SortedEntry(files, listed, i);
    }
  }

  /** With distinct creation times the placed files are strictly ordered by
      their target names' positions. */
  lemma PlacedStrict(files: Files, after: Files, listed: seq<string>, prefix: string, policy: ExtPolicy)
    requires ListingFits(files, listed, prefix, policy) && DistinctCtimes(files, listed)
    requires Relocated(files, after, Plan(Ordered(files, listed), prefix, policy), Whole)
    ensures var t := Targets(Ordered(files, listed), prefix, policy);
      AllPresent(after, t) && StrictlySortedByCtime(Attach(after, t))
  {
    PlacedCtimes(files, after, listed, prefix, policy);
    OrderedStrict(files, listed);
  }

  /** Idempotence: after a complete pass over a listing whose files have
      pairwise distinct creation times, a pass over any listing of the names
      the files now carry plans no rename. */
  lemma ReplanAfterPlacement(files: Files, after: Files, listed: seq<string>, prefix: string, policy: ExtPolicy, relisted: seq<string>)
    requires ListingFits(files, listed, prefix, policy) && DistinctCtimes(files, listed)
    requires Relocated(files, after, Plan(Ordered(files, listed), prefix, policy), Whole)
    requires multiset(relisted) == multiset(Targets(Ordered(files, listed), prefix, policy))
    ensures PassPlan(after, relisted, prefix, policy) == Some([])
  {
    var o := Ordered(files, listed);
    var t := Targets(o, prefix, policy);
    PlacedStrict(files, after, listed, prefix, policy);
    Reordered(after, t, relisted);
    OrderedListingFits(files, listed, prefix, policy);
    TargetsInPlace(o, prefix, policy);
  }

  /** Names whose files have strictly increasing creation times come back in
      that order whatever order they are listed in. */
  lemma Reordered(files: Files, t: seq<string>, relisted: seq<string>)
    requires AllPresent(files, t) && StrictlySortedByCtime(Attach(files, t))
    requires multiset(relisted) == multiset(t)
    ensures AllPresent(files, relisted) && Ordered(files, relisted) == t
  {
    forall k | 0 <= k < |relisted| ensures relisted[k] in files {
      assert relisted[k] in multiset(t);
    }
    var placed := Attach(files, t);
    AttachPermutation(files, relisted, t);
    SortedPermutationUnique(SortByCtime(Attach(files, relisted)), placed);
    assert Names(placed) == t;
  }

  /** Original and PNG-only variants: a second pass, over a glob that lists
      the files the first one placed, changes nothing. */
  lemma AbortReorganizeIdempotent(files: Files, temps: set<string>, listed: seq<string>, prefix: string, policy: ExtPolicy, relisted: seq<string>)
    requires ListingFits(files, listed, prefix, policy) && DistinctCtimes(files, listed)
    requires multiset(relisted) == multiset(Targets(Ordered(files, listed), prefix, policy))
    ensures var r := AbortReorganize(files, temps, listed, prefix, policy);
      AbortReorganize(r.files, r.temps, relisted, prefix, policy) == Unchanged(r.files, r.temps, true)
  {
    AbortReorganizeSucceeds(files, temps, listed, prefix, policy);
    var r := AbortReorganize(files, temps, listed, prefix, policy);
    ReplanAfterPlacement(files, r.files, listed, prefix, policy, relisted);
  }

  /** Corrected variant: the same, over a resolver listing of the placed files. */
  lemma PerEntryReorganizeIdempotent(files: Files, temps: set<string>, listing: Option<seq<Entry>>, prefix: string, relisting: Option<seq<Entry>>)
    requires ListingFits(files, RealNames(listing), prefix, KeepLowered) && DistinctCtimes(files, RealNames(listing))
    requires multiset(RealNames(relisting)) == multiset(Targets(Ordered(files, RealNames(listing)), prefix, KeepLowered))
    ensures var r := PerEntryReorganize(files, temps, listing, prefix);
      PerEntryReorganize(r.files, r.temps, relisting, prefix) == Unchanged(r.files, r.temps, true)
  {
    PerEntryReorganizeSucceeds(files, temps, listing, prefix);
    var r := PerEntryReorganize(files, temps, listing, prefix);
    ReplanAfterPlacement(files, r.files, RealNames(listing), prefix, KeepLowered, RealNames(relisting));
  }

  // ---------------------------------------------------------------------------
  // What reaches a plan.

  /** Every planned file is one of the listed names. */
  lemma PlansOnlyListed(files: Files, names: seq<string>, prefix: string, policy: ExtPolicy, s: RenameStep)
    requires AllPresent(files, names) && s in Plan(Ordered(files, names), prefix, policy)
    ensures s.current in names
  {
    var o := Ordered(files, names);
    var p := StepOfPlan(o, prefix, policy, s);
    assert o[p] == SortByCtime(Attach(files, names))[p].name;
    SortedEntry(files, names, p);
  }

  /** An entry that stats but fails the one-byte read is never renamed by the
      corrected pass. */
  lemma UnreadableNeverPlanned(files: Files, entries: seq<Entry>, i: nat, prefix: string, s: RenameStep)
    requires i < |entries| && !entries[i].readable
    requires forall j :: 0 <= j < |entries| && j != i ==> entries[j].name != entries[i].name
    requires AllPresent(files, RealImages(entries))
    requires s in Plan(Ordered(files, RealImages(entries)), prefix, KeepLowered)
    ensures s.current != entries[i].name
  {
    UnreadableSkipped(entries, i);
    PlansOnlyListed(files, RealImages(entries), prefix, KeepLowered, s);
  }

  /** Creation-time ties keep listing order, as the stable sort does: two files
      already at canonical names, created at the same instant and listed in
      reverse order, are swapped. */
  lemma TiesCanReorder(prefix: string, policy: ExtPolicy)
    ensures var first, second := FinalName(prefix, 0, ".png"), FinalName(prefix, 1, ".png");
      var files := map[second := FileRecord(5, 2, false), first := FileRecord(5, 1, false)];
      AllPresent(files, [second, first]) &&
      RenameStep(second, TempName(prefix, 0, ".png"), first) in Plan(Ordered(files, [second, first]), prefix, policy)
  {
    var first, second := FinalName(prefix, 0, ".png"), FinalName(prefix, 1, ".png");
    var files := map[second := FileRecord(5, 2, false), first := FileRecord(5, 1, false)];
    var listed := [second, first];
    FinalNamesDiffer(prefix, 0, 1, ".png");
    assert Attach(files, listed) == [File(second, 5), File(first, 5)];
    PairKeepsOrder(File(second, 5), File(first, 5));
    var o := Ordered(files, listed);
    assert o == listed;
    FinalKeepsExtension(prefix, 1, policy, ".png");
    PlanMembership(o, prefix, policy, 0);
  }

  /** Two files listed in creation-time order keep that order. */
  lemma OrderedPair(files: Files, a: string, b: string)
    requires a in files && b in files && files[a].ctime <= files[b].ctime
    ensures Ordered(files, [a, b]) == [a, b]
  {
    assert Attach(files, [a, b]) == [File(a, files[a].ctime), File(b, files[b].ctime)];
    PairKeepsOrder(File(a, files[a].ctime), File(b, files[b].ctime));
  }

  /** The two case-variant globs of the original list the same file twice on a
      case-insensitive filesystem. The pass then plans that file at positions
      0 and 1; the first phase-1 rename moves it to its temporary name, the
      second finds its source gone and ends the pass, so the file is left
      under the temporary name, which stays registered. */
  lemma DoubleListingStrandsFile(n: string, rec: FileRecord, prefix: string, policy: ExtPolicy)
    requires !rec.locked && !IsTempName(n)
    requires n != Target(prefix, policy, 0, n) && n != Target(prefix, policy, 1, n)
    ensures var temp := TempName(prefix, 0, TargetExtension(policy, n));
      var r := AbortReorganize(map[n := rec], {}, [n, n], prefix, policy);
      !r.ok && r.files == map[temp := rec] && temp in r.temps
  {
    var files := map[n := rec];
    OrderedPair(files, n, n);
    assert PassPlan(files, [n, n], prefix, policy) == Some(Plan([n, n], prefix, policy));
    var plan := DoublePlan(n, prefix, policy);
    DoubleChain(n, rec, plan);
  }

  lemma DoublePlan(n: string, prefix: string, policy: ExtPolicy) returns (plan: seq<RenameStep>)
    requires n != Target(prefix, policy, 0, n) && n != Target(prefix, policy, 1, n)
    ensures plan == Plan([n, n], prefix, policy)
    ensures |plan| == 2 && plan[0].current == plan[1].current == n
    ensures plan[0].temp == TempName(prefix, 0, TargetExtension(policy, n))
  {
    var o := [n, n];
    plan := Plan(o, prefix, policy);
    var m := Misplaced(o, prefix, policy);
    var st := Steps(o, prefix, policy);
    assert m[0] && m[1];
    assert st[0] == StepAt(o, prefix, policy, 0) && st[1] == StepAt(o, prefix, policy, 1);
    assert Selected(m, st, 0) == [];
    assert Selected(m, st, 1) == [st[0]];
    assert Selected(m, st, 2) == [st[0]] + [st[1]];
  }

  lemma DoubleChain(n: string, rec: FileRecord, plan: seq<RenameStep>)
    requires !rec.locked && !IsTempName(n)
    requires |plan| == 2 && plan[0].current == plan[1].current == n
    requires IsTempName(plan[0].temp)
    ensures var r := AbortPass(map[n := rec], {}, plan);
      !r.ok && r.files == map[plan[0].temp := rec] && plan[0].temp in r.temps
  {
    var files := map[n := rec];
    var temp := plan[0].temp;
    assert temp != n;
    var mid := Renamed(files, n, temp);
    assert mid == map[temp := rec];
    assert Chain(mid, plan[1..], ToTemp, 1) == Run(mid, 1);
    assert Chain(files, plan, ToTemp, 0) == Run(mid, 1);
    TempsSnoc(plan, 0);
    TempsSnoc(plan, 1);
    assert plan[..2] == plan;
  }
}
