// `check_existing_files`, the pass the watcher runs once at start-up: count the
// images that are not in canonical form and reorganise. The original and
// PNG-only variants skip the pass when every image is already canonical; the
// corrected variant always runs it when there is at least one real image.
module Startup {
  import opened Optional
  import opened Text
  import opened Naming
  import opened Ordering
  import opened Planner
  import opened FileSystem
  import opened Apply
  import opened Resolver
  import opened Reconcile

  /** The number of names not in canonical form, `len(new_files)`. */
  function CountNew(policy: ExtPolicy, prefix: string, names: seq<string>): (r: nat)
    ensures r <= |names|
  {
    if names == [] then 0
    else CountNew(policy, prefix, names[..|names| - 1]) + if Canonical(policy, prefix, names[|names| - 1]) then 0 else 1
  }

  /** A name out of canonical form is counted. */
  lemma {:induction false} CountNewSees(policy: ExtPolicy, prefix: string, names: seq<string>, i: nat)
    requires i < |names| && !Canonical(policy, prefix, names[i])
    ensures CountNew(policy, prefix, names) > 0
    decreases |names|
  {
    var init, last := names[..|names| - 1], names[|names| - 1];
    var tail := if Canonical(policy, prefix, last) then 0 else 1;
    assert CountNew(policy, prefix, names) == CountNew(policy, prefix, init) + tail;
    if i < |init| {
      assert init[i] == names[i];
      CountNewSees(policy, prefix, init, i);
    } else {
      assert last == names[i];
    }
  }

  /** Something counted is a name out of canonical form. */
  lemma {:induction false} CountNewWitness(policy: ExtPolicy, prefix: string, names: seq<string>) returns (i: nat)
    requires CountNew(policy, prefix, names) > 0
    ensures i < |names| && !Canonical(policy, prefix, names[i])
    decreases |names|
  {
    var init := names[..|names| - 1];
    if Canonical(policy, prefix, names[|names| - 1]) {
      i := CountNewWitness(policy, prefix, init);
      assert init[i] == names[i];
    } else {
      i := |names| - 1;
    }
  }

  /** No name is counted exactly when every name is in canonical form. */
  lemma CountNewZero(policy: ExtPolicy, prefix: string, names: seq<string>)
    ensures CountNew(policy, prefix, names) == 0 <==> forall i :: 0 <= i < |names| ==> Canonical(policy, prefix, names[i])
  {
    if CountNew(policy, prefix, names) > 0 {
      var i := CountNewWitness(policy, prefix, names);
    } else {
      forall i | 0 <= i < |names| ensures Canonical(policy, prefix, names[i]) {
        if !Canonical(policy, prefix, names[i]) {
          CountNewSees(policy, prefix, names, i);
        }
      }
    }
  }

  lemma CountNewSnoc(policy: ExtPolicy, prefix: string, names: seq<string>, x: string)
    ensures CountNew(policy, prefix, names + [x]) ==
      CountNew(policy, prefix, names) + if Canonical(policy, prefix, x) then 0 else 1
  {
    assert (names + [x])[..|names|] == names;
  }

  /** What the start-up check leaves and the count it returns. */
  datatype Check = Check(outcome: Outcome, reported: nat)

  /** Original and PNG-only variants over the glob result `listed`. */
  function GlobCheck(files: Files, temps: set<string>, listed: seq<string>, prefix: string, policy: ExtPolicy): Check {
    var pending := CountNew(policy, prefix, listed);
    if listed == [] || pending == 0 then Check(Unchanged(files, temps, true), 0)
    else Check(AbortReorganize(files, temps, listed, prefix, policy), pending)
  }

  /** Corrected variant over the resolver's listing. */
  function ResolvedCheck(files: Files, temps: set<string>, listing: Option<seq<Entry>>, prefix: string): Check {
    var found := RealNames(listing);
    if found == [] then Check(Unchanged(files, temps, true), 0)
    else Check(PerEntryReorganize(files, temps, listing, prefix), CountNew(KeepLowered, prefix, found))
  }

  /** Original and PNG-only variants: when every listed image is canonical the
      check reports 0 and touches nothing. */
  lemma GlobCheckSkipsCanonical(files: Files, temps: set<string>, listed: seq<string>, prefix: string, policy: ExtPolicy)
    requires forall i :: 0 <= i < |listed| ==> Canonical(policy, prefix, listed[i])
    ensures GlobCheck(files, temps, listed, prefix, policy) == Check(Unchanged(files, temps, true), 0)
  {
    CountNewZero(policy, prefix, listed);
  }

  /** Original and PNG-only variants: otherwise the check runs the pass and
      reports how many images were not canonical. */
  lemma GlobCheckRunsPass(files: Files, temps: set<string>, listed: seq<string>, prefix: string, policy: ExtPolicy, i: nat)
    requires i < |listed| && !Canonical(policy, prefix, listed[i])
    ensures var c := GlobCheck(files, temps, listed, prefix, policy);
      c.outcome == AbortReorganize(files, temps, listed, prefix, policy) &&
      0 < c.reported == CountNew(policy, prefix, listed) <= |listed|
  {
    CountNewZero(policy, prefix, listed);
  }

  /** Corrected variant: the check reorganises whenever there is a real image,
      whether or not any image is out of canonical form; and it reports the
      number of images that were not canonical. */
  lemma ResolvedCheckRunsPass(files: Files, temps: set<string>, listing: Option<seq<Entry>>, prefix: string)
    requires RealNames(listing) != []
    ensures var c := ResolvedCheck(files, temps, listing, prefix);
      c.outcome == PerEntryReorganize(files, temps, listing, prefix) &&
      c.reported <= |RealNames(listing)| &&
      (c.reported == 0 <==> forall n :: n in RealNames(listing) ==> IsCanonicalImage(prefix, n))
  {
    CountNewZero(KeepLowered, prefix, RealNames(listing));
  }

  /** Corrected variant: after the check over a listing that fits, the file at
      position i of the creation-time order carries the i-th final name, so the
      numbering has no gap. */
  lemma ResolvedCheckNumbersContinuously(files: Files, temps: set<string>, listing: Option<seq<Entry>>, prefix: string, i: nat)
    requires ListingFits(files, RealNames(listing), prefix, KeepLowered)
    requires i < |RealNames(listing)|
    ensures var o := Ordered(files, RealNames(listing));
      var after := ResolvedCheck(files, temps, listing, prefix).outcome.files;
      o[i] in files && Target(prefix, KeepLowered, i, o[i]) in after &&
      after[Target(prefix, KeepLowered, i, o[i])] == files[o[i]]
  {
    var o := Ordered(files, RealNames(listing));
    PerEntryReorganizeSucceeds(files, temps, listing, prefix);
    OrderedListingFits(files, RealNames(listing), prefix, KeepLowered);
    PlacedAtTarget(files, ResolvedCheck(files, temps, listing, prefix).outcome.files, o, prefix, KeepLowered, i);
  }

  /** Original and PNG-only variants: a directory holding `<prefix>_01.png` and
      `<prefix>_03.png` keeps its gap at start-up, although a pass would plan
      renaming the second file to `<prefix>_02.png`. */
  lemma GlobCheckKeepsGap(prefix: string, temps: set<string>, policy: ExtPolicy)
    ensures var first, third := FinalName(prefix, 0, ".png"), FinalName(prefix, 2, ".png");
      var files := map[first := FileRecord(1, 1, false), third := FileRecord(2, 1, false)];
      GlobCheck(files, temps, [first, third], prefix, policy) == Check(Unchanged(files, temps, true), 0) &&
      PassPlan(files, [first, third], prefix, policy).Some? &&
      RenameStep(third, TempName(prefix, 1, ".png"), FinalName(prefix, 1, ".png")) in PassPlan(files, [first, third], prefix, policy).value
  {
    var first, third := FinalName(prefix, 0, ".png"), FinalName(prefix, 2, ".png");
    var files := map[first := FileRecord(1, 1, false), third := FileRecord(2, 1, false)];
    PngFinalIsImage(prefix, 0);
    PngFinalIsImage(prefix, 2);
    FinalNamesDiffer(prefix, 0, 2, ".png");
    FinalNamesDiffer(prefix, 1, 2, ".png");
    FinalKeepsExtension(prefix, 2, policy, ".png");
    CanonicalPairKept(files, temps, first, third, prefix, policy);
  }

  /** Two canonical files in creation-time order, the second not numbered 02:
      the start-up check leaves them, while a pass would move the second. */
  lemma CanonicalPairKept(files: Files, temps: set<string>, a: string, b: string, prefix: string, policy: ExtPolicy)
    requires a in files && b in files && files[a].ctime <= files[b].ctime
    requires Canonical(policy, prefix, a) && Canonical(policy, prefix, b)
    requires b != FinalName(prefix, 1, TargetExtension(policy, b))
    ensures GlobCheck(files, temps, [a, b], prefix, policy) == Check(Unchanged(files, temps, true), 0)
    ensures PassPlan(files, [a, b], prefix, policy).Some?
    ensures var e := TargetExtension(policy, b);
      RenameStep(b, TempName(prefix, 1, e), FinalName(prefix, 1, e)) in PassPlan(files, [a, b], prefix, policy).value
  {
    GlobCheckSkipsCanonical(files, temps, [a, b], prefix, policy);
    OrderedPair(files, a, b);
    SecondPlanned(files, a, b, prefix, policy);
  }

  /** When the second of two ordered files is not at `<prefix>_02<ext>`, the
      plan moves it there. */
  lemma SecondPlanned(files: Files, a: string, b: string, prefix: string, policy: ExtPolicy)
    requires a in files && b in files && Ordered(files, [a, b]) == [a, b]
    requires b != FinalName(prefix, 1, TargetExtension(policy, b))
    ensures PassPlan(files, [a, b], prefix, policy).Some?
    ensures var e := TargetExtension(policy, b);
      RenameStep(b, TempName(prefix, 1, e), FinalName(prefix, 1, e)) in PassPlan(files, [a, b], prefix, policy).value
  {
    PlanMembership([a, b], prefix, policy, 1);
  }

  /** The gap directory meets the conditions of a complete pass, for a prefix
      that cannot make a final name look like a temporary one. */
  lemma GapListingFits(prefix: string)
    requires !StartsWith(Lower(prefix + "_"), "temp_")
    ensures var first, third := FinalName(prefix, 0, ".png"), FinalName(prefix, 2, ".png");
      var files := map[first := FileRecord(1, 1, false), third := FileRecord(2, 1, false)];
      ListingFits(files, [first, third], prefix, KeepLowered)
  {
    var first, third := FinalName(prefix, 0, ".png"), FinalName(prefix, 2, ".png");
    PngFinalIsImage(prefix, 0);
    PngFinalIsImage(prefix, 2);
    FinalNamesDiffer(prefix, 0, 2, ".png");
    FinalNameNotTemp(prefix, 0, ".png");
    FinalNameNotTemp(prefix, 2, ".png");
    PairFits(first, third, FileRecord(1, 1, false), FileRecord(2, 1, false), prefix);
  }

  /** Two unlocked image files, neither of them named like a temporary file in
      any case, form a listing that fits when they are the whole directory. */
  lemma PairFits(a: string, b: string, ra: FileRecord, rb: FileRecord, prefix: string)
    requires a != b && !ra.locked && !rb.locked
    requires HasImageExtension(a) && !IsBareExtension(a) && !StartsWith(Lower(a), "temp_")
    requires HasImageExtension(b) && !IsBareExtension(b) && !StartsWith(Lower(b), "temp_")
    ensures ListingFits(map[a := ra, b := rb], [a, b], prefix, KeepLowered)
  {
    var files := map[a := ra, b := rb];
    assert forall n :: n in files ==> n == a || n == b;
  }

  /** Corrected variant: the same directory, listed by the resolver, is
      renumbered without the gap. */
  lemma ResolvedCheckClosesGap(prefix: string, temps: set<string>)
    requires !StartsWith(Lower(prefix + "_"), "temp_")
    ensures var first, third := FinalName(prefix, 0, ".png"), FinalName(prefix, 2, ".png");
      var files := map[first := FileRecord(1, 1, false), third := FileRecord(2, 1, false)];
      var listing := Some([Entry(first, Some(true), true, Some(1), true), Entry(third, Some(true), true, Some(1), true)]);
      var after := ResolvedCheck(files, temps, listing, prefix).outcome.files;
      FinalName(prefix, 1, ".png") in after && after[FinalName(prefix, 1, ".png")] == files[third]
  {
    var first, third := FinalName(prefix, 0, ".png"), FinalName(prefix, 2, ".png");
    var files := map[first := FileRecord(1, 1, false), third := FileRecord(2, 1, false)];
    PngFinalIsImage(prefix, 0);
    PngFinalIsImage(prefix, 2);
    FinalNamesDiffer(prefix, 0, 2, ".png");
    FinalKeepsExtension(prefix, 2, KeepLowered, ".png");
    GapListingFits(prefix);
    OrderedPair(files, first, third);
    SecondPlaced(files, temps, Entry(first, Some(true), true, Some(1), true), Entry(third, Some(true), true, Some(1), true), prefix);
  }

  /** Corrected variant over two real images in creation-time order: the second
      ends at `<prefix>_02<ext>`. */
  lemma SecondPlaced(files: Files, temps: set<string>, a: Entry, b: Entry, prefix: string)
    requires IsRealImage(a) && IsRealImage(b)
    requires ListingFits(files, [a.name, b.name], prefix, KeepLowered)
    requires Ordered(files, [a.name, b.name]) == [a.name, b.name]
    ensures var after := ResolvedCheck(files, temps, Some([a, b]), prefix).outcome.files;
      var t := FinalName(prefix, 1, TargetExtension(KeepLowered, b.name));
      b.name in files && t in after && after[t] == files[b.name]
  {
    RealImagesOfPair(a, b);
    ResolvedCheckNumbersContinuously(files, temps, Some([a, b]), prefix, 1);
  }
}
