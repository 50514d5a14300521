// `temp_files` only ever holds names of the temporary shape: every name a
// pass registers is the temporary name of one of its planned steps.
module TempNames {
  import opened Optional
  import opened Naming
  import opened Planner
  import opened FileSystem
  import opened Apply
  import opened Resolver
  import opened Reconcile

  /** Every temporary name a plan hands out starts with `TEMP_`. */
  lemma PlanTempsAreTemp(names: seq<string>, prefix: string, policy: ExtPolicy)
    ensures AllTempNames(Temps(Plan(names, prefix, policy)))
  {
    var plan := Plan(names, prefix, policy);
    forall t | t in Temps(plan) ensures IsTempName(t) {
      var m := TempsOfSteps(plan, t);
      var p := StepOfPlan(names, prefix, policy, plan[m]);
      TempNameIsTemp(prefix, p, TargetExtension(policy, names[p]));
    }
  }

  /** A pass of the original or PNG-only variant keeps `temp_files` made of
      temporary names. */
  lemma AbortReorganizeKeepsTempNames(files: Files, temps: set<string>, listed: seq<string>, prefix: string, policy: ExtPolicy)
    requires AllTempNames(temps)
    ensures AllTempNames(AbortReorganize(files, temps, listed, prefix, policy).temps)
  {
    if listed != [] && AllPresent(files, listed) {
      var plan := Plan(Ordered(files, listed), prefix, policy);
      PassTempsBound(files, temps, plan);
      PlanTempsAreTemp(Ordered(files, listed), prefix, policy);
    }
  }

  /** The same for the corrected variant. */
  lemma PerEntryReorganizeKeepsTempNames(files: Files, temps: set<string>, found: seq<string>, prefix: string)
    requires AllTempNames(temps)
    ensures AllTempNames(PerEntryReorganizeOver(files, temps, found, prefix).temps)
  {
    if found != [] && AllPresent(files, found) {
      var plan := Plan(Ordered(files, found), prefix, KeepLowered);
      PassTempsBound(files, temps, plan);
      PlanTempsAreTemp(Ordered(files, found), prefix, KeepLowered);
    }
  }
}
