// The original variant's `ImageRenameHandler`: PNG, JPG and JPEG images, a
// case-insensitive canonical test, enumeration by glob, and a renaming pass
// that stops at the first failing rename.
module OriginalWatcher {
  import opened Naming
  import opened Ordering
  import opened Planner
  import opened FileSystem
  import opened Apply
  import opened Gate
  import opened Stability
  import opened Reconcile
  import opened Startup
  import opened TempNames

  class ImageRenameHandler {
    const prefix: string
    /** The single-flight flag: true while a pass is under way. */
    var processing: bool
    /** `last_event_time`: when an event for each path was last accepted. */
    var lastEventTime: map<string, int>
    /** `temp_files`: the temporary names the handler has handed out. */
    var tempFiles: set<string>

    /** `temp_files` holds only names of the temporary shape. */
    predicate Valid()
      reads this
    {
      AllTempNames(tempFiles)
    }

    constructor (prefix: string)
      ensures Valid()
      ensures this.prefix == prefix && !processing && lastEventTime == map[] && tempFiles == {}
    {
      this.prefix := prefix;
      processing := false;
      lastEventTime := map[];
      tempFiles := {};
    }

    /** `on_created`; `accepted` says whether a worker was started. */
    method OnCreated(e: Event, now: int) returns (accepted: bool)
      modifies this
      ensures accepted <==> OriginalCreatedPasses(e, old(tempFiles)) && Admits(old(lastEventTime), e.src, now)
      ensures lastEventTime == if accepted then old(lastEventTime)[e.src := now] else old(lastEventTime)
      ensures processing == old(processing) && tempFiles == old(tempFiles)
    {
      accepted := false;
      if !e.isDirectory && HasImageExtension(e.src) {
        if IsTempName(e.src) || e.src in tempFiles {
          return;
        }
        accepted := DebouncedProcess(e.src, now);
      }
    }

    /** `on_modified`: as `on_created`, and events for canonical names are dropped. */
    method OnModified(e: Event, now: int) returns (accepted: bool)
      modifies this
      ensures accepted <==> OriginalModifiedPasses(e, prefix, old(tempFiles)) && Admits(old(lastEventTime), e.src, now)
      ensures lastEventTime == if accepted then old(lastEventTime)[e.src := now] else old(lastEventTime)
      ensures processing == old(processing) && tempFiles == old(tempFiles)
    {
      accepted := false;
      if !e.isDirectory && HasImageExtension(e.src) {
        if IsTempName(e.src) || e.src in tempFiles {
          return;
        }
        if IsCanonicalImage(prefix, e.src) {
          return;
        }
        accepted := DebouncedProcess(e.src, now);
      }
    }

    /** `on_moved`: the destination name is checked, against `TEMP_` only. */
    method OnMoved(e: Event, now: int) returns (accepted: bool)
      modifies this
      ensures accepted <==> OriginalMovedPasses(e) && Admits(old(lastEventTime), e.dest, now)
      ensures lastEventTime == if accepted then old(lastEventTime)[e.dest := now] else old(lastEventTime)
      ensures processing == old(processing) && tempFiles == old(tempFiles)
    {
      accepted := false;
      if !e.isDirectory && HasImageExtension(e.dest) {
        if IsTempName(e.dest) {
          return;
        }
        accepted := DebouncedProcess(e.dest, now);
      }
    }

    /** `_debounced_process` at time now (milliseconds). */
    method DebouncedProcess(path: string, now: int) returns (accepted: bool)
      modifies this
      ensures accepted == Admits(old(lastEventTime), path, now)
      ensures lastEventTime == if accepted then old(lastEventTime)[path := now] else old(lastEventTime)
      ensures processing == old(processing) && tempFiles == old(tempFiles)
    {
      if path in lastEventTime {
        var timeDiff := now - lastEventTime[path];
        if timeDiff < DebounceDelayMs {
          return false;
        }
      }
      lastEventTime := lastEventTime[path := now];
      accepted := true;
    }

    /** `_cleanup_event_cache` at time now. */
    method CleanupEventCache(now: int)
      modifies this
      ensures lastEventTime == Cleanup(old(lastEventTime), now)
      ensures processing == old(processing) && tempFiles == old(tempFiles)
    {
      lastEventTime := Cleanup(lastEventTime, now);
    }

    /** `process_new_file` for the file `name`, with the glob the pass will
        see, the size polls before the timeout, the size read after it, and
        the time of the cache cleanup. */
    method ProcessNewFile(dir: Directory, listed: seq<string>, name: string,
                          polls: seq<Observation>, final: Observation, now: int) returns (result: Trigger)
      modifies this, dir
      requires Valid()
      ensures Valid()
      ensures result == Vanished <==> name !in old(dir.files)
      ensures result == AlreadyRenamed <==> name in old(dir.files) && IsCanonicalImage(prefix, name)
      ensures result == Busy <==> name in old(dir.files) && !IsCanonicalImage(prefix, name) && old(processing)
      ensures result == Unstable <==>
        name in old(dir.files) && !IsCanonicalImage(prefix, name) && !old(processing) && !Verdict(polls, final)
      ensures result == Reorganized ==>
        var r := AbortReorganize(old(dir.files), old(tempFiles), listed, prefix, KeepLowered);
        dir.files == r.files && tempFiles == r.temps && lastEventTime == Cleanup(old(lastEventTime), now)
      ensures result != Reorganized ==>
        dir.files == old(dir.files) && tempFiles == old(tempFiles) && lastEventTime == old(lastEventTime)
      ensures result in {Vanished, AlreadyRenamed, Busy} ==> processing == old(processing)
      ensures result in {Unstable, Reorganized} ==> !processing
    {
      if !dir.Exists(name) {
        return Vanished;
      }
      if IsCanonicalImage(prefix, name) {
        return AlreadyRenamed;
      }
      if processing {
        return Busy;
      }
      processing := true;
      var stable := WaitFileStable(polls, final);
      if !stable {
        processing := false;
        return Unstable;
      }
      ReorganizeAllFiles(dir, listed);
      CleanupEventCache(now);
      processing := false;
      result := Reorganized;
    }

    /** `check_existing_files` over the glob result `listed`; returns the
        number of images not in canonical form. */
    method CheckExistingFiles(dir: Directory, listed: seq<string>) returns (count: nat)
      modifies this, dir
      requires Valid()
      ensures Valid()
      ensures var c := GlobCheck(old(dir.files), old(tempFiles), listed, prefix, KeepLowered);
        dir.files == c.outcome.files && tempFiles == c.outcome.temps && count == c.reported
      ensures unchanged(this`processing, this`lastEventTime)
    {
      if listed == [] {
        return 0;
      }
      var newFiles := NewFiles(prefix, listed);
      if newFiles == [] {
        return 0;
      }
      ReorganizeAllFiles(dir, listed);
      count := |newFiles|;
    }

    /** `reorganize_all_files` over the glob result `listed`. */
    method ReorganizeAllFiles(dir: Directory, listed: seq<string>)
      modifies this, dir
      requires Valid()
      ensures Valid()
      ensures var r := AbortReorganize(old(dir.files), old(tempFiles), listed, prefix, KeepLowered);
        dir.files == r.files && tempFiles == r.temps
      ensures unchanged(this`processing, this`lastEventTime)
    {
      AbortReorganizeKeepsTempNames(dir.files, tempFiles, listed, prefix, KeepLowered);
      if listed == [] {
        return;
      }
      if !AllPresent(dir.files, listed) {
        return;
      }
      AbortReorganizeRuns(dir.files, tempFiles, listed, prefix, KeepLowered);
      var sorted := SortByCtime(Attach(dir.files, listed));
      var plan := BuildPlan(Names(sorted), prefix, KeepLowered);
      if plan == [] {
        return;
      }
      var temps, ok, renamed := ApplyAbortOnError(dir, tempFiles, plan);
      tempFiles := temps;
    }
  }

  /** The loop of `check_existing_files` that collects the listed images not
      in canonical form, in listing order. */
  method NewFiles(prefix: string, listed: seq<string>) returns (newFiles: seq<string>)
    ensures |newFiles| == CountNew(KeepLowered, prefix, listed)
    ensures forall n :: n in newFiles ==> n in listed && !IsCanonicalImage(prefix, n)
  {
    newFiles := [];
    var i := 0;
    while i < |listed|
      invariant 0 <= i <= |listed|
      invariant |newFiles| == CountNew(KeepLowered, prefix, listed[..i])
      invariant forall n :: n in newFiles ==> n in listed && !IsCanonicalImage(prefix, n)
    {
      var name := listed[i];
      var canonical := IsCanonicalImage(prefix, name);
      assert listed[..i + 1] == listed[..i] + [name];
      CountNewSnoc(KeepLowered, prefix, listed[..i], name);
      if !canonical {
        newFiles := newFiles + [name];
      }
      i := i + 1;
    }
    assert listed[..i] == listed;
  }
}
