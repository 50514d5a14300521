// The PNG-only variant's `PNGRenameHandler`: `.png` images only, a
// case-sensitive canonical test, enumeration by glob, and a renaming pass that
// stops at the first failing rename.
module PngWatcher {
  import opened Naming
  import opened Ordering
  import opened Planner
  import opened FileSystem
  import opened Apply
  import opened Gate
  import opened Stability
  import opened Reconcile
  import opened Startup
  import opened TempNames

  class PNGRenameHandler {
    const prefix: string
    /** The single-flight flag: true while a pass is under way. */
    var processing: bool
    /** `last_event_time`: when an event for each path was last accepted. */
    var lastEventTime: map<string, int>
    /** `temp_files`: the temporary names the handler has handed out. */
    var tempFiles: set<string>

    /** `temp_files` holds only names of the temporary shape. */
    predicate Valid()
      reads this
    {
      AllTempNames(tempFiles)
    }

    constructor (prefix: string)
      ensures Valid()
      ensures this.prefix == prefix && !processing && lastEventTime == map[] && tempFiles == {}
    {
      this.prefix := prefix;
      processing := false;
      lastEventTime := map[];
      tempFiles := {};
    }

    /** `_handle_file_event`: events that pass `_should_process_file` go on
        to the debounce. */
    method HandleFileEvent(path: string, now: int) returns (accepted: bool)
      modifies this
      ensures accepted <==> ShouldProcessPng(path, old(tempFiles)) && Admits(old(lastEventTime), path, now)
      ensures lastEventTime == if accepted then old(lastEventTime)[path := now] else old(lastEventTime)
      ensures processing == old(processing) && tempFiles == old(tempFiles)
    {
      accepted := false;
      if ShouldProcessPng(path, tempFiles) {
        accepted := DebouncedProcess(path, now);
      }
    }

    /** `on_created`; `accepted` says whether a worker was started. */
    method OnCreated(e: Event, now: int) returns (accepted: bool)
      modifies this
      ensures accepted <==> !e.isDirectory && ShouldProcessPng(e.src, old(tempFiles)) && Admits(old(lastEventTime), e.src, now)
      ensures lastEventTime == if accepted then old(lastEventTime)[e.src := now] else old(lastEventTime)
      ensures processing == old(processing) && tempFiles == old(tempFiles)
    {
      accepted := false;
      if !e.isDirectory {
        accepted := HandleFileEvent(e.src, now);
      }
    }

    /** `on_modified`: events for names already in canonical form are dropped. */
    method OnModified(e: Event, now: int) returns (accepted: bool)
      modifies this
      ensures accepted <==>
        !e.isDirectory && !IsCanonicalPng(prefix, e.src) && ShouldProcessPng(e.src, old(tempFiles)) &&
        Admits(old(lastEventTime), e.src, now)
      ensures lastEventTime == if accepted then old(lastEventTime)[e.src := now] else old(lastEventTime)
      ensures processing == old(processing) && tempFiles == old(tempFiles)
    {
      accepted := false;
      if !e.isDirectory && !IsCanonicalPng(prefix, e.src) {
        accepted := HandleFileEvent(e.src, now);
      }
    }

    /** `on_moved`: the destination name goes through the same filter. */
    method OnMoved(e: Event, now: int) returns (accepted: bool)
      modifies this
      ensures accepted <==> !e.isDirectory && ShouldProcessPng(e.dest, old(tempFiles)) && Admits(old(lastEventTime), e.dest, now)
      ensures lastEventTime == if accepted then old(lastEventTime)[e.dest := now] else old(lastEventTime)
      ensures processing == old(processing) && tempFiles == old(tempFiles)
    {
      accepted := false;
      if !e.isDirectory {
        accepted := HandleFileEvent(e.dest, now);
      }
    }

    /** `_debounced_process` at time now (milliseconds). */
    method DebouncedProcess(path: string, now: int) returns (accepted: bool)
      modifies this
      ensures accepted == Admits(old(lastEventTime), path, now)
      ensures lastEventTime == if accepted then old(lastEventTime)[path := now] else old(lastEventTime)
      ensures processing == old(processing) && tempFiles == old(tempFiles)
    {
      if path in lastEventTime {
        var timeDiff := now - lastEventTime[path];
        if timeDiff < DebounceDelayMs {
          return false;
        }
      }
      lastEventTime := lastEventTime[path := now];
      accepted := true;
    }

    /** `_cleanup_cache` at time now. */
    method CleanupCache(now: int)
      modifies this
      ensures lastEventTime == Cleanup(old(lastEventTime), now)
      ensures processing == old(processing) && tempFiles == old(tempFiles)
    {
      lastEventTime := Cleanup(lastEventTime, now);
    }

    /** `process_new_file` for the file `name`, with the glob the pass will
        see, the size polls before the timeout, the size read after it, and
        the time of the cache cleanup. */
    method ProcessNewFile(dir: Directory, listed: seq<string>, name: string,
                          polls: seq<Observation>, final: Observation, now: int) returns (result: Trigger)
      modifies this, dir
      requires Valid()
      ensures Valid()
      ensures result == Vanished <==> name !in old(dir.files)
      ensures result == AlreadyRenamed <==> name in old(dir.files) && IsCanonicalPng(prefix, name)
      ensures result == Busy <==> name in old(dir.files) && !IsCanonicalPng(prefix, name) && old(processing)
      ensures result == Unstable <==>
        name in old(dir.files) && !IsCanonicalPng(prefix, name) && !old(processing) && !Verdict(polls, final)
      ensures result == Reorganized ==>
        var r := AbortReorganize(old(dir.files), old(tempFiles), listed, prefix, AlwaysPng);
        dir.files == r.files && tempFiles == r.temps && lastEventTime == Cleanup(old(lastEventTime), now)
      ensures result != Reorganized ==>
        dir.files == old(dir.files) && tempFiles == old(tempFiles) && lastEventTime == old(lastEventTime)
      ensures result in {Vanished, AlreadyRenamed, Busy} ==> processing == old(processing)
      ensures result in {Unstable, Reorganized} ==> !processing
    {
      if !dir.Exists(name) {
        return Vanished;
      }
      if IsCanonicalPng(prefix, name) {
        return AlreadyRenamed;
      }
      if processing {
        return Busy;
      }
      processing := true;
      var stable := WaitFileStable(polls, final);
      if !stable {
        processing := false;
        return Unstable;
      }
      ReorganizeAllFiles(dir, listed);
      CleanupCache(now);
      processing := false;
      result := Reorganized;
    }

    /** `check_existing_files` over the glob result `listed`; returns the
        number of PNG files not in canonical form. */
    method CheckExistingFiles(dir: Directory, listed: seq<string>) returns (count: nat)
      modifies this, dir
      requires Valid()
      ensures Valid()
      ensures var c := GlobCheck(old(dir.files), old(tempFiles), listed, prefix, AlwaysPng);
        dir.files == c.outcome.files && tempFiles == c.outcome.temps && count == c.reported
      ensures unchanged(this`processing, this`lastEventTime)
    {
      if listed == [] {
        return 0;
      }
      var pending := CountNew(AlwaysPng, prefix, listed);
      if pending == 0 {
        return 0;
      }
      ReorganizeAllFiles(dir, listed);
      count := pending;
    }

    /** `reorganize_all_files` over the glob result `listed`. */
    method ReorganizeAllFiles(dir: Directory, listed: seq<string>)
      modifies this, dir
      requires Valid()
      ensures Valid()
      ensures var r := AbortReorganize(old(dir.files), old(tempFiles), listed, prefix, AlwaysPng);
        dir.files == r.files && tempFiles == r.temps
      ensures unchanged(this`processing, this`lastEventTime)
    {
      AbortReorganizeKeepsTempNames(dir.files, tempFiles, listed, prefix, AlwaysPng);
      if listed == [] {
        return;
      }
      if !AllPresent(dir.files, listed) {
        return;
      }
      AbortReorganizeRuns(dir.files, tempFiles, listed, prefix, AlwaysPng);
      var sorted := SortByCtime(Attach(dir.files, listed));
      var plan := BuildPlan(Names(sorted), prefix, AlwaysPng);
      if plan == [] {
        return;
      }
      var temps, ok, renamed := ApplyAbortOnError(dir, tempFiles, plan);
      tempFiles := temps;
    }
  }
}
