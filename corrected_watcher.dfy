// The corrected variant's `ImageRenameHandler`: PNG, JPG and JPEG images, a
// case-insensitive canonical test, enumeration through the resolver, and a
// renaming pass that skips each failing rename and carries on.
module CorrectedWatcher {
  import opened Optional
  import opened Naming
  import opened Ordering
  import opened Planner
  import opened FileSystem
  import opened Apply
  import opened Resolver
  import opened Gate
  import opened Stability
  import opened Reconcile
  import opened Startup
  import opened TempNames

  class ImageRenameHandler {
    const prefix: string
    /** The single-flight flag: true while a pass is under way. */
    var processing: bool
    /** `last_event_time`: when an event for each path was last accepted. */
    var lastEventTime: map<string, int>
    /** `temp_files`: the temporary names the handler has handed out. */
    var tempFiles: set<string>

    /** `temp_files` holds only names of the temporary shape. */
    predicate Valid()
      reads this
    {
      AllTempNames(tempFiles)
    }

    constructor (prefix: string)
      ensures Valid()
      ensures this.prefix == prefix && !processing && lastEventTime == map[] && tempFiles == {}
    {
      this.prefix := prefix;
      processing := false;
      lastEventTime := map[];
      tempFiles := {};
    }

    /** `_handle_file_event`: events that pass `_should_process_file` go on
        to the debounce. */
    method HandleFileEvent(path: string, now: int) returns (accepted: bool)
      modifies this
      ensures accepted <==> ShouldProcessImage(path, old(tempFiles)) && Admits(old(lastEventTime), path, now)
      ensures lastEventTime == if accepted then old(lastEventTime)[path := now] else old(lastEventTime)
      ensures processing == old(processing) && tempFiles == old(tempFiles)
    {
      accepted := false;
      if ShouldProcessImage(path, tempFiles) {
        accepted := DebouncedProcess(path, now);
      }
    }

    /** `on_created`; `accepted` says whether a worker was started. */
    method OnCreated(e: Event, now: int) returns (accepted: bool)
      modifies this
      ensures accepted <==> !e.isDirectory && ShouldProcessImage(e.src, old(tempFiles)) && Admits(old(lastEventTime), e.src, now)
      ensures lastEventTime == if accepted then old(lastEventTime)[e.src := now] else old(lastEventTime)
      ensures processing == old(processing) && tempFiles == old(tempFiles)
    {
      accepted := false;
      if !e.isDirectory {
        accepted := HandleFileEvent(e.src, now);
      }
    }

    /** `on_modified`: events for names already in canonical form are dropped. */
    method OnModified(e: Event, now: int) returns (accepted: bool)
      modifies this
      ensures accepted <==>
        !e.isDirectory && !IsCanonicalImage(prefix, e.src) && ShouldProcessImage(e.src, old(tempFiles)) &&
        Admits(old(lastEventTime), e.src, now)
      ensures lastEventTime == if accepted then old(lastEventTime)[e.src := now] else old(lastEventTime)
      ensures processing == old(processing) && tempFiles == old(tempFiles)
    {
      accepted := false;
      if !e.isDirectory && !IsCanonicalImage(prefix, e.src) {
        accepted := HandleFileEvent(e.src, now);
      }
    }

    /** `on_moved`: the destination name goes through the same filter. */
    method OnMoved(e: Event, now: int) returns (accepted: bool)
      modifies this
      ensures accepted <==> !e.isDirectory && ShouldProcessImage(e.dest, old(tempFiles)) && Admits(old(lastEventTime), e.dest, now)
      ensures lastEventTime == if accepted then old(lastEventTime)[e.dest := now] else old(lastEventTime)
      ensures processing == old(processing) && tempFiles == old(tempFiles)
    {
      accepted := false;
      if !e.isDirectory {
        accepted := HandleFileEvent(e.dest, now);
      }
    }

    /** `_debounced_process` at time now (milliseconds). */
    method DebouncedProcess(path: string, now: int) returns (accepted: bool)
      modifies this
      ensures accepted == Admits(old(lastEventTime), path, now)
      ensures lastEventTime == if accepted then old(lastEventTime)[path := now] else old(lastEventTime)
      ensures processing == old(processing) && tempFiles == old(tempFiles)
    {
      if path in lastEventTime {
        var timeDiff := now - lastEventTime[path];
        if timeDiff < DebounceDelayMs {
          return false;
        }
      }
      lastEventTime := lastEventTime[path := now];
      accepted := true;
    }

    /** `_cleanup_cache` at time now. */
    method CleanupCache(now: int)
      modifies this
      ensures lastEventTime == Cleanup(old(lastEventTime), now)
      ensures processing == old(processing) && tempFiles == old(tempFiles)
    {
      lastEventTime := Cleanup(lastEventTime, now);
    }

    /** `process_new_file` for the file `name`, with the directory listing
        the pass will see, the size polls before the timeout, the size read after it, and
        the time of the cache cleanup. */
    method ProcessNewFile(dir: Directory, listing: Option<seq<Entry>>, name: string,
                          polls: seq<Observation>, final: Observation, now: int) returns (result: Trigger)
      modifies this, dir
      requires Valid()
      ensures Valid()
      ensures result == Vanished <==> name !in old(dir.files)
      ensures result == AlreadyRenamed <==> name in old(dir.files) && IsCanonicalImage(prefix, name)
      ensures result == Busy <==> name in old(dir.files) && !IsCanonicalImage(prefix, name) && old(processing)
      ensures result == Unstable <==>
        name in old(dir.files) && !IsCanonicalImage(prefix, name) && !old(processing) && !Verdict(polls, final)
      ensures result == Reorganized ==>
        var r := PerEntryReorganize(old(dir.files), old(tempFiles), listing, prefix);
        dir.files == r.files && tempFiles == r.temps && lastEventTime == Cleanup(old(lastEventTime), now)
      ensures result != Reorganized ==>
        dir.files == old(dir.files) && tempFiles == old(tempFiles) && lastEventTime == old(lastEventTime)
      ensures result in {Vanished, AlreadyRenamed, Busy} ==> processing == old(processing)
      ensures result in {Unstable, Reorganized} ==> !processing
    {
      if !dir.Exists(name) {
        return Vanished;
      }
      if IsCanonicalImage(prefix, name) {
        return AlreadyRenamed;
      }
      if processing {
        return Busy;
      }
      processing := true;
      var stable := WaitFileStable(polls, final);
      if !stable {
        processing := false;
        return Unstable;
      }
      ReorganizeAllFiles(dir, listing);
      CleanupCache(now);
      processing := false;
      result := Reorganized;
    }

    /** `check_existing_files` over the directory listing; returns the number
        of real images not in canonical form. */
    method CheckExistingFiles(dir: Directory, listing: Option<seq<Entry>>) returns (count: nat)
      modifies this, dir
      requires Valid()
      ensures Valid()
      ensures var c := ResolvedCheck(old(dir.files), old(tempFiles), listing, prefix);
        dir.files == c.outcome.files && tempFiles == c.outcome.temps && count == c.reported
      ensures unchanged(this`processing, this`lastEventTime)
    {
      var existing := GetRealImageFiles(listing);
      assert existing == RealNames(listing);
      if existing == [] {
        return 0;
      }
      count := CountNew(KeepLowered, prefix, existing);
      ReorganizeAllFiles(dir, listing);
    }

    /** `reorganize_all_files` over the directory listing. */
    method ReorganizeAllFiles(dir: Directory, listing: Option<seq<Entry>>)
      modifies this, dir
      requires Valid()
      ensures Valid()
      ensures var r := PerEntryReorganize(old(dir.files), old(tempFiles), listing, prefix);
        dir.files == r.files && tempFiles == r.temps
      ensures unchanged(this`processing, this`lastEventTime)
    {
      var existing := GetRealImageFiles(listing);
      assert existing == RealNames(listing);
      ReorganizeFound(dir, existing);
    }

    /** The body of `reorganize_all_files` once the resolver has returned. */
    method ReorganizeFound(dir: Directory, existing: seq<string>)
      modifies this, dir
      requires Valid()
      ensures Valid()
      ensures var r := PerEntryReorganizeOver(old(dir.files), old(tempFiles), existing, prefix);
        dir.files == r.files && tempFiles == r.temps
      ensures unchanged(this`processing, this`lastEventTime)
    {
      PerEntryReorganizeKeepsTempNames(dir.files, tempFiles, existing, prefix);
      PerEntryReorganizeOf(dir.files, tempFiles, existing, prefix);
      if existing == [] {
        return;
      }
      if !AllPresent(dir.files, existing) {
        return;
      }
      var sorted := SortByCtime(Attach(dir.files, existing));
      var plan := BuildPlan(Names(sorted), prefix, KeepLowered);
      if plan == [] {
        return;
      }
      var temps, renamed := ApplyPerEntry(dir, tempFiles, plan);
      tempFiles := temps;
    }
  }
}
