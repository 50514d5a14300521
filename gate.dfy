// The event gate of the handlers: which watchdog events reach
// `_debounced_process`, the per-path debounce over `last_event_time`, and the
// eviction of old entries from that cache. The directory is watched without
// recursion, so an event path is modelled by the file name it ends in. Time
// is in integer milliseconds.
module Gate {
  import opened Text
  import opened Naming

  /** `debounce_delay = 1.5` seconds. */
  const DebounceDelayMs: int := 1500

  /** The cache keeps entries for `debounce_delay * 5`. */
  const CacheWindowMs: int := 5 * DebounceDelayMs

  /** A watchdog event: whether it concerns a directory, its `src_path`, and
      its `dest_path` (meaningful for a move only). */
  datatype Event = Event(isDirectory: bool, src: string, dest: string)

  // ---------------------------------------------------------------------------
  // Which events go on to the debounce, per variant and event kind.

  /** Original variant, `on_created`: an image extension, not a `TEMP_` name
      and not a temporary name the handler created. */
  predicate OriginalCreatedPasses(e: Event, temps: set<string>) {
    !e.isDirectory && HasImageExtension(e.src) && !IsTempName(e.src) && e.src !in temps
  }

  /** Original variant, `on_modified`: as `on_created`, and the name is not
      already canonical. */
  predicate OriginalModifiedPasses(e: Event, prefix: string, temps: set<string>) {
    !e.isDirectory && HasImageExtension(e.src) && !IsTempName(e.src) && e.src !in temps &&
    !IsCanonicalImage(prefix, e.src)
  }

  /** Original variant, `on_moved`: an image destination not named `TEMP_`;
      this handler does not consult `temp_files`. */
  predicate OriginalMovedPasses(e: Event) {
    !e.isDirectory && HasImageExtension(e.dest) && !IsTempName(e.dest)
  }

  /** Corrected variant, `_should_process_file`. */
  predicate ShouldProcessImage(path: string, temps: set<string>) {
    HasImageExtension(path) && !(IsTempName(path) || path in temps)
  }

  /** PNG-only variant, `_should_process_file`. */
  predicate ShouldProcessPng(path: string, temps: set<string>) {
    HasPngExtension(path) && !(IsTempName(path) || path in temps)
  }

  /** How `process_new_file` ends: the file is gone, it already has a
      canonical name, another pass holds the `processing` flag, the file never
      became stable, or a reorganisation pass ran. */
  datatype Trigger = Vanished | AlreadyRenamed | Busy | Unstable | Reorganized

  // ---------------------------------------------------------------------------
  // Debounce and cache eviction.

  /** `_debounced_process` lets an event through unless the same path was
      accepted less than `debounce_delay` ago. */
  predicate Admits(last: map<string, int>, path: string, now: int) {
    path !in last || now - last[path] >= DebounceDelayMs
  }

  /** `_cleanup_cache` / `_cleanup_event_cache` at time now: only the entries
      newer than now minus five delays survive, with their timestamps. */
  function Cleanup(last: map<string, int>, now: int): (r: map<string, int>)
    ensures forall k :: k in r <==> k in last && last[k] > now - CacheWindowMs
    ensures forall k :: k in r ==> r[k] == last[k]
  {
    map k | k in last && last[k] > now - CacheWindowMs :: last[k]
  }

  /** After an event for path is accepted at time t, a later event for the
      same path gets through exactly when the delay has passed, and the
      decision for every other path is what it was. */
  lemma AcceptanceWindow(last: map<string, int>, path: string, t: int, q: string, now: int)
    ensures q == path ==> (Admits(last[path := t], q, now) <==> now >= t + DebounceDelayMs)
    ensures q != path ==> (Admits(last[path := t], q, now) <==> Admits(last, q, now))
  {
  }

  /** Eviction never changes a later debounce decision: an evicted entry is
      so old that its path would be let through anyway. */
  lemma CleanupKeepsDecisions(last: map<string, int>, cleanedAt: int, path: string, now: int)
    requires now >= cleanedAt
    ensures Admits(Cleanup(last, cleanedAt), path, now) == Admits(last, path, now)
  {
    var r := Cleanup(last, cleanedAt);
    if path in last && path !in r {
      assert last[path] <= cleanedAt - CacheWindowMs;
    }
  }

  /** No handler of any variant passes an event for a name starting `TEMP_`,
      which is the shape of every temporary name the planner hands out. */
  lemma TempEventsIgnored(e: Event, prefix: string, temps: set<string>)
    requires IsTempName(e.src) && IsTempName(e.dest)
    ensures !OriginalCreatedPasses(e, temps) && !OriginalModifiedPasses(e, prefix, temps) && !OriginalMovedPasses(e)
    ensures !ShouldProcessImage(e.src, temps) && !ShouldProcessImage(e.dest, temps)
    ensures !ShouldProcessPng(e.src, temps) && !ShouldProcessPng(e.dest, temps)
  {
  }
  /** While `temp_files` holds only `TEMP_` names, consulting it changes no
      decision: the original `on_moved`, which does not, filters like
      `on_created`, and `_should_process_file` reduces to its extension and
      prefix tests. */
  lemma TempSetRedundant(e: Event, temps: set<string>)
    requires AllTempNames(temps)
    ensures OriginalCreatedPasses(e, temps) <==> !e.isDirectory && HasImageExtension(e.src) && !IsTempName(e.src)
    ensures OriginalCreatedPasses(Event(e.isDirectory, e.dest, e.dest), temps) <==> OriginalMovedPasses(e)
    ensures ShouldProcessImage(e.src, temps) <==> HasImageExtension(e.src) && !IsTempName(e.src)
    ensures ShouldProcessPng(e.src, temps) <==> HasPngExtension(e.src) && !IsTempName(e.src)
  {
  }
}
