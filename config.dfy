// The configuration store: one record per watched folder, kept in a JSON
// object whose key is `f"{name}_{path}"` when the folder has a name and the
// bare path otherwise. Reading and writing the file is left out; the store is
// the object it holds, with its keys in insertion order as a Python dict keeps
// them.
module Config {
  import opened Optional

  /** One stored record. A field is absent when the file does not contain it;
      `save_prefix` always writes all four. */
  datatype Record = Record(path: Option<string>, name: Option<string>, prefix: Option<string>, lastUsed: Option<string>)

  /** The prefix used when nothing else is known. */
  const DefaultPrefix: string := "Horizon"

  /** `f"{name}_{path}" if name else path`. */
  function KeyFor(path: string, name: string): string {
    if name != "" then name + "_" + path else path
  }

  /** `name or "Horizon"`. */
  function FallbackPrefix(name: string): string {
    if name != "" then name else DefaultPrefix
  }

  /** Python truthiness of an optional string field. */
  predicate Given(f: Option<string>) {
    f.Some? && f.value != ""
  }

  /** `get_prefix(path, name)` / `get_saved_prefix` over the stored object. */
  function PrefixIn(configs: map<string, Record>, path: string, name: string): string {
    var key := KeyFor(path, name);
    if key in configs && configs[key].prefix.Some? then configs[key].prefix.value
    else FallbackPrefix(name)
  }

  /** The object after `save_prefix(path, name, prefix)` at time stamp. */
  function Saved(configs: map<string, Record>, path: string, name: string, prefix: string, stamp: string): map<string, Record> {
    configs[KeyFor(path, name) := Record(Some(path), Some(name), Some(prefix), Some(stamp))]
  }

  /** `get_paths` / `load_saved_paths`: records visited in key order, each with
      a non-empty name and path mapping that name to its path, a later record
      replacing an earlier one of the same name. */
  function PathsOf(keys: seq<string>, configs: map<string, Record>): map<string, string>
    requires forall k :: k in keys ==> k in configs
  {
    if keys == [] then map[]
    else
      var r := configs[keys[|keys| - 1]];
      var earlier := PathsOf(keys[..|keys| - 1], configs);
      if Given(r.name) && Given(r.path) then earlier[r.name.value := r.path.value] else earlier
  }

  /** The record under key k lists folder n with a non-empty path. */
  predicate Lists(configs: map<string, Record>, k: string, n: string)
    requires k in configs
  {
    Given(configs[k].name) && configs[k].name.value == n && Given(configs[k].path)
  }

  class ConfigManager {
    /** The keys of the stored object, in insertion order. */
    var keys: seq<string>
    var configs: map<string, Record>

    ghost predicate Valid()
      reads this
    {
      (forall k :: k in keys <==> k in configs) &&
      (forall i, j :: 0 <= i < j < |keys| ==> keys[i] != keys[j])
    }

    /** A store holding nothing, as after a missing configuration file. */
    constructor ()
      ensures Valid() && keys == [] && configs == map[]
    {
      keys := [];
      configs := map[];
    }

    function GetPrefix(path: string, name: string): string
      reads this
    {
      PrefixIn(configs, path, name)
    }

    function GetPaths(): map<string, string>
      reads this
      requires Valid()
    {
      PathsOf(keys, configs)
    }

    /** `save_prefix`: the record under the key is replaced (a new key goes
        last), with the given path, name, prefix and time stamp. */
    method SavePrefix(path: string, name: string, prefix: string, stamp: string)
      requires Valid()
      modifies this
      ensures Valid()
      ensures configs == Saved(old(configs), path, name, prefix, stamp)
      ensures keys == if KeyFor(path, name) in old(configs) then old(keys) else old(keys) + [KeyFor(path, name)]
      ensures GetPrefix(path, name) == prefix
    {
      var key := KeyFor(path, name);
      if key !in configs {
        keys := keys + [key];
      }
      configs := configs[key := Record(Some(path), Some(name), Some(prefix), Some(stamp))];
      SaveThenGet(old(configs), path, name, prefix, stamp);
    }

    /** The loop of the original variant's `load_saved_paths`. */
    method LoadSavedPaths() returns (paths: map<string, string>)
      requires Valid()
      ensures paths == GetPaths()
    {
      paths := map[];
      var i := 0;
      while i < |keys|
        invariant 0 <= i <= |keys|
        invariant paths == PathsOf(keys[..i], configs)
      {
        assert keys[..i + 1][..i] == keys[..i];
        var config := configs[keys[i]];
        if config.name.Some? && config.name.value != "" && config.path.Some? && config.path.value != "" {
          paths := paths[config.name.value := config.path.value];
        }
        i := i + 1;
      }
      assert keys[..|keys|] == keys;
    }
  }

  // ---------------------------------------------------------------------------
  // Properties of the store.

  /** Saving a prefix and reading it back for the same folder gives it back. */
  lemma SaveThenGet(configs: map<string, Record>, path: string, name: string, prefix: string, stamp: string)
    ensures PrefixIn(Saved(configs, path, name, prefix, stamp), path, name) == prefix
  {
  }

  /** Saving leaves the answer for every folder with a different key alone. */
  lemma SaveKeepsOthers(configs: map<string, Record>, path: string, name: string, prefix: string, stamp: string,
                        path2: string, name2: string)
    requires KeyFor(path2, name2) != KeyFor(path, name)
    ensures PrefixIn(Saved(configs, path, name, prefix, stamp), path2, name2) == PrefixIn(configs, path2, name2)
  {
  }

  /** A folder with no stored record falls back to its name, or to "Horizon"
      when it has none. */
  lemma MissingKeyFallsBack(configs: map<string, Record>, path: string, name: string)
    requires KeyFor(path, name) !in configs
    ensures PrefixIn(configs, path, name) == (if name != "" then name else "Horizon")
  {
  }

  /** The key is not injective: the folder named a at path `b_c` and the
      folder named `a_b` at path c share one key, and so do the unnamed folder
      at path `a_b` and the folder named a at path b. */
  lemma KeyCollides(a: string, b: string, c: string)
    requires a != ""
    ensures (b + "_" + c, a) != (c, a + "_" + b) && KeyFor(b + "_" + c, a) == KeyFor(c, a + "_" + b)
    ensures (a + "_" + b, "") != (b, a) && KeyFor(a + "_" + b, "") == KeyFor(b, a)
  {
    assert |a + "_" + b| > |a|;
    assert a + "_" + (b + "_" + c) == (a + "_" + b) + "_" + c;
  }

  /** So saving a prefix for one folder changes the prefix read for another. */
  lemma SaveOverwritesNeighbour(configs: map<string, Record>, a: string, b: string, c: string, prefix: string, stamp: string)
    requires a != ""
    ensures PrefixIn(Saved(configs, c, a + "_" + b, prefix, stamp), b + "_" + c, a) == prefix
  {
    KeyCollides(a, b, c);
  }

  /** `get_paths` lists a folder name exactly when some record lists it, and
      maps it to the path of the last such record in key order. */
  lemma {:induction false} PathsOfLast(keys: seq<string>, configs: map<string, Record>, n: string) returns (j: int)
    requires forall k :: k in keys ==> k in configs
    ensures -1 <= j < |keys| && (n in PathsOf(keys, configs) <==> j >= 0)
    ensures j >= 0 ==>
      Lists(configs, keys[j], n) && PathsOf(keys, configs)[n] == configs[keys[j]].path.value &&
      forall i :: j < i < |keys| ==> !Lists(configs, keys[i], n)
    ensures j < 0 ==> forall i :: 0 <= i < |keys| ==> !Lists(configs, keys[i], n)
    decreases |keys|
  {
    if keys == [] {
      j := -1;
    } else {
      var init := keys[..|keys| - 1];
      assert forall i :: 0 <= i < |init| ==> init[i] == keys[i];
      var last := keys[|keys| - 1];
      var r := configs[last];
      var earlier := PathsOf(init, configs);
      assert PathsOf(keys, configs) == if Given(r.name) && Given(r.path) then earlier[r.name.value := r.path.value] else earlier;
      if Lists(configs, last, n) {
        j := |keys| - 1;
      } else {
        j := PathsOfLast(init, configs, n);
      }
    }
  }
}
