// The corrected variant's `get_real_image_files`: it enumerates the directory
// with `os.listdir` and keeps only the entries that are really accessible
// image files, skipping every entry whose checks fail instead of raising.
module Resolver {
  import opened Optional
  import opened Naming

  /** What the resolver can learn about one listed entry: what `is_file()`
      answers (absent when it raises), whether `exists()` still holds
      (`present`), the size `stat()` reports (absent when `stat()` raises), and
      whether opening the file and reading one byte succeeds. */
  datatype Entry = Entry(name: string, isFile: Option<bool>, present: bool, size: Option<nat>, readable: bool)

  /** All the checks an entry must pass, in the order the resolver makes them:
      a regular file, an image extension (case-insensitive), still present,
      `stat()` succeeds with a positive size, and one byte can be read. */
  predicate IsRealImage(e: Entry) {
    e.isFile == Some(true) && HasImageExtension(e.name) && e.present &&
    e.size.Some? && e.size.value > 0 && e.readable
  }

  /** `is_file()` is called outside the per-entry `try`: when it raises, the
      error reaches the outer handler and the loop ends there. */
  predicate Halted(entries: seq<Entry>) {
    entries != [] && (Halted(entries[..|entries| - 1]) || entries[|entries| - 1].isFile.None?)
  }

  /** The names of the entries that pass, in listing order, up to the first
      entry whose `is_file()` raises. */
  function RealImages(entries: seq<Entry>): seq<string> {
    if entries == [] then []
    else
      var init, last := entries[..|entries| - 1], entries[|entries| - 1];
      RealImages(init) + (if !Halted(init) && IsRealImage(last) then [last.name] else [])
  }

  /** `get_real_image_files(directory)`. The listing is absent when
      `os.listdir` raises; the error is reported and the result is empty. An
      `is_file()` that raises ends the loop, and the names collected so far
      are returned. */
  method GetRealImageFiles(listing: Option<seq<Entry>>) returns (realFiles: seq<string>)
    ensures listing.None? ==> realFiles == []
    ensures listing.Some? ==> realFiles == RealImages(listing.value)
  {
    realFiles := [];
    if listing.None? {
      return;
    }
    var entries := listing.value;
    var i := 0;
    while i < |entries|
      invariant 0 <= i <= |entries|
      invariant realFiles == RealImages(entries[..i]) && !Halted(entries[..i])
    {
      var e := entries[i];
      if e.isFile.None? {
        StopsAtRaise(entries, i);
        return;
      }
      assert entries[..i + 1][..i] == entries[..i] && entries[..i + 1][i] == e;
      HaltedSnoc(entries[..i], e);
      // a directory, a wrong extension, a vanished or empty file, a failing
      // `stat()` or an unreadable byte: skip the entry
      if IsRealImage(e) {
        realFiles := realFiles + [e.name];
      }
      i := i + 1;
    }
    assert entries[..i] == entries;
  }

  lemma HaltedSnoc(init: seq<Entry>, e: Entry)
    ensures Halted(init + [e]) <==> Halted(init) || e.isFile.None?
  {
    assert (init + [e])[..|init|] == init;
  }

  lemma {:induction false} HaltedAppend(a: seq<Entry>, b: seq<Entry>)
    ensures Halted(a + b) <==> Halted(a) || Halted(b)
    decreases |b|
  {
    if b == [] {
      assert a + b == a;
    } else {
      var init := b[..|b| - 1];
      assert (a + b)[..|a + b| - 1] == a + init;
      assert (a + b)[|a + b| - 1] == b[|b| - 1];
      HaltedAppend(a, init);
    }
  }

  /** An entry whose `is_file()` raises halts every listing it belongs to. */
  lemma {:induction false} HaltedAt(entries: seq<Entry>, i: nat)
    requires i < |entries| && entries[i].isFile.None?
    ensures Halted(entries)
  {
    assert entries == entries[..i] + [entries[i]] + entries[i + 1..];
    HaltedSnoc(entries[..i], entries[i]);
    HaltedAppend(entries[..i] + [entries[i]], entries[i + 1..]);
  }

  /** Filtering a listing in two halves gives the two results one after the
      other, unless an `is_file()` in the first half raised: the result keeps
      listing order. */
  lemma {:induction false} RealImagesAppend(a: seq<Entry>, b: seq<Entry>)
    ensures RealImages(a + b) == RealImages(a) + (if Halted(a) then [] else RealImages(b))
    decreases |b|
  {
    if b == [] {
      assert a + b == a;
    } else {
      var init, last := b[..|b| - 1], b[|b| - 1];
      assert (a + b)[..|a + b| - 1] == a + init;
      assert (a + b)[|a + b| - 1] == last;
      RealImagesAppend(a, init);
      HaltedAppend(a, init);
    }
  }

  /** Nothing listed from an entry whose `is_file()` raises onwards is
      returned. */
  lemma {:induction false} NothingAfterRaise(b: seq<Entry>)
    requires b != [] && b[0].isFile.None?
    ensures RealImages(b) == []
    decreases |b|
  {
    var init := b[..|b| - 1];
    if init != [] {
      assert init[0] == b[0];
      NothingAfterRaise(init);
      HaltedAt(init, 0);
    } else {
      assert b[|b| - 1] == b[0];
    }
  }

  /** The names collected before an entry whose `is_file()` raises are the
      whole result. */
  lemma StopsAtRaise(entries: seq<Entry>, i: nat)
    requires i < |entries| && entries[i].isFile.None?
    ensures RealImages(entries) == RealImages(entries[..i])
  {
    assert entries == entries[..i] + entries[i..];
    RealImagesAppend(entries[..i], entries[i..]);
    NothingAfterRaise(entries[i..]);
  }

  /** The entry at position i has name n, passes every check, and no entry
      before it made `is_file()` raise. */
  predicate ReturnedAt(entries: seq<Entry>, i: int, n: string) {
    0 <= i < |entries| && IsRealImage(entries[i]) && entries[i].name == n && !Halted(entries[..i])
  }

  /** A name is returned exactly when some listed entry of that name passes
      every check and no entry before it made `is_file()` raise. */
  lemma {:induction false} RealImagesMembership(entries: seq<Entry>, n: string)
    ensures n in RealImages(entries) <==> exists i :: ReturnedAt(entries, i, n)
    decreases |entries|
  {
    if entries != [] {
      var init, last := entries[..|entries| - 1], entries[|entries| - 1];
      RealImagesMembership(init, n);
      assert entries[..|init|] == init;
      if n in RealImages(entries) {
        if n in RealImages(init) {
          var i :| ReturnedAt(init, i, n);
          assert entries[..i] == init[..i];
          assert ReturnedAt(entries, i, n);
        } else {
          assert ReturnedAt(entries, |init|, n);
        }
      } else {
        forall i | ReturnedAt(entries, i, n) ensures false {
          if i < |init| {
            assert entries[..i] == init[..i];
            assert ReturnedAt(init, i, n);
          }
        }
      }
    }
  }

  /** An entry that lists and stats but cannot be read never comes back as a
      real image, provided no other entry has its name. */
  lemma UnreadableSkipped(entries: seq<Entry>, i: nat)
    requires i < |entries| && !entries[i].readable
    requires forall j :: 0 <= j < |entries| && j != i ==> entries[j].name != entries[i].name
    ensures entries[i].name !in RealImages(entries)
  {
    RealImagesMembership(entries, entries[i].name);
  }

  /** Every returned name carries an image extension. */
  lemma RealImagesAreImages(entries: seq<Entry>)
    ensures forall n :: n in RealImages(entries) ==> HasImageExtension(n)
  {
    forall n | n in RealImages(entries) ensures HasImageExtension(n) {
      RealImagesMembership(entries, n);
    }
  }

  lemma RealImagesOfPair(a: Entry, b: Entry)
    requires IsRealImage(a) && IsRealImage(b)
    ensures RealImages([a, b]) == [a.name, b.name]
  {
    assert [a, b][..1] == [a] && [a, b][1] == b;
    assert RealImages([a]) == [a.name] by {
      assert [a][..0] == [] && [a][0] == a;
      assert !Halted([]);
    }
    assert !Halted([a]);
  }
}
