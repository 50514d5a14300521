// The stability probe `wait_for_file_stable` / `_wait_file_stable`: it polls
// the size of a new file until it has seen the same positive size three polls
// in a row, gives up when the file vanishes or cannot be examined, and on
// timeout accepts any file with a positive size. The clock is abstracted away:
// the polls made before the timeout are an input sequence, and the size read
// after the timeout is one more observation.
module Stability {
  import opened Optional

  /** One poll: `exists()` is false, `stat()` raises, or `stat()` reports a size. */
  datatype Observation = Missing | StatError | Size(n: nat)

  predicate Fails(o: Observation) {
    o.Missing? || o.StatError?
  }

  /** The loop from the state (`last_size`, `stable_count`): the verdict when
      the loop returns, or None when the polls run out first. */
  function Probe(polls: seq<Observation>, last: int, count: nat): Option<bool>
    decreases |polls|
  {
    if polls == [] then None
    else match polls[0]
      case Missing => Some(false)
      case StatError => Some(false)
      case Size(n) =>
        if n > 0 && n == last then
          if count + 1 >= 2 then Some(true) else Probe(polls[1..], n, count + 1)
        else if n > 0 then Probe(polls[1..], n, 0)
        else Probe(polls[1..], n, count)
  }

  /** The probe's answer: the loop's verdict, or after the timeout whether the
      final size read is positive (a failing final read counts as not stable). */
  function Verdict(polls: seq<Observation>, final: Observation): bool {
    match Probe(polls, -1, 0)
    case Some(b) => b
    case None => final.Size? && final.n > 0
  }

  /** The probe as the handler runs it, starting from `last_size = -1` and
      `stable_count = 0`. */
  method WaitFileStable(polls: seq<Observation>, final: Observation) returns (stable: bool)
    ensures stable == Verdict(polls, final)
  {
    var lastSize: int := -1;
    var stableCount: nat := 0;
    var i := 0;
    while i < |polls|
      invariant 0 <= i <= |polls|
      invariant Probe(polls[i..], lastSize, stableCount) == Probe(polls, -1, 0)
    {
      var o := polls[i];
      assert polls[i..][0] == o && polls[i..][1..] == polls[i + 1..];
      if o.Missing? || o.StatError? {
        return false;
      }
      var currentSize := o.n;
      if currentSize > 0 {
        if currentSize == lastSize {
          stableCount := stableCount + 1;
          if stableCount >= 2 {
            return true;
          }
        } else {
          stableCount := 0;
        }
      }
      lastSize := currentSize;
      i := i + 1;
    }
    stable := final.Size? && final.n > 0;
  }

  // ---------------------------------------------------------------------------
  // What the verdict means.

  /** Polls i-2, i-1 and i report the same positive size. */
  predicate TripleAt(polls: seq<Observation>, i: nat) {
    2 <= i < |polls| && polls[i].Size? && polls[i].n > 0 &&
    polls[i - 2] == polls[i] && polls[i - 1] == polls[i]
  }

  predicate NoFailureBefore(polls: seq<Observation>, i: nat)
    requires i <= |polls|
  {
    forall j :: 0 <= j < i ==> !Fails(polls[j])
  }

  /** What the loop state records about the polls h it has consumed: the last
      size, and a pending count of one only right after two equal positive
      sizes (or a zero size, which the next positive size resets). */
  predicate Tracked(h: seq<Observation>, last: int, count: nat) {
    (forall j :: 0 <= j < |h| ==> !Fails(h[j])) &&
    (h == [] ==> last == -1 && count == 0) &&
    (h != [] ==> h[|h| - 1].Size? && last == h[|h| - 1].n) &&
    count <= 1 &&
    (count == 1 && last > 0 ==> |h| >= 2 && h[|h| - 2] == h[|h| - 1])
  }

  lemma {:induction false} TrueMeansTriple(h: seq<Observation>, rest: seq<Observation>, last: int, count: nat)
    returns (i: nat)
    requires Tracked(h, last, count)
    requires Probe(rest, last, count) == Some(true)
    ensures TripleAt(h + rest, i) && NoFailureBefore(h + rest, i)
    decreases |rest|
  {
    var o := rest[0];
    var h' := h + [o];
    assert h + rest == h' + rest[1..];
    assert (h + rest)[|h|] == o;
    assert forall j :: 0 <= j < |h| ==> (h + rest)[j] == h[j];
    var n := o.n;
    if n > 0 && n == last && count + 1 >= 2 {
      i := |h|;
      assert (h + rest)[i - 1] == h[|h| - 1] && (h + rest)[i - 2] == h[|h| - 2];
    } else if n > 0 && n == last {
      assert h'[|h'| - 2] == h[|h| - 1];
      i := TrueMeansTriple(h', rest[1..], n, count + 1);
    } else if n > 0 {
      i := TrueMeansTriple(h', rest[1..], n, 0);
    } else {
      i := TrueMeansTriple(h', rest[1..], n, count);
    }
  }

  /** Two equal positive sizes right after a poll of that size settle the probe. */
  lemma SettlesAfterPair(t: seq<Observation>, n: nat, count: nat)
    requires |t| >= 2 && n > 0 && t[0] == Size(n) && t[1] == Size(n)
    ensures Probe(t, n, count) == Some(true)
  {
    if count + 1 < 2 {
      assert t[1..][0] == Size(n);
    }
  }

  lemma {:induction false} TripleMeansTrue(rest: seq<Observation>, last: int, count: nat, i: nat)
    requires TripleAt(rest, i) && NoFailureBefore(rest, i)
    ensures Probe(rest, last, count) == Some(true)
    decreases i
  {
    var n := rest[0].n;
    assert !Fails(rest[0]);
    if Probe(rest, last, count) != Some(true) {
      var next: nat := if n > 0 && n == last then count + 1 else if n > 0 then 0 else count;
      assert Probe(rest, last, count) == Probe(rest[1..], n, next);
      if i == 2 {
        SettlesAfterPair(rest[1..], n, next);
      } else {
        assert TripleAt(rest[1..], i - 1) && NoFailureBefore(rest[1..], i - 1);
        TripleMeansTrue(rest[1..], n, next, i - 1);
      }
    }
  }

  lemma {:induction false} FalseMeansFailure(rest: seq<Observation>, last: int, count: nat) returns (j: nat)
    requires Probe(rest, last, count) == Some(false)
    ensures j < |rest| && Fails(rest[j])
    decreases |rest|
  {
    if !Fails(rest[0]) {
      var n := rest[0].n;
      var next: nat := if n > 0 && n == last then count + 1 else if n > 0 then 0 else count;
      var k := FalseMeansFailure(rest[1..], n, next);
      j := k + 1;
    } else {
      j := 0;
    }
  }

  lemma {:induction false} NoneMeansNoFailure(rest: seq<Observation>, last: int, count: nat)
    requires Probe(rest, last, count).None?
    ensures forall j :: 0 <= j < |rest| ==> !Fails(rest[j])
    decreases |rest|
  {
    if rest != [] {
      var n := rest[0].n;
      var next: nat := if n > 0 && n == last then count + 1 else if n > 0 then 0 else count;
      NoneMeansNoFailure(rest[1..], n, next);
      assert forall j :: 1 <= j < |rest| ==> rest[j] == rest[1..][j - 1];
    }
  }

  /** The probe accepts a file exactly when, before any failing poll, three
      polls in a row report the same positive size, or when no poll fails and
      the size read after the timeout is positive. */
  lemma VerdictCharacterized(polls: seq<Observation>, final: Observation)
    ensures Verdict(polls, final) <==>
      (exists i :: TripleAt(polls, i) && NoFailureBefore(polls, i)) ||
      ((forall j :: 0 <= j < |polls| ==> !Fails(polls[j])) && final.Size? && final.n > 0)
  {
    var p := Probe(polls, -1, 0);
    if p.Some? && p.value {
      assert [] + polls == polls;
      var i := TrueMeansTriple([], polls, -1, 0);
    } else if p.Some? {
      var j := FalseMeansFailure(polls, -1, 0);
      if exists i :: TripleAt(polls, i) && NoFailureBefore(polls, i) {
        var i :| TripleAt(polls, i) && NoFailureBefore(polls, i);
        TripleMeansTrue(polls, -1, 0, i);
      }
    } else {
      NoneMeansNoFailure(polls, -1, 0);
      if exists i :: TripleAt(polls, i) && NoFailureBefore(polls, i) {
        var i :| TripleAt(polls, i) && NoFailureBefore(polls, i);
        TripleMeansTrue(polls, -1, 0, i);
      }
    }
  }

  /** A file that vanishes or cannot be examined before its size has settled
      is rejected, whatever the polls after it would have shown. */
  lemma FailureBeforeSettlingRejects(polls: seq<Observation>, final: Observation, j: nat)
    requires j < |polls| && Fails(polls[j]) && NoFailureBefore(polls, j)
    requires forall i :: 0 <= i < j ==> !TripleAt(polls, i)
    ensures !Verdict(polls, final)
  {
    VerdictCharacterized(polls, final);
  }
}
