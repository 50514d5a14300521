// Ordering of the image files by creation time: Python's `list.sort(key=ctime)`,
// a stable sort on the creation time alone (no tie-break on the name).
module Ordering {

  /** A listed file as the planner sees it: its name and its creation time. */
  datatype File = File(name: string, ctime: int)

  predicate SortedByCtime(s: seq<File>) {
    forall i, j :: 0 <= i < j < |s| ==> s[i].ctime <= s[j].ctime
  }

  /** The files of s created at time c, in their order in s. */
  function CreatedAt(s: seq<File>, c: int): (r: seq<File>)
    ensures |r| <= |s|
  {
    if s == [] then []
    else if s[0].ctime == c then [s[0]] + CreatedAt(s[1..], c)
    else CreatedAt(s[1..], c)
  }

  function Names(s: seq<File>): (r: seq<string>)
    ensures |r| == |s|
    ensures forall i :: 0 <= i < |s| ==> r[i] == s[i].name
  {
    seq(|s|, i requires 0 <= i < |s| => s[i].name)
  }

  /** x goes in front of the first file not created before it. */
  function Insert(x: File, s: seq<File>): (r: seq<File>)
    requires SortedByCtime(s)
    ensures SortedByCtime(r)
    ensures multiset(r) == multiset(s) + multiset{x}
    ensures |r| == |s| + 1
  {
    if s == [] then [x]
    else if x.ctime <= s[0].ctime then [x] + s
    else
      var rest := Insert(x, s[1..]);
      SortedTail(s);
      BoundedBelow(rest, s[1..], x, s[0].ctime);
      ConsSorted(s[0], rest);
      assert multiset([s[0]] + rest) == multiset{s[0]} + multiset(rest);
      assert multiset(s) == multiset{s[0]} + multiset(s[1..]) by { assert s == [s[0]] + s[1..]; }
      [s[0]] + rest
  }

  lemma SortedTail(s: seq<File>)
    requires SortedByCtime(s) && s != []
    ensures SortedByCtime(s[1..])
    ensures forall i :: 0 <= i < |s[1..]| ==> s[0].ctime <= s[1..][i].ctime
  {
    assert forall i :: 0 <= i < |s[1..]| ==> s[1..][i] == s[i + 1];
  }

  lemma ConsSorted(h: File, rest: seq<File>)
    requires SortedByCtime(rest)
    requires forall i :: 0 <= i < |rest| ==> h.ctime <= rest[i].ctime
    ensures SortedByCtime([h] + rest)
  {
    var r := [h] + rest;
    forall i, j | 0 <= i < j < |r| ensures r[i].ctime <= r[j].ctime {
      assert r[j] == rest[j - 1];
      if i > 0 {
        assert r[i] == rest[i - 1];
      }
    }
  }

  /** Every file of r is created no earlier than c when r holds the files of t
      and x, all of them created no earlier than c. */
  lemma BoundedBelow(r: seq<File>, t: seq<File>, x: File, c: int)
    requires multiset(r) == multiset(t) + multiset{x}
    requires forall i :: 0 <= i < |t| ==> c <= t[i].ctime
    requires c <= x.ctime
    ensures forall i :: 0 <= i < |r| ==> c <= r[i].ctime
  {
    forall i | 0 <= i < |r| ensures c <= r[i].ctime {
      assert r[i] in multiset(r);
      if r[i] != x {
        assert r[i] in multiset(t);
        var k :| 0 <= k < |t| && t[k] == r[i];
      }
    }
  }

  /** Python's `sorted(key=ctime)` / `list.sort(key=ctime)`: a sorted
      permutation of the listing. Stability is lemma SortKeepsTies. */
  function SortByCtime(s: seq<File>): (r: seq<File>)
    ensures SortedByCtime(r)
    ensures multiset(r) == multiset(s)
    ensures |r| == |s|
  {
    if s == [] then []
    else
      assert s == [s[0]] + s[1..];
      Insert(s[0], SortByCtime(s[1..]))
  }

  lemma {:induction false} InsertKeepsTies(x: File, s: seq<File>, c: int)
    requires SortedByCtime(s)
    ensures CreatedAt(Insert(x, s), c) == if x.ctime == c then [x] + CreatedAt(s, c) else CreatedAt(s, c)
    decreases |s|
  {
    if s == [] {
      assert CreatedAt([x], c) == if x.ctime == c then [x] + CreatedAt([], c) else CreatedAt([], c);
    } else if x.ctime <= s[0].ctime {
      assert ([x] + s)[0] == x && ([x] + s)[1..] == s;
    } else {
      var rest := Insert(x, s[1..]);
      assert Insert(x, s) == [s[0]] + rest;
      assert ([s[0]] + rest)[0] == s[0] && ([s[0]] + rest)[1..] == rest;
      InsertKeepsTies(x, s[1..], c);
    }
  }

  /** Stability: the files created at the same time come out in listing order. */
  lemma {:induction false} SortKeepsTies(s: seq<File>, c: int)
    ensures CreatedAt(SortByCtime(s), c) == CreatedAt(s, c)
    decreases |s|
  {
    if s != [] {
      SortKeepsTies(s[1..], c);
      InsertKeepsTies(s[0], SortByCtime(s[1..]), c);
    }
  }

  predicate StrictlySortedByCtime(s: seq<File>) {
    forall i, j :: 0 <= i < j < |s| ==> s[i].ctime < s[j].ctime
  }

  /** With pairwise distinct creation times there is only one sorted order, so
      sorting any permutation of a sorted listing gives that listing back. */
  lemma {:induction false} SortedPermutationUnique(a: seq<File>, b: seq<File>)
    requires SortedByCtime(a) && StrictlySortedByCtime(b)
    requires multiset(a) == multiset(b)
    ensures a == b
    decreases |a|
  {
    assert |a| == |multiset(a)| == |multiset(b)| == |b|;
    if |a| > 0 {
      SameHead(a, b);
      SameTails(a, b);
      SortedTail(a);
      assert StrictlySortedByCtime(b[1..]) by {
        assert forall i :: 0 <= i < |b[1..]| ==> b[1..][i] == b[i + 1];
      }
      SortedPermutationUnique(a[1..], b[1..]);
      assert a == [a[0]] + a[1..] && b == [b[0]] + b[1..];
    }
  }

  /** The earliest file of a strictly ordered listing leads every sorted
      permutation of it. */
  lemma SameHead(a: seq<File>, b: seq<File>)
    requires SortedByCtime(a) && StrictlySortedByCtime(b)
    requires multiset(a) == multiset(b) && |a| > 0 && |b| > 0
    ensures a[0] == b[0]
  {
    assert a[0] in multiset(b);
    var m :| 0 <= m < |b| && b[m] == a[0];
    assert b[0] in multiset(a);
    var k :| 0 <= k < |a| && a[k] == b[0];
    assert a[0].ctime <= a[k].ctime;
  }

  lemma SameTails(a: seq<File>, b: seq<File>)
    requires multiset(a) == multiset(b) && |a| > 0 && |b| > 0 && a[0] == b[0]
    ensures multiset(a[1..]) == multiset(b[1..])
  {
    assert a == [a[0]] + a[1..] && b == [b[0]] + b[1..];
    assert multiset(a) == multiset{a[0]} + multiset(a[1..]);
    assert multiset(b) == multiset{a[0]} + multiset(b[1..]);
    assert multiset(a[1..]) == multiset(a) - multiset{a[0]};
    assert multiset(b[1..]) == multiset(b) - multiset{a[0]};
  }

  /** Two files listed in creation-time order, or created at the same instant,
      stay in listing order. */
  lemma PairKeepsOrder(a: File, b: File)
    requires a.ctime <= b.ctime
    ensures SortByCtime([a, b]) == [a, b]
  {
    assert [a, b][1..] == [b];
    assert SortByCtime([b]) == [b] by { assert [b][1..] == []; }
  }
}
