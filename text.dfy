// String helpers shared by the naming rules: ASCII lower-casing, prefix and
// suffix tests, decimal rendering with Python's `%02d` padding, and the
// `suffix` of a file name as pathlib computes it.
module Text {

  predicate IsDigit(c: char) {
    '0' <= c <= '9'
  }

  predicate AllDigits(s: string) {
    forall i :: 0 <= i < |s| ==> IsDigit(s[i])
  }

  function LowerChar(c: char): (d: char)
    ensures IsDigit(d) <==> IsDigit(c)
    ensures (d == '.') <==> (c == '.')
    ensures (d == '_') <==> (c == '_')
    ensures d == '\n' <==> c == '\n'
  {
    if 'A' <= c <= 'Z' then (c as int + 32) as char else c
  }

  /** ASCII lower-casing, character by character (Python's `str.lower` on ASCII text). */
  function Lower(s: string): (r: string)
    ensures |r| == |s|
    ensures forall i :: 0 <= i < |s| ==> r[i] == LowerChar(s[i])
  {
    seq(|s|, i requires 0 <= i < |s| => LowerChar(s[i]))
  }

  lemma LowerConcat(a: string, b: string)
    ensures Lower(a + b) == Lower(a) + Lower(b)
  {
    assert forall i :: 0 <= i < |a + b| ==> Lower(a + b)[i] == (Lower(a) + Lower(b))[i];
  }

  lemma LowerOfDigits(s: string)
    requires AllDigits(s)
    ensures Lower(s) == s
  {
  }

  lemma LowerIdempotent(s: string)
    ensures Lower(Lower(s)) == Lower(s)
  {
  }

  predicate StartsWith(s: string, p: string) {
    |p| <= |s| && s[..|p|] == p
  }

  predicate EndsWith(s: string, p: string) {
    |p| <= |s| && s[|s| - |p|..] == p
  }

  function DigitChar(d: nat): (c: char)
    requires d < 10
    ensures IsDigit(c)
  {
    ['0', '1', '2', '3', '4', '5', '6', '7', '8', '9'][d]
  }

  lemma DigitCharInjective(a: nat, b: nat)
    requires a < 10 && b < 10 && DigitChar(a) == DigitChar(b)
    ensures a == b
  {
  }

  /** The decimal rendering of n, most significant digit first, no leading zeros. */
  function Decimal(n: nat): (r: string)
    ensures 1 <= |r|
    ensures AllDigits(r)
    ensures n < 10 <==> |r| == 1
    decreases n
  {
    if n < 10 then [DigitChar(n)] else Decimal(n / 10) + [DigitChar(n % 10)]
  }

  lemma {:induction false} DecimalInjective(a: nat, b: nat)
    requires Decimal(a) == Decimal(b)
    ensures a == b
    decreases a
  {
    if a < 10 || b < 10 {
      if a < 10 && b < 10 {
        DigitCharInjective(a, b);
      } else {
        assert false;
      }
    } else {
      var da, db := Decimal(a / 10), Decimal(b / 10);
      assert Decimal(a) == da + [DigitChar(a % 10)];
      assert Decimal(b) == db + [DigitChar(b % 10)];
      assert |da| == |db|;
      assert da == Decimal(a)[..|da|] == Decimal(b)[..|db|] == db;
      assert DigitChar(a % 10) == Decimal(a)[|da|] == Decimal(b)[|db|] == DigitChar(b % 10);
      DecimalInjective(a / 10, b / 10);
      DigitCharInjective(a % 10, b % 10);
    }
  }

  /** A number below 10^k has at most k decimal digits. */
  lemma {:induction false} DecimalLengthBound(n: nat, k: nat, bound: nat)
    requires 1 <= k && bound == Pow10(k) && n < bound
    ensures |Decimal(n)| <= k
    decreases k
  {
    if n >= 10 {
      assert k != 1;
      assert Pow10(k) == 10 * Pow10(k - 1);
      DecimalLengthBound(n / 10, k - 1, Pow10(k - 1));
    }
  }

  function Pow10(k: nat): (r: nat)
    ensures r >= 1
  {
    if k == 0 then 1 else 10 * Pow10(k - 1)
  }

  /** Python's `f"{n:02d}"` for a non-negative n: zero-padded to width two, never truncated. */
  function Pad2(n: nat): (r: string)
    ensures 2 <= |r|
    ensures AllDigits(r)
  {
    if n < 10 then ['0'] + Decimal(n) else Decimal(n)
  }

  lemma Pad2Injective(a: nat, b: nat)
    requires Pad2(a) == Pad2(b)
    ensures a == b
  {
    if a < 10 && b < 10 {
      assert Decimal(a) == Pad2(a)[1..] == Pad2(b)[1..] == Decimal(b);
      DecimalInjective(a, b);
    } else if a >= 10 && b >= 10 {
      DecimalInjective(a, b);
    } else if a < 10 {
      assert |Pad2(a)| == 2 && Pad2(a)[0] == '0';
      assert |Decimal(b)| >= 2;
      DecimalLeadingDigit(b);
    } else {
      assert |Pad2(b)| == 2 && Pad2(b)[0] == '0';
      DecimalLeadingDigit(a);
    }
  }

  /** Decimal never starts with '0' once the number has two digits. */
  lemma {:induction false} DecimalLeadingDigit(n: nat)
    requires n >= 10
    ensures Decimal(n)[0] != '0'
    decreases n
  {
    if n / 10 >= 10 {
      DecimalLeadingDigit(n / 10);
    }
    assert Decimal(n)[0] == Decimal(n / 10)[0];
  }

  lemma Pad2LengthBound(n: nat)
    requires n < 1000000
    ensures |Pad2(n)| <= 6
  {
    if n >= 10 {
      assert Pow10(6) == 1000000;
      DecimalLengthBound(n, 6, Pow10(6));
    }
  }

  /** The number of leading decimal digits of s. */
  function DigitRun(s: string): (k: nat)
    ensures k <= |s|
    ensures AllDigits(s[..k])
    ensures k < |s| ==> !IsDigit(s[k])
  {
    if |s| == 0 || !IsDigit(s[0]) then 0
    else
      var k := 1 + DigitRun(s[1..]);
      assert s[..k] == [s[0]] + s[1..][..k - 1];
      k
  }

  lemma {:induction false} DigitRunOfDigitsThen(d: string, t: string)
    requires AllDigits(d)
    requires |t| == 0 || !IsDigit(t[0])
    ensures DigitRun(d + t) == |d|
    decreases |d|
  {
    if |d| > 0 {
      assert (d + t)[1..] == d[1..] + t;
      DigitRunOfDigitsThen(d[1..], t);
    } else {
      assert d + t == t;
    }
  }

  /** Position of the last '.' in s, if any. */
  function LastDot(s: string): (r: int)
    ensures -1 <= r < |s|
    ensures r >= 0 ==> s[r] == '.'
    ensures forall j :: r < j < |s| ==> s[j] != '.'
  {
    if |s| == 0 then -1
    else if s[|s| - 1] == '.' then |s| - 1
    else LastDot(s[..|s| - 1])
  }

  /** pathlib's `PurePath.suffix`: the text from the last dot, unless that dot
      is the first character or the last one, in which case the suffix is empty. */
  function Suffix(name: string): (r: string)
    ensures r == [] || (r[0] == '.' && EndsWith(name, r) && |r| >= 2)
  {
    var i := LastDot(name);
    if 0 < i < |name| - 1 then name[i..] else ""
  }

  /** When name ends with a dot followed by dot-free text, and the dot is neither
      first nor last, the suffix is exactly that ending. */
  lemma SuffixOfEnding(name: string, e: string)
    requires EndsWith(name, e) && |e| >= 2 && e[0] == '.'
    requires forall j :: 1 <= j < |e| ==> e[j] != '.'
    requires |name| > |e|
    ensures Suffix(name) == e
  {
    var i := |name| - |e|;
    assert name[i] == e[0];
    assert forall j :: i < j < |name| ==> name[j] == e[j - i];
    var d := LastDot(name);
    assert d == i;
  }
}
