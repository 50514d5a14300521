// The file-name rules of the watcher: which names count as images, the
// canonical `<prefix>_<NN>.<ext>` form that `is_already_renamed` recognises,
// and the final and temporary names the planner hands out.
module Naming {
  import opened Text

  /** The three lower-case image extensions of the PNG/JPG/JPEG variants. */
  const ImageExtensions: set<string> := {".png", ".jpg", ".jpeg"}

  /** `name.lower().endswith('.png') or ... '.jpg' or ... '.jpeg'`. */
  predicate HasImageExtension(name: string) {
    EndsWith(Lower(name), ".png") || EndsWith(Lower(name), ".jpg") || EndsWith(Lower(name), ".jpeg")
  }

  /** The PNG-only variant's extension test, `name.lower().endswith('.png')`. */
  predicate HasPngExtension(name: string) {
    EndsWith(Lower(name), ".png")
  }

  /** Names the engine itself uses while a file is between its two renames. */
  predicate IsTempName(name: string) {
    StartsWith(name, "TEMP_")
  }

  /** A name that is nothing but an image extension (a hidden file such as
      `.png`): pathlib gives it an empty suffix. */
  predicate IsBareExtension(name: string) {
    Lower(name) in ImageExtensions
  }

  /** Which extension a planned name carries: the file's own suffix, lower-cased
      (PNG/JPG/JPEG variants), or always `.png` (PNG-only variant). */
  datatype ExtPolicy = KeepLowered | AlwaysPng

  function TargetExtension(policy: ExtPolicy, name: string): string {
    match policy
    case KeepLowered => Lower(Suffix(name))
    case AlwaysPng => ".png"
  }

  /** `f"{prefix}_{i+1:02d}{ext}"` for the file at 0-based position i. */
  function FinalName(prefix: string, i: nat, ext: string): string {
    prefix + "_" + Pad2(i + 1) + ext
  }

  /** `f"TEMP_{i+1:02d}_{prefix}{ext}"` for the file at 0-based position i. */
  function TempName(prefix: string, i: nat, ext: string): string {
    "TEMP_" + Pad2(i + 1) + "_" + prefix + ext
  }

  /** An extension that cannot extend a digit run: empty or starting with a non-digit. */
  predicate DigitFree(ext: string) {
    |ext| == 0 || !IsDigit(ext[0])
  }

  // ---------------------------------------------------------------------------
  // The canonical-name test `re.match(rf"^{prefix}_\d{2,}\.(...)$", name)`.

  // The prefix is compared as literal text, which is what the pattern does
  // for a prefix free of regular-expression metacharacters.

  /** `<prefix>_`, then at least two digits, then one of the extensions, then
      nothing. */
  predicate CanonicalBody(prefix: string, s: string, exts: set<string>) {
    StartsWith(s, prefix + "_") &&
    var t := s[|prefix| + 1..];
    DigitRun(t) >= 2 && t[DigitRun(t)..] in exts
  }

  /** Python's `$` also matches just before a final newline. */
  predicate FullMatch(prefix: string, s: string, exts: set<string>) {
    CanonicalBody(prefix, s, exts) ||
    (|s| > 0 && s[|s| - 1] == '\n' && CanonicalBody(prefix, s[..|s| - 1], exts))
  }

  /** `is_already_renamed` of the PNG/JPG/JPEG variants, compiled with
      `re.IGNORECASE`: prefix and extension are compared without case. */
  predicate IsCanonicalImage(prefix: string, name: string) {
    FullMatch(Lower(prefix), Lower(name), ImageExtensions)
  }

  /** `is_already_renamed` of the PNG-only variant: case-sensitive, `.png` only. */
  predicate IsCanonicalPng(prefix: string, name: string) {
    FullMatch(prefix, name, {".png"})
  }

  // ---------------------------------------------------------------------------
  // Facts about the names.

  /** The case-insensitive extension test picks out one of the three extensions. */
  lemma MatchedExtension(name: string) returns (e: string)
    requires HasImageExtension(name)
    ensures e in ImageExtensions && EndsWith(Lower(name), e)
  {
    if EndsWith(Lower(name), ".png") {
      e := ".png";
    } else if EndsWith(Lower(name), ".jpg") {
      e := ".jpg";
    } else {
      e := ".jpeg";
    }
  }

  /** An extension in the sense of pathlib: a dot and at least one more
      character, none of them a dot. */
  predicate DotThenPlain(e: string) {
    |e| >= 2 && e[0] == '.' && forall j :: 1 <= j < |e| ==> e[j] != '.'
  }

  lemma ImageExtensionsArePlain(e: string)
    requires e in ImageExtensions
    ensures DotThenPlain(e) && Lower(e) == e
  {
  }

  lemma {:induction false} SuffixOfLoweredEnding(name: string, e: string)
    requires DotThenPlain(e) && EndsWith(Lower(name), e) && |name| > |e|
    ensures Lower(Suffix(name)) == e
  {
    var i := |name| - |e|;
    var tail := name[i..];
    assert Lower(name)[i..] == e;
    forall j | 0 <= j < |tail| ensures LowerChar(tail[j]) == e[j] {
      assert tail[j] == name[i + j];
      assert Lower(name)[i + j] == e[j];
    }
    assert EndsWith(name, tail);
    SuffixOfEnding(name, tail);
  }

  lemma SuffixOfMatchedExtension(name: string, e: string)
    requires e in ImageExtensions && EndsWith(Lower(name), e) && |name| > |e|
    ensures Lower(Suffix(name)) == e
  {
    ImageExtensionsArePlain(e);
    SuffixOfLoweredEnding(name, e);
  }

  /** An image name that is more than a bare extension keeps that extension,
      lower-cased, as its target extension. */
  lemma {:induction false} ImageSuffix(name: string)
    requires HasImageExtension(name) && !IsBareExtension(name)
    ensures Lower(Suffix(name)) in ImageExtensions
  {
    var e := MatchedExtension(name);
    if |name| == |e| {
      assert false;
    }
    SuffixOfMatchedExtension(name, e);
  }

  /** The canonical test accepts `<prefix>_<digits><ext>` for any run of at
      least two digits and any accepted extension. */
  lemma {:induction false} CanonicalBodyOf(p: string, d: string, e: string, exts: set<string>)
    requires AllDigits(d) && |d| >= 2 && e in exts && |e| > 0 && e[0] == '.'
    ensures CanonicalBody(p, p + "_" + d + e, exts)
  {
    var s := p + "_" + d + e;
    assert s == (p + "_") + (d + e);
    assert s[..|p| + 1] == p + "_";
    var t := s[|p| + 1..];
    assert t == d + e;
    DigitRunOfDigitsThen(d, e);
    assert t[DigitRun(t)..] == e;
  }

  lemma {:induction false} LowerOfFinal(p: string, d: string, e: string)
    requires AllDigits(d) && Lower(e) == e
    ensures Lower(p + "_" + d + e) == Lower(p) + "_" + d + e
  {
    LowerConcat(p + "_" + d, e);
    LowerConcat(p + "_", d);
    LowerConcat(p, "_");
    LowerOfDigits(d);
  }

  /** Every final name handed out for an image file passes the case-insensitive
      canonical test, whatever its position. */
  lemma {:induction false} FinalNameIsCanonicalImage(prefix: string, i: nat, name: string)
    requires HasImageExtension(name) && !IsBareExtension(name)
    ensures IsCanonicalImage(prefix, FinalName(prefix, i, TargetExtension(KeepLowered, name)))
  {
    var e := Lower(Suffix(name));
    ImageSuffix(name);
    LowerIdempotent(Suffix(name));
    LowerOfFinal(prefix, Pad2(i + 1), e);
    CanonicalBodyOf(Lower(prefix), Pad2(i + 1), e, ImageExtensions);
  }

  /** Every final name of the PNG-only planner passes its case-sensitive test. */
  lemma {:induction false} FinalNameIsCanonicalPng(prefix: string, i: nat)
    ensures IsCanonicalPng(prefix, FinalName(prefix, i, ".png"))
  {
    CanonicalBodyOf(prefix, Pad2(i + 1), ".png", {".png"});
  }

  lemma {:induction false} FinalNameCore(p: string, a: string, b: string, e1: string, e2: string)
    requires AllDigits(a) && AllDigits(b) && DigitFree(e1) && DigitFree(e2)
    requires p + "_" + a + e1 == p + "_" + b + e2
    ensures a == b && e1 == e2
  {
    var s := p + "_" + a + e1;
    assert s == (p + "_") + (a + e1);
    assert p + "_" + b + e2 == (p + "_") + (b + e2);
    assert a + e1 == s[|p| + 1..] == b + e2;
    DigitRunOfDigitsThen(a, e1);
    DigitRunOfDigitsThen(b, e2);
    assert a == (a + e1)[..|a|] == (b + e2)[..|b|] == b;
    assert e1 == (a + e1)[|a|..] == (b + e2)[|b|..] == e2;
  }

  /** Two final names agree only for the same position (and extension). */
  lemma {:induction false} FinalNameInjective(prefix: string, i: nat, j: nat, e1: string, e2: string)
    requires DigitFree(e1) && DigitFree(e2)
    requires FinalName(prefix, i, e1) == FinalName(prefix, j, e2)
    ensures i == j && e1 == e2
  {
    FinalNameCore(prefix, Pad2(i + 1), Pad2(j + 1), e1, e2);
    Pad2Injective(i + 1, j + 1);
  }

  /** A digit run followed by a non-digit is recovered from the whole text. */
  lemma {:induction false} DigitsThenMark(a: string, ra: string, b: string, rb: string)
    requires AllDigits(a) && AllDigits(b)
    requires |ra| > 0 && !IsDigit(ra[0]) && |rb| > 0 && !IsDigit(rb[0])
    requires a + ra == b + rb
    ensures a == b
  {
    DigitRunOfDigitsThen(a, ra);
    DigitRunOfDigitsThen(b, rb);
    assert a == (a + ra)[..|a|];
    assert b == (b + rb)[..|b|];
  }

  /** A marker, a digit run and `_`: the digit run is recovered from the whole
      text. */
  lemma {:induction false} TempNameCore(m: string, p: string, a: string, b: string, e1: string, e2: string)
    requires AllDigits(a) && AllDigits(b)
    requires m + a + "_" + p + e1 == m + b + "_" + p + e2
    ensures a == b
  {
    var ra, rb := "_" + p + e1, "_" + p + e2;
    var x, y := a + ra, b + rb;
    assert m + a + "_" + p + e1 == m + x;
    assert m + b + "_" + p + e2 == m + y;
    assert x == (m + x)[|m|..];
    assert y == (m + y)[|m|..];
    assert ra[0] == '_' && rb[0] == '_';
    DigitsThenMark(a, ra, b, rb);
  }

  /** Two temporary names agree only for the same position. */
  lemma {:induction false} TempNameInjective(prefix: string, i: nat, j: nat, e1: string, e2: string)
    requires TempName(prefix, i, e1) == TempName(prefix, j, e2)
    ensures i == j
  {
    var a, b := Pad2(i + 1), Pad2(j + 1);
    assert "TEMP_" + a + "_" + prefix + e1 == "TEMP_" + b + "_" + prefix + e2;
    TempNameCore("TEMP_", prefix, a, b, e1, e2);
    Pad2Injective(i + 1, j + 1);
  }

  lemma LastFourOf(x: string, e: string)
    requires |e| >= 4
    ensures (x + e)[|x + e| - 4..] == e[|e| - 4..]
  {
  }

  lemma ExtensionFromLastFour(e1: string, e2: string)
    requires e1 in ImageExtensions && e2 in ImageExtensions
    requires e1[|e1| - 4..] == e2[|e2| - 4..]
    ensures e1 == e2
  {
    assert ".png"[0..] == ".png" && ".jpg"[0..] == ".jpg" && ".jpeg"[1..] == "jpeg";
  }

  lemma {:induction false} TempNeverFinalCore(m: string, p: string, a: string, b: string, e1: string, e2: string)
    requires |m| == 5 && e1 in ImageExtensions && e2 in ImageExtensions
    requires |b| <= 6 && |a| >= 2
    ensures m + a + "_" + p + e1 != p + "_" + b + e2
  {
    var s := m + a + "_" + p + e1;
    var f := p + "_" + b + e2;
    if s == f {
      LastFourOf(m + a + "_" + p, e1);
      LastFourOf(p + "_" + b, e2);
      ExtensionFromLastFour(e1, e2);
      assert false;
    }
  }

  /** A temporary name never equals a final name while the final number has at
      most six digits: the final name would need five more digits than the
      temporary one to make up for the `TEMP_` marker. */
  lemma {:induction false} TempNeverFinal(prefix: string, i: nat, j: nat, e1: string, e2: string)
    requires e1 in ImageExtensions && e2 in ImageExtensions
    requires j + 1 < 1000000
    ensures TempName(prefix, i, e1) != FinalName(prefix, j, e2)
  {
    Pad2LengthBound(j + 1);
    TempNeverFinalCore("TEMP_", prefix, Pad2(i + 1), Pad2(j + 1), e1, e2);
  }

  // ---------------------------------------------------------------------------
  // The names compared without case, as a case-insensitive volume compares
  // them.

  /** Lower-casing a temporary name lower-cases its marker, prefix and
      extension and keeps its digits. */
  lemma {:induction false} LowerTempName(prefix: string, i: nat, e: string)
    ensures Lower(TempName(prefix, i, e)) == "temp_" + Pad2(i + 1) + "_" + Lower(prefix) + Lower(e)
  {
    var d := Pad2(i + 1);
    LowerConcat("TEMP_" + d + "_" + prefix, e);
    LowerConcat("TEMP_" + d + "_", prefix);
    LowerConcat("TEMP_" + d, "_");
    LowerConcat("TEMP_", d);
    LowerOfDigits(d);
    assert Lower("TEMP_") == "temp_";
    assert Lower("_") == "_";
  }

  /** Lower-casing a final name gives the final name of the lower-cased prefix
      and extension. */
  lemma {:induction false} LowerFinalName(prefix: string, i: nat, e: string)
    ensures Lower(FinalName(prefix, i, e)) == FinalName(Lower(prefix), i, Lower(e))
  {
    var d := Pad2(i + 1);
    LowerConcat(prefix + "_" + d, e);
    LowerConcat(prefix + "_", d);
    LowerConcat(prefix, "_");
    LowerOfDigits(d);
    assert Lower("_") == "_";
  }

  /** A name marked `TEMP_` starts with `temp_` once lower-cased. */
  lemma TempMarkLowered(name: string)
    requires IsTempName(name)
    ensures StartsWith(Lower(name), "temp_")
  {
    assert Lower(name)[..5] == Lower(name[..5]);
  }

  /** Every temporary name starts with `temp_` once lower-cased. */
  lemma TempNameLowered(prefix: string, i: nat, ext: string)
    ensures StartsWith(Lower(TempName(prefix, i, ext)), "temp_")
  {
    TempNameIsTemp(prefix, i, ext);
    TempMarkLowered(TempName(prefix, i, ext));
  }

  /** Two temporary names agree without case only for the same position. */
  lemma TempNamesFoldApart(prefix: string, i: nat, j: nat, e1: string, e2: string)
    requires Lower(TempName(prefix, i, e1)) == Lower(TempName(prefix, j, e2))
    ensures i == j
  {
    LowerTempName(prefix, i, e1);
    LowerTempName(prefix, j, e2);
    TempNameCore("temp_", Lower(prefix), Pad2(i + 1), Pad2(j + 1), Lower(e1), Lower(e2));
    Pad2Injective(i + 1, j + 1);
  }

  lemma LowerDigitFree(e: string)
    requires DigitFree(e)
    ensures DigitFree(Lower(e))
  {
  }

  /** Two final names agree without case only for the same position. */
  lemma FinalNamesFoldApart(prefix: string, i: nat, j: nat, e1: string, e2: string)
    requires DigitFree(e1) && DigitFree(e2)
    requires Lower(FinalName(prefix, i, e1)) == Lower(FinalName(prefix, j, e2))
    ensures i == j
  {
    LowerFinalName(prefix, i, e1);
    LowerFinalName(prefix, j, e2);
    LowerDigitFree(e1);
    LowerDigitFree(e2);
    FinalNameInjective(Lower(prefix), i, j, Lower(e1), Lower(e2));
  }

  /** Without case, a temporary name is still never a final name while the
      final number has at most six digits. */
  lemma TempNeverFinalFolded(prefix: string, i: nat, j: nat, e1: string, e2: string)
    requires e1 in ImageExtensions && e2 in ImageExtensions
    requires j + 1 < 1000000
    ensures Lower(TempName(prefix, i, e1)) != Lower(FinalName(prefix, j, e2))
  {
    LowerTempName(prefix, i, e1);
    LowerFinalName(prefix, j, e2);
    ImageExtensionsArePlain(e1);
    ImageExtensionsArePlain(e2);
    Pad2LengthBound(j + 1);
    TempNeverFinalCore("temp_", Lower(prefix), Pad2(i + 1), Pad2(j + 1), e1, e2);
  }

  /** Every name of the set has the shape of a temporary name. */
  predicate AllTempNames(names: set<string>) {
    forall n :: n in names ==> IsTempName(n)
  }

  /** Every temporary name starts with `TEMP_`. */
  lemma TempNameIsTemp(prefix: string, i: nat, ext: string)
    ensures IsTempName(TempName(prefix, i, ext))
  {
    assert TempName(prefix, i, ext)[..5] == "TEMP_";
  }

  /** A final name gives back its own extension when it is planned again. */
  lemma {:induction false} FinalKeepsExtension(prefix: string, i: nat, policy: ExtPolicy, e: string)
    requires e in ImageExtensions && (policy == AlwaysPng ==> e == ".png")
    ensures TargetExtension(policy, FinalName(prefix, i, e)) == e
  {
    if policy == KeepLowered {
      var stem := prefix + "_" + Pad2(i + 1);
      ImageExtensionsArePlain(e);
      LowerConcat(stem, e);
      assert Lower(FinalName(prefix, i, e)) == Lower(stem) + e;
      SuffixOfMatchedExtension(FinalName(prefix, i, e), e);
    }
  }

  lemma FinalNamesDiffer(prefix: string, i: nat, j: nat, e: string)
    requires i != j && DigitFree(e)
    ensures FinalName(prefix, i, e) != FinalName(prefix, j, e)
  {
    if FinalName(prefix, i, e) == FinalName(prefix, j, e) {
      FinalNameInjective(prefix, i, j, e, e);
    }
  }

  /** `<prefix>_NN.png` is an image name of the case-insensitive test. */
  lemma PngFinalIsImage(prefix: string, i: nat)
    ensures HasImageExtension(FinalName(prefix, i, ".png")) && !IsBareExtension(FinalName(prefix, i, ".png"))
    ensures IsCanonicalImage(prefix, FinalName(prefix, i, ".png")) && IsCanonicalPng(prefix, FinalName(prefix, i, ".png"))
  {
    var n := FinalName(prefix, i, ".png");
    FinalKeepsExtension(prefix, i, KeepLowered, ".png");
    assert Lower(n) == Lower(prefix + "_" + Pad2(i + 1)) + ".png" by {
      ImageExtensionsArePlain(".png");
      LowerConcat(prefix + "_" + Pad2(i + 1), ".png");
    }
    assert EndsWith(Lower(n), ".png");
    NotBare(n);
    FinalNameIsCanonicalImage(prefix, i, n);
    FinalNameIsCanonicalPng(prefix, i);
  }

  /** A name longer than five characters is not a bare extension. */
  lemma NotBare(name: string)
    requires |name| > 5
    ensures !IsBareExtension(name)
  {
    var low := Lower(name);
    assert |low| > 5;
    forall e | e in ImageExtensions ensures low != e {
      assert |e| <= 5;
    }
  }

  /** A final name starts with the prefix and `_`, so unless those begin with
      `temp_` in some case, no final name looks temporary in any case. */
  lemma FinalNameNotTemp(prefix: string, i: nat, e: string)
    requires !StartsWith(Lower(prefix + "_"), "temp_")
    ensures !StartsWith(Lower(FinalName(prefix, i, e)), "temp_")
  {
    var head := prefix + "_";
    var n := Lower(FinalName(prefix, i, e));
    assert forall k :: 0 <= k < |head| ==> n[k] == Lower(head)[k];
    if |head| >= 5 {
      assert n[..5] == Lower(head)[..5];
    } else if |n| >= 5 {
      assert n[|prefix|] == '_' && "temp_"[|prefix|] != '_';
    }
  }

  /** An upper-case `.PNG` ending: the PNG-only test, being case-sensitive,
      refuses `<prefix>_NN.PNG`, while the case-insensitive test of the other
      variants accepts it. */
  lemma UpperCasePng(prefix: string, d: string)
    requires AllDigits(d) && |d| >= 2
    ensures !IsCanonicalPng(prefix, prefix + "_" + d + ".PNG")
    ensures IsCanonicalImage(prefix, prefix + "_" + d + ".PNG")
  {
    UpperCasePngRefused(prefix, d);
    UpperCasePngLowered(prefix, d);
  }

  lemma {:induction false} UpperCasePngRefused(prefix: string, d: string)
    requires AllDigits(d) && |d| >= 2
    ensures !IsCanonicalPng(prefix, prefix + "_" + d + ".PNG")
  {
    var s := prefix + "_" + d + ".PNG";
    assert s[..|prefix| + 1] == prefix + "_";
    var t := s[|prefix| + 1..];
    assert t == d + ".PNG";
    DigitRunOfDigitsThen(d, ".PNG");
    assert t[|d|..] == ".PNG";
    assert s[|s| - 1] == 'G';
  }

  lemma {:induction false} UpperCasePngLowered(prefix: string, d: string)
    requires AllDigits(d) && |d| >= 2
    ensures IsCanonicalImage(prefix, prefix + "_" + d + ".PNG")
  {
    var stem := prefix + "_" + d;
    LowerConcat(stem, ".PNG");
    assert Lower(".PNG") == ".png";
    LowerConcat(prefix + "_", d);
    LowerConcat(prefix, "_");
    LowerOfDigits(d);
    assert Lower(stem + ".PNG") == Lower(prefix) + "_" + d + ".png";
    CanonicalBodyOf(Lower(prefix), d, ".png", ImageExtensions);
  }
}
