/**
 GKE cluster versions: `[v]MAJOR.MINOR.PATCH[-gke.N]` parsed into four integers,
 printed back, and compared lexicographically. A version without a `-gke.N`
 suffix records its fourth component as -1, so that `X.Y.Z` sorts strictly
 before every `X.Y.Z-gke.N`.
 */
module GkeVersion {
  import opened Wrappers
  import opened Decimal

  /** The four components of the source's `version [4]int`. */
  datatype Version = Version(major: int, minor: int, patch: int, extra: int)

  /** The fourth component of a version that has no `-gke.N` suffix. */
  const NoExtra: int := -1

  /** The versions the parser can produce. */
  predicate WellFormed(v: Version) {
    v.major >= 0 && v.minor >= 0 && v.patch >= 0 && v.extra >= NoExtra
  }

  function Components(v: Version): (c: seq<int>)
    ensures |c| == 4
  {
    [v.major, v.minor, v.patch, v.extra]
  }

  datatype VersionError =
    | InvalidVersion(vs: string)         // the string does not have the version shape at all
    | InvalidGkePatch(extra: string)     // the suffix is not exactly `gke.N`
    | GkeExtraCheckFailed(extra: string) // parseVersion's own check on the suffix failed

  // ---------------------------------------------------------------------------
  // Rendering
  // ---------------------------------------------------------------------------

  /** `version.String`: `%d.%d.%d`, followed by `-gke.%d` unless the fourth component is -1. */
  function ToString(v: Version): (s: string)
    ensures |s| > 0
  {
    IntToString(v.major) + "." + IntToString(v.minor) + "." + IntToString(v.patch) + GkeSuffix(v)
  }

  function GkeSuffix(v: Version): string {
    if v.extra != NoExtra then "-gke." + IntToString(v.extra) else ""
  }

  /** A parsed version prints with a `-gke.N` suffix exactly when its fourth component is not -1. */
  lemma ToStringOmitsSuffix(v: Version)
    requires WellFormed(v)
    ensures v.extra == NoExtra <==> '-' !in ToString(v)
    ensures v.extra != NoExtra ==> ToString(v)[|ToString(v)| - |GkeSuffix(v)|..] == "-gke." + NatToString(v.extra)
  {
    var core := IntToString(v.major) + "." + IntToString(v.minor) + "." + IntToString(v.patch);
    assert ToString(v) == core + GkeSuffix(v);
    NoMinusInNumeral(v.major);
    NoMinusInNumeral(v.minor);
    NoMinusInNumeral(v.patch);
    assert '-' !in core;
    if v.extra != NoExtra {
      assert GkeSuffix(v)[0] == '-';
      assert ToString(v)[|core|] == '-';
    } else {
      assert ToString(v) == core;
    }
  }

  lemma NoMinusInNumeral(n: nat)
    ensures '-' !in NatToString(n)
  {
    var s := NatToString(n);
    forall i | 0 <= i < |s|
      ensures s[i] != '-'
    {
      assert IsDigit(s[i]);
    }
  }

  // ---------------------------------------------------------------------------
  // The grammar behind the two regular expressions
  // ---------------------------------------------------------------------------

  /** A character of the class `[a-zA-Z0-9_.+-]` allowed after the '-' of the patch suffix. */
  predicate IsSuffixChar(ch: char) {
    ('a' <= ch <= 'z') || ('A' <= ch <= 'Z') || IsDigit(ch) || ch in {'_', '.', '+', '-'}
  }

  /** `strings.TrimPrefix(vs, "v")`: drops one leading 'v', if there is one. */
  function TrimPrefixV(vs: string): (s: string)
    ensures vs == s || vs == "v" + s
    ensures |vs| > 0 && vs[0] == 'v' ==> |s| == |vs| - 1
  {
    if |vs| > 0 && vs[0] == 'v' then vs[1..] else vs
  }

  /**
   Splits the numeral `(0|[1-9][0-9]*)` off the front of `s`. The regular expression
   always follows a numeral by '.', '-' or the end of input, none of them digits, so
   the numeral it matches is the whole leading run of digits.
   */
  function LeadingNumeral(s: string): (r: Option<(string, string)>)
    ensures r.Some? ==> IsCanonical(r.value.0) && s == r.value.0 + r.value.1
    ensures r.Some? ==> r.value.1 == [] || !IsDigit(r.value.1[0])
  {
    var n := DigitRun(s);
    assert s == s[..n] + s[n..];
    if IsCanonical(s[..n]) then Some((s[..n], s[n..])) else None
  }

  /** A numeral followed by something that does not continue it is split off exactly. */
  lemma LeadingNumeralOfConcat(d: string, rest: string)
    requires IsCanonical(d)
    requires rest == [] || !IsDigit(rest[0])
    ensures LeadingNumeral(d + rest) == Some((d, rest))
  {
    DigitRunOfConcat(d, rest);
    assert (d + rest)[..|d|] == d;
    assert (d + rest)[|d|..] == rest;
  }

  /** The submatches of `versionRegex`: three numerals and the optional `-...` suffix ("" when absent). */
  datatype Submatches = Submatches(major: string, minor: string, patch: string, suffix: string)

  predicate ValidSuffix(suffix: string) {
    |suffix| >= 2 && suffix[0] == '-' && forall i :: 1 <= i < |suffix| ==> IsSuffixChar(suffix[i])
  }

  /** Splits a '.' and a numeral off the front of `s`. */
  function DotNumeral(s: string): (r: Option<(string, string)>)
    ensures r.Some? ==> IsCanonical(r.value.0) && s == "." + r.value.0 + r.value.1
    ensures r.Some? ==> r.value.1 == [] || !IsDigit(r.value.1[0])
  {
    if |s| > 0 && s[0] == '.' then
      var p :- LeadingNumeral(s[1..]);
      assert s == [s[0]] + s[1..];
      Some(p)
    else
      None
  }

  /** `versionRegex.FindStringSubmatch`: `^N\.N\.N(-[a-zA-Z0-9_.+-]+)?$` with N = `(0|[1-9][0-9]*)`. */
  function MatchVersion(s: string): (r: Option<Submatches>)
    ensures r.Some? ==> && IsCanonical(r.value.major) && IsCanonical(r.value.minor)
                        && IsCanonical(r.value.patch)
                        && (r.value.suffix == [] || ValidSuffix(r.value.suffix))
                        && s == r.value.major + "." + r.value.minor + "." + r.value.patch + r.value.suffix
  {
    match LeadingNumeral(s)
    case None => None
    case Some((major, r1)) =>
      match DotNumeral(r1)
      case None => None
      case Some((minor, r2)) =>
        match DotNumeral(r2)
        case None => None
        case Some((patch, r3)) =>
          if r3 == [] || ValidSuffix(r3) then
            Reassociate(s, major, r1, minor, r2, patch, r3);
            Some(Submatches(major, minor, patch, r3))
          else
            None
  }

  lemma Reassociate(s: string, a: string, r1: string, b: string, r2: string, c: string, r3: string)
    requires s == a + r1 && r1 == "." + b + r2 && r2 == "." + c + r3
    ensures s == a + "." + b + "." + c + r3
  {
    calc {
      s;
      a + ("." + b + ("." + c + r3));
      { assert "." + b + ("." + c + r3) == "." + b + "." + c + r3; }
      a + ("." + b + "." + c + r3);
    }
  }

  /** `gkeExtraVersionRegex.FindStringSubmatch`: `^gke\.(0|[1-9][0-9]*)$`, yielding the numeral. */
  function MatchGkeExtra(extra: string): (r: Option<string>)
    ensures r.Some? ==> IsCanonical(r.value) && extra == "gke." + r.value
  {
    if |extra| >= 4 && extra[..4] == "gke." then
      var (d, rest) :- LeadingNumeral(extra[4..]);
      assert extra == extra[..4] + extra[4..];
      if rest == [] then Some(d) else None
    else
      None
  }

  /** `isGKEExtraVersion`. */
  predicate IsGkeExtraVersion(extra: string) {
    MatchGkeExtra(extra).Some?
  }

  /** The suffix regular expression accepts exactly `gke.` followed by a canonical numeral. */
  lemma GkeExtraShape(extra: string)
    ensures IsGkeExtraVersion(extra) <==> exists d :: IsCanonical(d) && extra == "gke." + d
  {
    if d :| IsCanonical(d) && extra == "gke." + d {
      assert extra[..4] == "gke.";
      assert extra[4..] == d + [];
      LeadingNumeralOfConcat(d, []);
    }
  }

  /**
   `extractGKEExtraVersion`: the number N of a suffix `gke.N`, with no error; -1 and an
   error for anything else. The source's failures of `strconv.Atoi` and its check for
   a negative result cannot happen on a canonical numeral read as an unbounded natural.
   */
  function ExtractGkeExtraVersion(extra: string): (r: (int, Option<VersionError>))
    ensures r.1.None? <==> IsGkeExtraVersion(extra)
    ensures r.1.Some? ==> r.0 == -1 && r.1.value == InvalidGkePatch(extra)
    ensures r.1.None? ==> r.0 >= 0 && extra == "gke." + NatToString(r.0)
  {
    match MatchGkeExtra(extra)
    case None => (NoExtra, Some(InvalidGkePatch(extra)))
    case Some(d) =>
      NatToStringOfValue(d);
      (DigitsValue(d), None)
  }

  // ---------------------------------------------------------------------------
  // Parsing
  // ---------------------------------------------------------------------------

  /** `parseVersion`. */
  function ParseVersion(vs: string): (r: Result<Version, VersionError>)
    ensures r.Success? ==> WellFormed(r.value)
  {
    var s := TrimPrefixV(vs);
    match MatchVersion(s)
    case None => Failure(InvalidVersion(s))
    case Some(m) => FromSubmatches(m)
  }

  /** The part of `parseVersion` after a successful match: the numbers, then the suffix check. */
  function FromSubmatches(m: Submatches): (r: Result<Version, VersionError>)
    requires AllDigits(m.major) && AllDigits(m.minor) && AllDigits(m.patch)
    requires m.suffix == [] || |m.suffix| >= 1
    ensures r.Success? ==> WellFormed(r.value)
    ensures r.Success? && m.suffix == [] ==> r.value.extra == NoExtra
    ensures r.Success? && m.suffix != [] ==> r.value.extra >= 0 && m.suffix[1..] == "gke." + NatToString(r.value.extra)
  {
    var major, minor, patch := DigitsValue(m.major), DigitsValue(m.minor), DigitsValue(m.patch);
    if m.suffix == "" then
      Success(Version(major, minor, patch, NoExtra))
    else
      var extraStr := m.suffix[1..];
      if IsGkeExtraVersion(extraStr) then
        var (n, err) := ExtractGkeExtraVersion(extraStr);
        match err
        case Some(e) => Failure(e)
        case None => Success(Version(major, minor, patch, n))
      else
        Failure(GkeExtraCheckFailed(extraStr))
  }

  lemma DotNumeralOfConcat(d: string, rest: string)
    requires IsCanonical(d)
    requires rest == [] || !IsDigit(rest[0])
    ensures DotNumeral("." + d + rest) == Some((d, rest))
  {
    assert ("." + d + rest)[1..] == d + rest;
    LeadingNumeralOfConcat(d, rest);
  }

  /** The matcher recovers the parts of a version-shaped string. */
  lemma MatchVersionOfParts(a: string, b: string, c: string, suffix: string)
    requires IsCanonical(a) && IsCanonical(b) && IsCanonical(c)
    requires suffix == [] || ValidSuffix(suffix)
    ensures MatchVersion(a + "." + b + "." + c + suffix) == Some(Submatches(a, b, c, suffix))
  {
    var r2 := "." + c + suffix;
    var r1 := "." + b + r2;
    var s := a + "." + b + "." + c + suffix;
    assert s == a + r1;
    LeadingNumeralOfConcat(a, r1);
    DotNumeralOfConcat(b, r2);
    DotNumeralOfConcat(c, suffix);
  }

  /** A rendered `-gke.N` suffix passes both suffix checks and yields N. */
  lemma GkeSuffixParses(n: nat)
    ensures ValidSuffix("-gke." + NatToString(n))
    ensures ("-gke." + NatToString(n))[1..] == "gke." + NatToString(n)
    ensures IsGkeExtraVersion("gke." + NatToString(n))
    ensures ExtractGkeExtraVersion("gke." + NatToString(n)) == (n, None)
  {
    var d := NatToString(n);
    var suffix := "-gke." + d;
    forall i | 1 <= i < |suffix|
      ensures IsSuffixChar(suffix[i])
    {
      if i >= 5 {
        assert suffix[i] == d[i - 5];
      }
    }
    assert suffix[1..] == "gke." + d;
    GkeExtraShape("gke." + d);
    var r := ExtractGkeExtraVersion("gke." + d);
    assert NatToString(r.0) == d by {
      assert NatToString(r.0) == ("gke." + NatToString(r.0))[4..];
      assert d == ("gke." + d)[4..];
    }
    ValueOfNatToString(r.0);
    ValueOfNatToString(n);
  }

  /** Every well-formed version survives printing and parsing, with or without a leading 'v'. */
  lemma ParseToStringRoundTrip(v: Version)
    requires WellFormed(v)
    ensures ParseVersion(ToString(v)) == Success(v)
    ensures ParseVersion("v" + ToString(v)) == Success(v)
  {
    var a, b, c := NatToString(v.major), NatToString(v.minor), NatToString(v.patch);
    var suffix := GkeSuffix(v);
    var s := ToString(v);
    assert TrimPrefixV(s) == s;
    assert TrimPrefixV("v" + s) == s;
    ValueOfNatToString(v.major);
    ValueOfNatToString(v.minor);
    ValueOfNatToString(v.patch);
    if v.extra != NoExtra {
      GkeSuffixParses(v.extra);
    }
    MatchVersionOfParts(a, b, c, suffix);
  }

  /** Whatever the parser accepts is the rendering of the version it returns, possibly after one leading 'v'. */
  lemma ParseVersionSound(vs: string)
    requires ParseVersion(vs).Success?
    ensures WellFormed(ParseVersion(vs).value)
    ensures vs == ToString(ParseVersion(vs).value) || vs == "v" + ToString(ParseVersion(vs).value)
  {
    var s := TrimPrefixV(vs);
    var m := MatchVersion(s).value;
    FromSubmatchesSound(m);
  }

  lemma FromSubmatchesSound(m: Submatches)
    requires IsCanonical(m.major) && IsCanonical(m.minor) && IsCanonical(m.patch)
    requires m.suffix == [] || ValidSuffix(m.suffix)
    requires FromSubmatches(m).Success?
    ensures ToString(FromSubmatches(m).value) == m.major + "." + m.minor + "." + m.patch + m.suffix
  {
    var v := FromSubmatches(m).value;
    assert v.major == DigitsValue(m.major) && v.minor == DigitsValue(m.minor) && v.patch == DigitsValue(m.patch);
    NatToStringOfValue(m.major);
    NatToStringOfValue(m.minor);
    NatToStringOfValue(m.patch);
    FromSubmatchesSuffix(m);
  }

  lemma FromSubmatchesSuffix(m: Submatches)
    requires AllDigits(m.major) && AllDigits(m.minor) && AllDigits(m.patch)
    requires m.suffix == [] || ValidSuffix(m.suffix)
    requires FromSubmatches(m).Success?
    ensures GkeSuffix(FromSubmatches(m).value) == m.suffix
  {
    var v := FromSubmatches(m).value;
    if m.suffix != "" {
      var d := NatToString(v.extra);
      assert m.suffix == [m.suffix[0]] + m.suffix[1..];
      assert "-gke." + d == "-" + ("gke." + d);
    }
  }

  /** The parser accepts exactly the renderings of well-formed versions, with at most one leading 'v'. */
  lemma ParseVersionExactly(vs: string, v: Version)
    ensures ParseVersion(vs) == Success(v) <==> WellFormed(v) && (vs == ToString(v) || vs == "v" + ToString(v))
  {
    if ParseVersion(vs) == Success(v) {
      ParseVersionSound(vs);
    }
    if WellFormed(v) && (vs == ToString(v) || vs == "v" + ToString(v)) {
      ParseToStringRoundTrip(v);
    }
  }

  /** The suffix is present in the input exactly when the parsed fourth component is not -1, and then it is at least 0. */
  lemma ParseVersionExtra(x: nat, y: nat, z: nat, n: nat)
    ensures ParseVersion(ToString(Version(x, y, z, NoExtra))) == Success(Version(x, y, z, -1))
    ensures ParseVersion(ToString(Version(x, y, z, NoExtra)) + "-gke." + NatToString(n)) == Success(Version(x, y, z, n))
  {
    assert ToString(Version(x, y, z, NoExtra)) + "-gke." + NatToString(n) == ToString(Version(x, y, z, n));
    ParseToStringRoundTrip(Version(x, y, z, NoExtra));
    ParseToStringRoundTrip(Version(x, y, z, n));
  }

  /** Only one leading 'v' is stripped: `vv1.2.3` is rejected. */
  lemma OnlyOneVStripped(v: Version)
    ensures ParseVersion("vv" + ToString(v)).Failure?
  {
    var s := "v" + ToString(v);
    assert ("vv" + ToString(v))[1..] == s;
    assert s[0] == 'v';
    NoLeadingNumeral(s);
  }

  /** Nothing that starts with a non-digit has a leading numeral. */
  lemma NoLeadingNumeral(s: string)
    requires |s| > 0 && !IsDigit(s[0])
    ensures LeadingNumeral(s).None?
  {
    assert DigitRun(s) == 0;
    assert s[..0] == [];
  }

  // ---------------------------------------------------------------------------
  // Comparison
  // ---------------------------------------------------------------------------

  /** Components `i..` compared in turn, as the source's loop does: the first difference decides. */
  function CompareFrom(a: seq<int>, b: seq<int>, i: nat): (c: int)
    requires |a| == |b| && i <= |a|
    ensures c in {-1, 0, 1}
    ensures c == 0 <==> a[i..] == b[i..]
    decreases |a| - i
  {
    if i == |a| then 0
    else if a[i] > b[i] then 1
    else if a[i] < b[i] then -1
    else
      var c := CompareFrom(a, b, i + 1);
      assert a[i..] == [a[i]] + a[i + 1..] && b[i..] == [b[i]] + b[i + 1..];
      c
  }

  /** `version.compare`: -1, 0 or 1 as `v` is below, equal to or above `w`. */
  function Compare(v: Version, w: Version): (c: int)
    ensures c in {-1, 0, 1}
    ensures c == 0 <==> v == w
  {
    var c := CompareFrom(Components(v), Components(w), 0);
    assert Components(v) == Components(v)[0..] && Components(w) == Components(w)[0..];
    assert Components(v) == Components(w) ==> v == w by {
      if Components(v) == Components(w) {
        assert Components(v)[0] == Components(w)[0] && Components(v)[3] == Components(w)[3];
      }
    }
    c
  }

  /** The lexicographic order, stated independently of the loop: equal up to some position, smaller there. */
  ghost predicate LexLess(a: seq<int>, b: seq<int>) {
    exists k :: 0 <= k < |a| && k < |b| && a[..k] == b[..k] && a[k] < b[k]
  }

  lemma {:induction false} CompareFromIsLex(a: seq<int>, b: seq<int>, i: nat)
    requires |a| == |b| && i <= |a|
    ensures CompareFrom(a, b, i) < 0 <==> LexLess(a[i..], b[i..])
    decreases |a| - i
  {
    var a', b' := a[i..], b[i..];
    if i == |a| {
      assert !LexLess(a', b');
    } else if a[i] > b[i] {
      // A common prefix would have to include position 0, where the components differ.
    } else if a[i] < b[i] {
      assert a'[..0] == b'[..0];
    } else {
      CompareFromIsLex(a, b, i + 1);
      assert a'[1..] == a[i + 1..] && b'[1..] == b[i + 1..];
      LexLessTail(a', b');
    }
  }

  /** Behind an equal first component, the order is decided by the rest. */
  lemma LexLessTail(a: seq<int>, b: seq<int>)
    requires |a| == |b| > 0 && a[0] == b[0]
    ensures LexLess(a, b) <==> LexLess(a[1..], b[1..])
  {
    if LexLess(a, b) {
      var k :| 0 <= k < |a| && k < |b| && a[..k] == b[..k] && a[k] < b[k];
      assert k > 0;
      assert a[1..][..k - 1] == a[..k][1..];
      assert b[1..][..k - 1] == b[..k][1..];
      assert a[1..][k - 1] == a[k];
    }
    if LexLess(a[1..], b[1..]) {
      var k :| 0 <= k < |a[1..]| && k < |b[1..]| && a[1..][..k] == b[1..][..k] && a[1..][k] < b[1..][k];
      assert a[..k + 1] == [a[0]] + a[1..][..k];
      assert b[..k + 1] == [b[0]] + b[1..][..k];
      assert a[k + 1] < b[k + 1];
    }
  }

  /** `compare` is negative exactly when the components are lexicographically smaller. */
  lemma CompareIsLexicographic(v: Version, w: Version)
    ensures Compare(v, w) < 0 <==> LexLess(Components(v), Components(w))
    ensures Compare(v, w) > 0 <==> LexLess(Components(w), Components(v))
  {
    CompareFromIsLex(Components(v), Components(w), 0);
    CompareFromIsLex(Components(w), Components(v), 0);
    CompareFromAntisymmetric(Components(v), Components(w), 0);
    assert Components(v)[0..] == Components(v) && Components(w)[0..] == Components(w);
  }

  lemma {:induction false} CompareFromAntisymmetric(a: seq<int>, b: seq<int>, i: nat)
    requires |a| == |b| && i <= |a|
    ensures CompareFrom(a, b, i) == -CompareFrom(b, a, i)
    decreases |a| - i
  {
    if i < |a| && a[i] == b[i] {
      CompareFromAntisymmetric(a, b, i + 1);
    }
  }

  lemma {:induction false} CompareFromTransitive(a: seq<int>, b: seq<int>, c: seq<int>, i: nat)
    requires |a| == |b| == |c| && i <= |a|
    requires CompareFrom(a, b, i) <= 0 && CompareFrom(b, c, i) <= 0
    ensures CompareFrom(a, c, i) <= 0
    ensures CompareFrom(a, c, i) == 0 ==> CompareFrom(a, b, i) == 0 && CompareFrom(b, c, i) == 0
    decreases |a| - i
  {
    if i < |a| && a[i] == b[i] && b[i] == c[i] {
      CompareFromTransitive(a, b, c, i + 1);
    }
  }

  lemma CompareReflexive(v: Version)
    ensures Compare(v, v) == 0
  {
  }

  lemma CompareAntisymmetric(v: Version, w: Version)
    ensures Compare(v, w) == -Compare(w, v)
  {
    CompareFromAntisymmetric(Components(v), Components(w), 0);
  }

  lemma CompareTransitive(u: Version, v: Version, w: Version)
    requires Compare(u, v) <= 0 && Compare(v, w) <= 0
    ensures Compare(u, w) <= 0
    ensures Compare(u, v) < 0 || Compare(v, w) < 0 ==> Compare(u, w) < 0
  {
    CompareFromTransitive(Components(u), Components(v), Components(w), 0);
  }

  /** `version.lessThan`: strictly below in the lexicographic order of the four components. */
  predicate LessThan(v: Version, w: Version): (r: bool)
    ensures r <==> LexLess(Components(v), Components(w))
  {
    CompareIsLexicographic(v, w);
    Compare(v, w) < 0
  }

  /** `version.atLeast`: `compare >= 0`, which is exactly the negation of `lessThan`. */
  function AtLeast(v: Version, w: Version): (r: bool)
    ensures r <==> !LessThan(v, w)
  {
    Compare(v, w) >= 0
  }

  /** `lessThan` is a strict total order. */
  lemma LessThanStrictTotalOrder(u: Version, v: Version, w: Version)
    ensures !LessThan(v, v)
    ensures LessThan(v, w) ==> !LessThan(w, v)
    ensures v != w ==> LessThan(v, w) || LessThan(w, v)
    ensures LessThan(u, v) && LessThan(v, w) ==> LessThan(u, w)
  {
    CompareAntisymmetric(v, w);
    if LessThan(u, v) && LessThan(v, w) {
      CompareTransitive(u, v, w);
    }
  }

  /** `X.Y.Z` without a suffix is strictly below `X.Y.Z-gke.N` for every N >= 0. */
  lemma NoSuffixBeforeGke(x: int, y: int, z: int, n: nat)
    ensures LessThan(Version(x, y, z, NoExtra), Version(x, y, z, n))
  {
    CompareIsLexicographic(Version(x, y, z, NoExtra), Version(x, y, z, n));
    var a, b := Components(Version(x, y, z, NoExtra)), Components(Version(x, y, z, n));
    assert a[..3] == b[..3] && a[3] < b[3];
  }
}
