/** The release check of `handleFirstCommitVersion`: the package version is
    compared with the latest tag, and the label of the pending-release
    header is chosen. The comparison stands in for the `compare-versions`
    library, on the numeric major.minor.patch part of each version: what
    it can read differs from what the library accepts. */
module Versions {
  import opened Wrappers
  import opened Text
  import opened Tags
  import opened Errors

  datatype SemVer = SemVer(major: nat, minor: nat, patch: nat)

  /** Reads `v?major.minor.patch`, ignoring whatever follows the patch
      number; None when the text does not start that way. */
  function Parse(v: string): Option<SemVer>
  {
    var w := if |v| > 0 && v[0] == 'v' then v[1..] else v;
    match VersionPrefix(w)
    case None => None
    case Some(span) => Some(SpanValue(w, span))
  }

  /** The three numbers of a version found at the start of `w`. */
  function SpanValue(w: string, span: VersionSpan): SemVer
    requires IsVersionAt(w, span.a, span.b, span.c)
  {
    assert forall k :: 0 <= k < span.a ==> w[..span.a][k] == w[k];
    assert forall k :: span.a + 1 <= k < span.b ==> w[span.a + 1..span.b][k - span.a - 1] == w[k];
    assert forall k :: span.b + 1 <= k < span.c ==> w[span.b + 1..span.c][k - span.b - 1] == w[k];
    SemVer(DigitsValue(w[..span.a]), DigitsValue(w[span.a + 1..span.b]), DigitsValue(w[span.b + 1..span.c]))
  }

  /** The text of a version: its three numbers joined by dots. */
  function VersionText(x: SemVer): string
  {
    NatToString(x.major) + "." + NatToString(x.minor) + "." + NatToString(x.patch)
  }

  /** -1, 0 or 1 as `x` orders before, equal to or after `y`. */
  function Order(x: SemVer, y: SemVer): int
  {
    if x.major != y.major then (if x.major < y.major then -1 else 1)
    else if x.minor != y.minor then (if x.minor < y.minor then -1 else 1)
    else if x.patch != y.patch then (if x.patch < y.patch then -1 else 1)
    else 0
  }

  /** `comparePkgVersion(a, b)`; None where the library would throw on an
      unreadable version. */
  function Compare(a: string, b: string): Option<int>
  {
    match (Parse(a), Parse(b))
    case (Some(x), Some(y)) => Some(Order(x, y))
    case _ => None
  }

  /** The run is rejected when the package version orders before the
      latest tag, and cannot go on when either version is unreadable. */
  function CheckVersion(pkgVersion: string, latestTag: string): (r: Outcome<Error>)
    ensures r.Fail? ==> r.error.InvalidVersion? || r.error.VersionRegression?
  {
    match Compare(pkgVersion, latestTag)
    case None => Fail(InvalidVersion(if Parse(pkgVersion).None? then pkgVersion else latestTag))
    case Some(r) => if r == -1 then Fail(VersionRegression(pkgVersion, latestTag)) else Pass
  }

  /** The label of the pending-release header. */
  function PendingLabel(pkgVersion: string, latestTag: string): string
  {
    if pkgVersion == latestTag then "Latest" else pkgVersion
  }

  // ---------------------------------------------------------------- properties

  /** Three digit runs joined by dots form a version that fills the text. */
  lemma DottedIsVersion(m1: string, m2: string, m3: string)
    requires |m1| >= 1 && |m2| >= 1 && |m3| >= 1
    requires AllDigits(m1) && AllDigits(m2) && AllDigits(m3)
    ensures IsVersionAt(m1 + "." + m2 + "." + m3, |m1|, |m1| + 1 + |m2|, |m1 + "." + m2 + "." + m3|)
  {
    var w := m1 + "." + m2 + "." + m3;
    var a, b := |m1|, |m1| + 1 + |m2|;
    forall k | 0 <= k < |w| && k != a && k != b ensures IsDigit(w[k]) {
      if k < a { assert w[k] == m1[k]; }
      else if k < b { assert w[k] == m2[k - a - 1]; }
      else { assert w[k] == m3[k - b - 1]; }
    }
  }

  /** Reading a version that fills the text gives the values of its runs. */
  lemma ParseFilled(w: string, a: nat, b: nat, m1: string, m2: string, m3: string)
    requires IsVersionAt(w, a, b, |w|)
    requires w[..a] == m1 && w[a + 1..b] == m2 && w[b + 1..] == m3
    requires AllDigits(m1) && AllDigits(m2) && AllDigits(m3)
    ensures Parse(w) == Some(SemVer(DigitsValue(m1), DigitsValue(m2), DigitsValue(m3)))
  {
    var sp := VersionSpan(a, b, |w|);
    assert w[0] != 'v' by { assert IsDigit(w[0]); }
    VersionPrefixComplete(w, a, b, |w|);
    assert VersionPrefix(w) == Some(sp);
    assert Parse(w) == Some(SpanValue(w, sp));
    SpanValueOf(w, sp);
    assert w[b + 1..] == w[b + 1..|w|];
  }

  lemma SpanValueOf(w: string, sp: VersionSpan)
    requires IsVersionAt(w, sp.a, sp.b, sp.c)
    ensures SpanValue(w, sp) == SemVer(DigitsValue(w[..sp.a]), DigitsValue(w[sp.a + 1..sp.b]), DigitsValue(w[sp.b + 1..sp.c]))
  {
  }

  lemma DottedSlices(m1: string, m2: string, m3: string)
    ensures (m1 + "." + m2 + "." + m3)[..|m1|] == m1
    ensures (m1 + "." + m2 + "." + m3)[|m1| + 1..|m1| + 1 + |m2|] == m2
    ensures (m1 + "." + m2 + "." + m3)[|m1| + 1 + |m2| + 1..] == m3
  {
    var w := m1 + "." + m2 + "." + m3;
    var rest := m2 + "." + m3;
    assert w == m1 + "." + rest;
    assert w[|m1| + 1..] == rest;
    assert rest[..|m2|] == m2;
    assert rest[|m2| + 1..] == m3;
  }

  /** Reading three dotted digit runs gives their values. */
  lemma ParseDotted(m1: string, m2: string, m3: string)
    requires |m1| >= 1 && |m2| >= 1 && |m3| >= 1
    requires AllDigits(m1) && AllDigits(m2) && AllDigits(m3)
    ensures Parse(m1 + "." + m2 + "." + m3) == Some(SemVer(DigitsValue(m1), DigitsValue(m2), DigitsValue(m3)))
  {
    var w := m1 + "." + m2 + "." + m3;
    DottedSlices(m1, m2, m3);
    DottedIsVersion(m1, m2, m3);
    ParseFilled(w, |m1|, |m1| + 1 + |m2|, m1, m2, m3);
  }

  /** A version written out reads back as itself. */
  lemma ParseText(x: SemVer)
    ensures Parse(VersionText(x)) == Some(x)
  {
    ParseDotted(NatToString(x.major), NatToString(x.minor), NatToString(x.patch));
  }

  /** Comparison is antisymmetric, and equal only for equal numbers. */
  lemma CompareAntisymmetric(a: string, b: string)
    ensures Compare(a, b).Some? <==> Compare(b, a).Some?
    ensures Compare(a, b).Some? ==> Compare(b, a).value == -Compare(a, b).value
    ensures Compare(a, b) == Some(0) <==> Parse(a).Some? && Parse(a) == Parse(b)
  {
  }

  /** A version never orders before itself, so a version equal to the
      latest tag passes the check. */
  lemma CompareSelf(a: string)
    ensures Parse(a).Some? ==> Compare(a, a) == Some(0)
  {
  }

  /** Ordering is transitive. */
  lemma OrderTransitive(x: SemVer, y: SemVer, z: SemVer)
    requires Order(x, y) == -1 && Order(y, z) == -1
    ensures Order(x, z) == -1
  {
  }

  /** The decision: rejected exactly when the package version is unreadable
      or orders strictly before the latest tag (`0.0.0` when no tag
      matches); the latest tag itself is always readable. */
  lemma VersionDecision(pkgVersion: string, annotation: string)
    ensures Parse(LatestTag(annotation)).Some?
    ensures CheckVersion(pkgVersion, LatestTag(annotation)).Fail? <==>
              (Parse(pkgVersion).None? || Compare(pkgVersion, LatestTag(annotation)) == Some(-1))
    ensures (CheckVersion(pkgVersion, LatestTag(annotation)) == Fail(VersionRegression(pkgVersion, LatestTag(annotation))))
              <==> Compare(pkgVersion, LatestTag(annotation)) == Some(-1)
  {
    var t := LatestTag(annotation);
    LatestTagIsTag(annotation);
    TagParses(t);
    if Parse(pkgVersion).None? {
      assert Compare(pkgVersion, t).None?;
    } else {
      assert Compare(pkgVersion, t) == Some(Order(Parse(pkgVersion).value, Parse(t).value));
    }
  }

  /** Every well-formed tag is readable by `Parse`, which needs only a
      leading `X.Y.Z`. */
  lemma TagParses(t: string)
    requires IsTagText(t)
    ensures Parse(t).Some?
  {
    var span := VersionPrefix(t).value;
    assert IsDigit(t[0]) by {
      assert IsVersionAt(t, span.a, span.b, span.c);
    }
  }

  lemma ParseSmall(major: nat, minor: nat)
    requires major < 10 && minor < 10
    ensures Parse([DigitChar(major), '.', DigitChar(minor), '.', '0']) == Some(SemVer(major, minor, 0))
  {
    var x := SemVer(major, minor, 0);
    assert VersionText(x) == [DigitChar(major), '.', DigitChar(minor), '.', '0'];
    ParseText(x);
  }

  /** The three cases of the release check on concrete versions. */
  lemma DecisionExamples()
    ensures CheckVersion("1.0.0", "1.1.0") == Fail(VersionRegression("1.0.0", "1.1.0"))
    ensures CheckVersion("1.1.0", "1.1.0") == Pass && PendingLabel("1.1.0", "1.1.0") == "Latest"
    ensures CheckVersion("1.2.0", "1.1.0") == Pass && PendingLabel("1.2.0", "1.1.0") == "1.2.0"
  {
    ParseSmall(1, 0);
    ParseSmall(1, 1);
    ParseSmall(1, 2);
    assert [DigitChar(1), '.', DigitChar(0), '.', '0'] == "1.0.0";
    assert [DigitChar(1), '.', DigitChar(1), '.', '0'] == "1.1.0";
    assert [DigitChar(1), '.', DigitChar(2), '.', '0'] == "1.2.0";
  }
}
