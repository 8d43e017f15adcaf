/** The version-tag pattern `/tag: v?(\d{1,}\.\d{1,}\.\d{1,}[^,)]*)/`,
    applied both to a commit's ref names and to the latest-tag annotation,
    and the three-way tag field of a commit record. */
module Tags {
  import opened Wrappers
  import opened Text

  /** First index at or after `i` that does not hold a digit. */
  function DigitsEnd(w: string, i: nat): (j: nat)
    requires i <= |w|
    ensures i <= j <= |w|
    ensures forall k :: i <= k < j ==> IsDigit(w[k])
    ensures j < |w| ==> !IsDigit(w[j])
    decreases |w| - i
  {
    if i == |w| || !IsDigit(w[i]) then i else DigitsEnd(w, i + 1)
  }

  /** `w` starts with `\d+\.\d+\.\d+`, the dots at `a` and `b` and the last
      digit run ending at `c`. */
  predicate IsVersionAt(w: string, a: int, b: int, c: int)
  {
    0 < a && a + 1 < b && b + 1 < c <= |w| && w[a] == '.' && w[b] == '.'
    && (forall k :: 0 <= k < c && k != a && k != b ==> IsDigit(w[k]))
  }

  /** Where the three digit runs of a version at the start of the text end. */
  datatype VersionSpan = VersionSpan(a: nat, b: nat, c: nat)

  /** Matches `\d{1,}\.\d{1,}\.\d{1,}` at the start of `w`, each run greedy;
      backtracking cannot help, since fewer digits leave a digit where a
      dot is needed (see VersionPrefixComplete). */
  function VersionPrefix(w: string): (r: Option<VersionSpan>)
    ensures r.Some? ==> IsVersionAt(w, r.value.a, r.value.b, r.value.c)
    ensures r.Some? ==> r.value.c == |w| || !IsDigit(w[r.value.c])
  {
    var a := DigitsEnd(w, 0);
    if a == 0 || a == |w| || w[a] != '.' then None
    else
      var b := DigitsEnd(w, a + 1);
      if b == a + 1 || b == |w| || w[b] != '.' then None
      else
        var c := DigitsEnd(w, b + 1);
        if c == b + 1 then None else Some(VersionSpan(a, b, c))
  }

  lemma {:induction false} DigitsEndAt(w: string, i: nat, j: nat)
    requires i <= j <= |w|
    requires forall k :: i <= k < j ==> IsDigit(w[k])
    requires j == |w| || !IsDigit(w[j])
    ensures DigitsEnd(w, i) == j
    decreases j - i
  {
    if i < j {
      DigitsEndAt(w, i + 1, j);
    }
  }

  /** Whenever the text starts with a version, VersionPrefix finds it, with
      the same dots. */
  lemma VersionPrefixComplete(w: string, a: nat, b: nat, c: nat)
    requires IsVersionAt(w, a, b, c)
    ensures VersionPrefix(w).Some?
    ensures VersionPrefix(w).value.a == a && VersionPrefix(w).value.b == b && c <= VersionPrefix(w).value.c
  {
    DigitsEndAt(w, 0, a);
    DigitsEndAt(w, a + 1, b);
    assert IsDigit(w[b + 1]);
  }

  /** First index at or after `i` holding `,` or `)`: where `[^,)]*` stops. */
  function StopEnd(w: string, i: nat): (j: nat)
    requires i <= |w|
    ensures i <= j <= |w|
    ensures forall k :: i <= k < j ==> w[k] != ',' && w[k] != ')'
    ensures j < |w| ==> w[j] == ',' || w[j] == ')'
    decreases |w| - i
  {
    if i == |w| || w[i] == ',' || w[i] == ')' then i else StopEnd(w, i + 1)
  }

  /** The capture group when the version part of the pattern starts at the
      beginning of `w`. */
  function VersionCapture(w: string): Option<string>
  {
    match VersionPrefix(w)
    case None => None
    case Some(span) => Some(w[..StopEnd(w, span.c)])
  }

  /** The pattern matched at index `p` of `s`, and its capture group. The
      optional `v` is tried first; giving it back cannot help, since the
      version must then start with the letter `v`. */
  function MatchAt(s: string, p: nat): Option<string>
    requires p <= |s|
  {
    if p + 5 <= |s| && s[p..p + 5] == "tag: " then
      var q := if p + 5 < |s| && s[p + 5] == 'v' then p + 6 else p + 5;
      VersionCapture(s[q..])
    else None
  }

  /** Index of the leftmost match at or after `p`. */
  function FirstMatch(s: string, p: nat): (r: Option<nat>)
    requires p <= |s|
    ensures r.Some? ==> p <= r.value <= |s| && MatchAt(s, r.value).Some?
    ensures r.Some? ==> forall j :: p <= j < r.value ==> MatchAt(s, j).None?
    ensures r.None? ==> forall k :: p <= k <= |s| ==> MatchAt(s, k).None?
    decreases |s| - p
  {
    if MatchAt(s, p).Some? then Some(p)
    else if p == |s| then None
    else FirstMatch(s, p + 1)
  }

  /** `s.match(pattern)[1]`, or None when the pattern does not match. */
  function MatchTag(s: string): Option<string>
  {
    match FirstMatch(s, 0)
    case None => None
    case Some(k) => MatchAt(s, k)
  }

  /** A tag as the record stores it: starts `digits.digits.digits` (so has
      no leading `v`), holds no `,` or `)`, and is trimmed. */
  predicate IsTagText(v: string)
  {
    VersionPrefix(v).Some? && ',' !in v && ')' !in v && Trim(v) == v
  }

  /** The `tag` of a commit record: `null` when the ref names carry no
      `tag:` marker, `undefined` when they do but the pattern fails, and the
      trimmed capture otherwise. */
  datatype TagField = Null | Undefined | Version(version: string)

  function TagOf(refNames: string): TagField
  {
    if Contains(refNames, "tag:") then
      match MatchTag(refNames)
      case Some(t) => Version(Trim(t))
      case None => Undefined
    else Null
  }

  /** The latest tag named by the annotation, `0.0.0` when none matches. */
  function LatestTag(annotation: string): string
  {
    match MatchTag(annotation)
    case Some(t) => Trim(t)
    case None => "0.0.0"
  }

  // ---------------------------------------------------------------- properties

  lemma VersionPrefixOfSlice(w: string, n: nat)
    requires n <= |w| && VersionPrefix(w).Some? && VersionPrefix(w).value.c <= n
    ensures VersionPrefix(w[..n]).Some?
  {
    var span := VersionPrefix(w).value;
    assert IsVersionAt(w[..n], span.a, span.b, span.c);
    VersionPrefixComplete(w[..n], span.a, span.b, span.c);
  }

  /** The capture starts with a version and holds no `,` or `)`. */
  lemma CaptureShape(s: string)
    requires MatchTag(s).Some?
    ensures VersionPrefix(MatchTag(s).value).Some?
    ensures ',' !in MatchTag(s).value && ')' !in MatchTag(s).value
  {
    var k := FirstMatch(s, 0).value;
    var q := if k + 5 < |s| && s[k + 5] == 'v' then k + 6 else k + 5;
    VersionCaptureShape(s[q..]);
  }

  lemma VersionCaptureShape(w: string)
    requires VersionCapture(w).Some?
    ensures VersionPrefix(VersionCapture(w).value).Some?
    ensures ',' !in VersionCapture(w).value && ')' !in VersionCapture(w).value
  {
    var span := VersionPrefix(w).value;
    var e := StopEnd(w, span.c);
    VersionPrefixOfSlice(w, e);
    NoStopBefore(w, span.c, e);
  }

  lemma NoStopBefore(w: string, i: nat, e: nat)
    requires i <= |w| && e == StopEnd(w, i)
    ensures forall k :: i <= k < e ==> w[..e][k] != ',' && w[..e][k] != ')'
  {
  }

  /** Trimming such a capture keeps the version and leaves a tag. */
  lemma TrimKeepsTag(t: string)
    requires VersionPrefix(t).Some? && ',' !in t && ')' !in t
    ensures IsTagText(Trim(t))
  {
    var c := VersionPrefix(t).value.c;
    assert !IsWhitespace(t[0]) && !IsWhitespace(t[c - 1]);
    TrimFromStart(t);
    var j := TrailingEnd(t);
    assert c <= j;
    VersionPrefixOfSlice(t, j);
    TrimIdempotent(t);
  }

  /** A capture is a slice of the text it was found in. */
  lemma MatchAtNoBreak(s: string, p: nat)
    requires p <= |s| && '\n' !in s && MatchAt(s, p).Some?
    ensures '\n' !in MatchAt(s, p).value
  {
    var q := if p + 5 < |s| && s[p + 5] == 'v' then p + 6 else p + 5;
    var w := s[q..];
    assert '\n' !in w;
    assert MatchAt(s, p).value == w[..StopEnd(w, VersionPrefix(w).value.c)];
  }

  /** The tag field holds only characters of the ref names, so a one-line
      ref-name field gives a one-line tag. */
  lemma TagOfNoBreak(refNames: string)
    requires '\n' !in refNames
    ensures TagOf(refNames).Version? ==> '\n' !in TagOf(refNames).version
  {
    if TagOf(refNames).Version? {
      var t := MatchTag(refNames).value;
      MatchAtNoBreak(refNames, FirstMatch(refNames, 0).value);
      var i, j :| 0 <= i <= j <= |t| && Trim(t) == t[i..j];
      assert '\n' !in t[i..j];
    }
  }

  /** What the pattern captures is, once trimmed, a well-formed tag. */
  lemma CaptureIsTag(s: string)
    requires MatchTag(s).Some?
    ensures IsTagText(Trim(MatchTag(s).value))
  {
    CaptureShape(s);
    TrimKeepsTag(MatchTag(s).value);
  }

  /** Reading a stored tag back through the pattern gives the tag itself. */
  lemma TagReparse(v: string)
    requires IsTagText(v)
    ensures MatchTag("tag: " + v) == Some(v)
    ensures TagOf("tag: " + v) == Version(v)
  {
    var s := "tag: " + v;
    assert s[0..5] == "tag: " && s[5..] == v && s[5] == v[0];
    assert IsDigit(v[0]) by {
      var span := VersionPrefix(v).value;
      assert IsVersionAt(v, span.a, span.b, span.c);
    }
    CaptureWhole(v);
    MatchAtStart(s, v);
    MatchFirst(s, v);
    MarkerAtFront(s);
  }

  /** The optional `v` before the version is not part of the tag. */
  lemma TagDropsV(v: string)
    requires IsTagText(v)
    ensures TagOf("tag: v" + v) == Version(v)
  {
    var s := "tag: v" + v;
    assert s[0..5] == "tag: " && s[5] == 'v' && s[6..] == v;
    CaptureWhole(v);
    MatchAtStart(s, v);
    MatchFirst(s, v);
    MarkerAtFront(s);
  }

  /** A tag captures itself whole: the version, then up to the end. */
  lemma CaptureWhole(v: string)
    requires IsTagText(v)
    ensures VersionCapture(v) == Some(v)
  {
    var span := VersionPrefix(v).value;
    assert StopEnd(v, span.c) == |v|;
    assert v[..|v|] == v;
  }

  lemma MatchAtStart(s: string, w: string)
    requires |s| >= 5 && s[0..5] == "tag: "
    requires w == if |s| > 5 && s[5] == 'v' then s[6..] else s[5..]
    ensures MatchAt(s, 0) == VersionCapture(w)
  {
  }

  lemma MatchFirst(s: string, v: string)
    requires |s| >= 5 && s[0..5] == "tag: " && MatchAt(s, 0) == Some(v)
    ensures MatchTag(s) == Some(v)
  {
  }

  lemma MarkerAtFront(s: string)
    requires |s| >= 5 && s[0..5] == "tag: "
    ensures Contains(s, "tag:")
  {
    assert s[0..4] == s[0..5][..4] == "tag:";
    assert OccursAt(s, "tag:", 0);
  }

  /** The tag field: `null` exactly without a `tag:` marker, `undefined`
      exactly when the marker is there and the pattern matches nowhere, and
      otherwise a well-formed tag. */
  lemma TagOfCases(refNames: string)
    ensures TagOf(refNames).Null? <==> !Contains(refNames, "tag:")
    ensures TagOf(refNames).Undefined? <==>
              Contains(refNames, "tag:") && forall k :: 0 <= k <= |refNames| ==> MatchAt(refNames, k).None?
    ensures TagOf(refNames).Version? ==> IsTagText(TagOf(refNames).version)
  {
    if MatchTag(refNames).Some? {
      CaptureIsTag(refNames);
    }
  }

  /** The latest tag is a well-formed tag whichever way it is found. */
  lemma LatestTagIsTag(annotation: string)
    ensures IsTagText(LatestTag(annotation))
  {
    if MatchTag(annotation).Some? {
      CaptureIsTag(annotation);
    } else {
      DefaultTagIsTag();
    }
  }

  lemma DefaultTagIsTag()
    ensures IsTagText("0.0.0")
  {
    assert IsVersionAt("0.0.0", 1, 3, 5);
    VersionPrefixComplete("0.0.0", 1, 3, 5);
    TrimUntouched("0.0.0");
  }
}
