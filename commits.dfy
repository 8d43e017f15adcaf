/** The first two stages of the changelog pipeline: `splitCommits`, which
    cuts the `git log` text into lines, and `formatCommits`, which turns
    each `date~>refNames~>hash~>subject~>parents` line into a commit record,
    carrying the first parent of the latest merge from line to line. */
module Commits {
  import opened Wrappers
  import opened Text
  import opened Escape
  import opened Tags
  import opened Errors
  import opened Seqs

  /** One changelog entry. `indent` is decided by a later stage; the
      records built here carry `false` there. */
  datatype CommitRecord = CommitRecord(
    date: string,
    tag: TagField,
    hash: string,
    subject: string,
    mergeCommitStart: bool,
    mergeCommitEnd: bool,
    indent: bool)

  /** The field delimiter of the log format. */
  const Delimiter := "~>"

  // ---------------------------------------------------------------- splitCommits

  /** `commits.trim().split("\n")`. */
  function SplitCommits(raw: string): (lines: seq<string>)
    ensures |lines| >= 1
    ensures forall i :: 0 <= i < |lines| ==> '\n' !in lines[i]
    ensures Join(lines, "\n") == Trim(raw)
  {
    var lines := SplitOn(Trim(raw), "\n");
    forall i | 0 <= i < |lines| ensures '\n' !in lines[i] {
      ContainsChar(lines[i], '\n');
    }
    lines
  }

  /** Splitting the log recovers exactly the lines it was made of. */
  lemma SplitCommitsJoin(lines: seq<string>)
    requires |lines| >= 1
    requires forall i :: 0 <= i < |lines| ==> '\n' !in lines[i]
    requires Trim(Join(lines, "\n")) == Join(lines, "\n")
    ensures SplitCommits(Join(lines, "\n")) == lines
  {
    forall i | 0 <= i < |lines| ensures !Contains(lines[i], "\n") {
      ContainsChar(lines[i], '\n');
    }
    SplitJoin(lines, "\n");
  }

  // ---------------------------------------------------------------- one line

  /** The five fields of a log line, as destructured from
      `commit.split("~>")`; `parents` is missing on a four-field line. */
  datatype LineFields = LineFields(date: string, refNames: string, hash: string, subject: string, parents: Option<string>)

  /** `line.split("~>")`. */
  function Fields(line: string): seq<string>
  {
    SplitOn(line, Delimiter)
  }

  /** The fields of a line, or None when it has fewer than four: its subject
      is then `undefined` and escaping it throws. Fields past the fifth are
      ignored. */
  function ParseLine(line: string): Option<LineFields>
  {
    var parts := Fields(line);
    if |parts| < 4 then None
    else Some(LineFields(parts[0], parts[1], parts[2], parts[3], if |parts| >= 5 then Some(parts[4]) else None))
  }

  /** Five delimiter-free fields joined by the delimiter are read back. */
  lemma ParseLineJoin(date: string, refNames: string, hash: string, subject: string, parents: string)
    requires !Contains(date, Delimiter) && !Contains(refNames, Delimiter) && !Contains(hash, Delimiter)
    requires !Contains(subject, Delimiter) && !Contains(parents, Delimiter)
    ensures Fields(Join([date, refNames, hash, subject, parents], Delimiter)) == [date, refNames, hash, subject, parents]
    ensures ParseLine(Join([date, refNames, hash, subject, parents], Delimiter))
              == Some(LineFields(date, refNames, hash, subject, Some(parents)))
  {
    var parts := [date, refNames, hash, subject, parents];
    assert BorderFree(Delimiter) by {
      assert Delimiter[..1] == "~" && Delimiter[1..] == ">";
    }
    SplitJoin(parts, Delimiter);
  }

  /** A text without `~` holds no delimiter. */
  lemma NoTilde(x: string)
    requires '~' !in x
    ensures !Contains(x, Delimiter)
  {
    forall k ensures !OccursAt(x, Delimiter, k) {
      if 0 <= k && k + 2 <= |x| {
        assert x[k..k + 2][0] == x[k];
      }
    }
  }

  /** Five fields joined by the delimiter, written out. */
  lemma JoinFive(date: string, refNames: string, hash: string, subject: string, parents: string)
    ensures Join([date, refNames, hash, subject, parents], Delimiter)
              == date + "~>" + refNames + "~>" + hash + "~>" + subject + "~>" + parents
  {
    var parts := [date, refNames, hash, subject, parents];
    assert parts[3..][1..] == parts[4..];
    assert parts[2..][1..] == parts[3..];
    assert parts[1..][1..] == parts[2..];
    assert Join(parts[3..], Delimiter) == subject + "~>" + parents;
    assert Join(parts[2..], Delimiter) == hash + "~>" + (subject + "~>" + parents);
    assert Join(parts[1..], Delimiter) == refNames + "~>" + (hash + "~>" + (subject + "~>" + parents));
  }

  /** A merge commit: its parents field lists more than one hash. */
  predicate IsMergeStart(f: LineFields)
  {
    f.parents.Some? && Contains(f.parents.value, " ")
  }

  /** `parents.slice(0, parents.indexOf(" "))`. */
  function FirstParent(parents: string): (p: string)
    requires Contains(parents, " ")
    ensures |p| < |parents| && parents[..|p|] == p && parents[|p|] == ' '
    ensures ' ' !in p
  {
    var i := IndexOf(parents, " ").value;
    assert parents[i..i + 1] == " ";
    forall k | 0 <= k < i ensures parents[k] != ' ' {
      if parents[k] == ' ' {
        assert parents[k..k + 1] == " ";
        assert OccursAt(parents, " ", k);
      }
    }
    parents[..i]
  }

  /** The first parent a merge start records for the lines after it. */
  function StartParent(f: LineFields): Option<string>
  {
    if IsMergeStart(f) then Some(FirstParent(f.parents.value)) else None
  }

  // ---------------------------------------------------------------- merge subjects

  const MergePrefix := "Merge branch '"

  /** First index at or after `i` holding a quote or a line terminator:
      where a lazy `.+?'` can stop or must give up. */
  function QuoteEnd(s: string, i: nat): (j: nat)
    requires i <= |s|
    ensures i <= j <= |s|
    ensures forall k :: i <= k < j ==> s[k] != '\'' && !IsLineTerminator(s[k])
    ensures j < |s| ==> s[j] == '\'' || IsLineTerminator(s[j])
    decreases |s| - i
  {
    if i == |s| || s[i] == '\'' || IsLineTerminator(s[i]) then i else QuoteEnd(s, i + 1)
  }

  /** First index at or after `i` holding a line terminator: where `.*` stops. */
  function LineEnd(s: string, i: nat): (j: nat)
    requires i <= |s|
    ensures i <= j <= |s|
    ensures forall k :: i <= k < j ==> !IsLineTerminator(s[k])
    ensures j < |s| ==> IsLineTerminator(s[j])
    decreases |s| - i
  {
    if i == |s| || IsLineTerminator(s[i]) then i else LineEnd(s, i + 1)
  }

  /** The rewrite `formatCommits` applies to a merge subject: a subject
      opening with `Merge branch '` followed by a quoted name (at least one
      character, up to the first closing quote, on one line) becomes
      `Implement` and that quoted name; the rest of the line is dropped and
      any other subject is left alone. */
  function MergeRewrite(subject: string): string
  {
    var n := |MergePrefix|;
    if |subject| > n && subject[..n] == MergePrefix && !IsLineTerminator(subject[n]) then
      var close := QuoteEnd(subject, n + 1);
      if close < |subject| && subject[close] == '\'' then
        "Implement " + subject[n - 1..close + 1] + subject[LineEnd(subject, close + 1)..]
      else subject
    else subject
  }

  lemma {:induction false} QuoteEndAt(s: string, i: nat, j: nat)
    requires i <= j < |s| && s[j] == '\''
    requires forall k :: i <= k < j ==> s[k] != '\'' && !IsLineTerminator(s[k])
    ensures QuoteEnd(s, i) == j
    decreases j - i
  {
    if i < j {
      QuoteEndAt(s, i + 1, j);
    }
  }

  lemma {:induction false} LineEndAt(s: string, i: nat)
    requires i <= |s|
    requires forall k :: i <= k < |s| ==> !IsLineTerminator(s[k])
    ensures LineEnd(s, i) == |s|
    decreases |s| - i
  {
    if i < |s| {
      LineEndAt(s, i + 1);
    }
  }

  /** `Merge branch '<x>'<rest>` becomes `Implement '<x>'`, for a branch
      name without quotes on a single line. */
  lemma MergeRewriteBranch(x: string, rest: string)
    requires |x| >= 1 && '\'' !in x
    requires forall k :: 0 <= k < |x| ==> !IsLineTerminator(x[k])
    requires forall k :: 0 <= k < |rest| ==> !IsLineTerminator(rest[k])
    ensures MergeRewrite(MergePrefix + x + "'" + rest) == "Implement '" + x + "'"
  {
    var s := MergePrefix + x + "'" + rest;
    var n := |MergePrefix|;
    assert s[..n] == MergePrefix;
    assert s[n] == x[0];
    var close := n + |x|;
    assert s[close] == '\'';
    forall k | n + 1 <= k < close ensures s[k] != '\'' && !IsLineTerminator(s[k]) {
      assert s[k] == x[k - n];
    }
    QuoteEndAt(s, n + 1, close);
    forall k | close + 1 <= k < |s| ensures !IsLineTerminator(s[k]) {
      assert s[k] == rest[k - close - 1];
    }
    LineEndAt(s, close + 1);
    assert s[n - 1..close + 1] == "'" + x + "'";
  }

  /** The rewrite keeps a one-line subject on one line. */
  lemma MergeRewriteNoBreak(subject: string)
    requires '\n' !in subject
    ensures '\n' !in MergeRewrite(subject)
  {
  }

  /** A subject that does not open with `Merge branch '` is left alone. */
  lemma MergeRewriteOther(subject: string)
    requires !StartsWith(subject, MergePrefix)
    ensures MergeRewrite(subject) == subject
  {
  }

  /** A rewritten subject always reads `Implement '...`. */
  lemma MergeRewriteChanged(subject: string)
    requires MergeRewrite(subject) != subject
    ensures StartsWith(subject, MergePrefix)
    ensures StartsWith(MergeRewrite(subject), "Implement '")
  {
    var n := |MergePrefix|;
    var r := MergeRewrite(subject);
    var close := QuoteEnd(subject, n + 1);
    assert subject[n - 1] == '\'';
    assert r[..11] == "Implement '";
  }

  // ---------------------------------------------------------------- one record

  /** `prevParent` after a line: a merge start records its first parent. */
  function NextParent(f: LineFields, prev: Option<string>): Option<string>
  {
    match StartParent(f)
    case Some(p) => Some(p)
    case None => prev
  }

  /** The subject as it reaches the escaper. */
  function PlainSubject(f: LineFields): string
  {
    if IsMergeStart(f) then MergeRewrite(f.subject) else f.subject
  }

  /** A line's fields with the `prevParent` in force when it is reached. */
  datatype Step = Step(fields: LineFields, prevParent: Option<string>)

  /** The record `formatCommits` builds for one step. */
  function Record(step: Step): CommitRecord
  {
    var f := step.fields;
    var start := IsMergeStart(f);
    CommitRecord(f.date, TagOf(f.refNames), f.hash, EncodeHTML(PlainSubject(f)), start, !start && step.prevParent == Some(f.hash), false)
  }

  // ---------------------------------------------------------------- formatCommits

  /** `prevParent` after the records `fs`: the first parent of the last
      merge start among them. */
  function PrevParentAfter(fs: seq<LineFields>): Option<string>
  {
    LastSome(StartParent, fs)
  }

  /** The parsed lines, in order, each with the parent carried to it from
      the lines before it. */
  function Steps(fs: seq<LineFields>): (steps: seq<Step>)
    ensures |steps| == |fs|
  {
    if fs == [] then []
    else
      var init := fs[..|fs| - 1];
      Steps(init) + [Step(fs[|fs| - 1], PrevParentAfter(init))]
  }

  /** The records built from the parsed lines. */
  function FormatFields(fs: seq<LineFields>): seq<CommitRecord>
  {
    MapAll(Record, Steps(fs))
  }

  /** The result of `formatCommits`: one record per line, or the error the
      first malformed line raises. */
  function FormatAll(lines: seq<string>): Result<seq<CommitRecord>, Error>
  {
    match TraversePrefix(ParseLine, lines, |lines|)
    case Err(i) => Err(MalformedLine(i))
    case Ok(fs) => Ok(FormatFields(fs))
  }

  /** Formatting one more line appends its record. */
  lemma FormatFieldsSnoc(fs: seq<LineFields>, f: LineFields)
    ensures FormatFields(fs + [f]) == FormatFields(fs) + [Record(Step(f, PrevParentAfter(fs)))]
    ensures PrevParentAfter(fs + [f]) == NextParent(f, PrevParentAfter(fs))
  {
    var steps := Steps(fs);
    var step := Step(f, PrevParentAfter(fs));
    assert (fs + [f])[..|fs|] == fs;
    assert (fs + [f])[|fs|] == f;
    assert Steps(fs + [f]) == steps + [step];
    assert (steps + [step])[..|fs|] == steps;
  }

  /** `formatCommits`: one pass over the lines, carrying `prevParent`. */
  method FormatCommits(lines: seq<string>) returns (r: Result<seq<CommitRecord>, Error>)
    ensures r == FormatAll(lines)
  {
    var prevParent: Option<string> := None;
    var records: seq<CommitRecord> := [];
    ghost var fs: seq<LineFields> := [];
    for i := 0 to |lines|
      invariant TraversePrefix(ParseLine, lines, i) == Ok(fs) && |fs| == i
      invariant prevParent == PrevParentAfter(fs)
      invariant records == FormatFields(fs)
    {
      var fields := ParseLine(lines[i]);
      if fields.None? {
        TraverseSticky(ParseLine, lines, i + 1, |lines|);
        return Err(MalformedLine(i));
      }
      var record := Record(Step(fields.value, prevParent));
      prevParent := NextParent(fields.value, prevParent);
      FormatFieldsSnoc(fs, fields.value);
      fs := fs + [fields.value];
      records := records + [record];
    }
    return Ok(records);
  }

  // ---------------------------------------------------------------- properties of the pass

  /** Step `i` carries line `i` with the parent left by the lines before it. */
  lemma {:induction false} StepsAt(fs: seq<LineFields>)
    ensures forall i :: 0 <= i < |fs| ==> Steps(fs)[i] == Step(fs[i], PrevParentAfter(fs[..i]))
  {
    if fs != [] {
      var init := fs[..|fs| - 1];
      StepsAt(init);
      forall i | 0 <= i < |fs| - 1 ensures init[i] == fs[i] && init[..i] == fs[..i] {
      }
    }
  }

  /** Record `i` is the record of step `i`. */
  lemma FormatFieldsAt(fs: seq<LineFields>, i: nat)
    requires i < |fs|
    ensures |FormatFields(fs)| == |fs|
    ensures FormatFields(fs)[i] == Record(Step(fs[i], PrevParentAfter(fs[..i])))
  {
    StepsAt(fs);
  }

  /** A record is marked as a merge start exactly when its line records a
      first parent for the lines after it. */
  lemma StartFlags(fs: seq<LineFields>)
    ensures forall k :: 0 <= k < |fs| ==> (FormatFields(fs)[k].mergeCommitStart <==> StartParent(fs[k]).Some?)
  {
    forall k | 0 <= k < |fs| ensures FormatFields(fs)[k].mergeCommitStart <==> StartParent(fs[k]).Some? {
      FormatFieldsAt(fs, k);
    }
  }

  /** The lines parsed for a successful pass. */
  lemma ParsedLines(lines: seq<string>)
    requires TraversePrefix(ParseLine, lines, |lines|).Ok?
    ensures |TraversePrefix(ParseLine, lines, |lines|).value| == |lines|
    ensures forall j :: 0 <= j < |lines| ==> ParseLine(lines[j]) == Some(TraversePrefix(ParseLine, lines, |lines|).value[j])
  {
    TraverseMeaning(ParseLine, lines, |lines|);
  }

  /** A successful pass yields one record per line. */
  lemma FormatAllLength(lines: seq<string>)
    ensures FormatAll(lines).Ok? ==> |FormatAll(lines).value| == |lines|
  {
    if FormatAll(lines).Ok? {
      ParsedLines(lines);
      StepsAt(TraversePrefix(ParseLine, lines, |lines|).value);
    }
  }

  /** `formatCommits` fails exactly when some line has fewer than four
      fields, and then names the first such line. */
  lemma FormatAllFails(lines: seq<string>)
    ensures FormatAll(lines).Err? <==> exists i :: 0 <= i < |lines| && |Fields(lines[i])| < 4
    ensures FormatAll(lines).Err? ==>
              exists i :: 0 <= i < |lines| && FormatAll(lines).error == MalformedLine(i) &&
                |Fields(lines[i])| < 4 && forall j :: 0 <= j < i ==> |Fields(lines[j])| >= 4
  {
    TraverseMeaning(ParseLine, lines, |lines|);
  }

  /** Record `i` copies the date and hash of line `i`, takes its tag from
      the ref names, is a merge start exactly when the parents field lists
      more than one hash, and carries the (possibly rewritten) subject in
      escaped form. */
  lemma FormatAllRecord(lines: seq<string>, i: nat)
    requires FormatAll(lines).Ok? && i < |lines|
    ensures |FormatAll(lines).value| == |lines|
    ensures |Fields(lines[i])| >= 4
    ensures var parts, r := Fields(lines[i]), FormatAll(lines).value[i];
              r.date == parts[0] && r.hash == parts[2] && r.tag == TagOf(parts[1]) &&
              (r.mergeCommitStart <==> |parts| >= 5 && Contains(parts[4], " ")) &&
              r.subject == EncodeHTML(if r.mergeCommitStart then MergeRewrite(parts[3]) else parts[3]) &&
              !r.indent
  {
    var fs := TraversePrefix(ParseLine, lines, |lines|).value;
    ParsedLines(lines);
    FormatFieldsAt(fs, i);
  }

  /** The subject of record `i` decodes to the subject of line `i`, after the
      merge rewrite; and it holds no raw `<`. */
  lemma FormatAllSubject(lines: seq<string>, i: nat)
    requires FormatAll(lines).Ok? && i < |lines|
    ensures |FormatAll(lines).value| == |lines| && |Fields(lines[i])| >= 4
    ensures var parts, r := Fields(lines[i]), FormatAll(lines).value[i];
              Decode(r.subject) == (if r.mergeCommitStart then MergeRewrite(parts[3]) else parts[3]) &&
              '<' !in r.subject
  {
    FormatAllRecord(lines, i);
    var parts, r := Fields(lines[i]), FormatAll(lines).value[i];
    var plain := if r.mergeCommitStart then MergeRewrite(parts[3]) else parts[3];
    DecodeEncode(plain);
    EncodeHTMLSafe(plain);
  }

  /** The tag of record `i`: `null` without a `tag:` marker in the ref
      names, undefined when the marker is there but no version follows it,
      and otherwise a trimmed version text that reads back as itself. */
  lemma FormatAllTag(lines: seq<string>, i: nat)
    requires FormatAll(lines).Ok? && i < |lines|
    ensures |FormatAll(lines).value| == |lines| && |Fields(lines[i])| >= 4
    ensures var refNames, t := Fields(lines[i])[1], FormatAll(lines).value[i].tag;
              (t.Null? <==> !Contains(refNames, "tag:")) &&
              (t.Undefined? <==> Contains(refNames, "tag:") && forall k :: 0 <= k <= |refNames| ==> MatchAt(refNames, k).None?) &&
              (t.Version? ==> IsTagText(t.version) && TagOf("tag: " + t.version) == t)
  {
    FormatAllRecord(lines, i);
    var t := FormatAll(lines).value[i].tag;
    TagOfCases(Fields(lines[i])[1]);
    if t.Version? {
      TagReparse(t.version);
    }
  }

  /** A two-line log made of a merge start and then a line that is not one:
      the first record carries no parent, the second the merge's first
      parent. */
  lemma FormatAllPair(lines: seq<string>, x: LineFields, y: LineFields)
    requires |lines| == 2 && ParseLine(lines[0]) == Some(x) && ParseLine(lines[1]) == Some(y)
    requires IsMergeStart(x)
    ensures FormatAll(lines) == Ok([Record(Step(x, None)), Record(Step(y, StartParent(x)))])
  {
    TraverseTwo(ParseLine, lines, x, y);
    StepsTwo(x, y);
  }

  lemma StepsTwo(x: LineFields, y: LineFields)
    ensures FormatFields([x, y]) == [Record(Step(x, None)), Record(Step(y, StartParent(x)))]
  {
    var fs := [x, y];
    assert fs[..1] == [x] && [x][..0] == [];
    assert LastSome(StartParent, [x][..0]) == None;
    assert PrevParentAfter([x]) == StartParent(x);
    var steps := [Step(x, None), Step(y, StartParent(x))];
    assert Steps(fs) == steps;
  }

  /** The first parent a line records, if it is a merge start. */
  function LineStartParent(line: string): Option<string>
  {
    match ParseLine(line)
    case Some(f) => StartParent(f)
    case None => None
  }

  /** Record `i` ends a merge exactly when it is no merge start and the
      carried parent is its hash. */
  lemma MergeEndCarried(fs: seq<LineFields>, i: nat)
    requires i < |fs|
    ensures |FormatFields(fs)| == |fs|
    ensures var r := FormatFields(fs)[i];
              r.hash == fs[i].hash &&
              (r.mergeCommitEnd <==> !r.mergeCommitStart && LastSome(StartParent, fs[..i]) == Some(r.hash))
  {
    FormatFieldsAt(fs, i);
  }

  /** A merge end has a merge start before it, with no other merge start in
      between, whose first parent is the end's hash. */
  lemma MergeEndSound(fs: seq<LineFields>, i: nat)
    requires i < |fs| && FormatFields(fs)[i].mergeCommitEnd
    ensures |FormatFields(fs)| == |fs|
    ensures var rs := FormatFields(fs);
              !rs[i].mergeCommitStart &&
              exists j :: 0 <= j < i && StartParent(fs[j]) == Some(rs[i].hash) &&
                forall k :: j < k < i ==> !rs[k].mergeCommitStart
  {
    var rs := FormatFields(fs);
    var before := fs[..i];
    var h := rs[i].hash;
    MergeEndCarried(fs, i);
    LastSomeMeaning(StartParent, before, h);
    var j :| 0 <= j < |before| && StartParent(before[j]) == Some(h) &&
             forall k :: j < k < |before| ==> StartParent(before[k]).None?;
    assert before[j] == fs[j];
    forall k | j < k < i ensures !rs[k].mergeCommitStart {
      assert before[k] == fs[k];
      FormatFieldsAt(fs, k);
    }
    assert StartParent(fs[j]) == Some(h);
  }

  /** A record that is no merge start and whose hash is the first parent of
      the latest merge start before it ends a merge. */
  lemma MergeEndComplete(fs: seq<LineFields>, i: nat, j: nat)
    requires i < |fs| && j < i
    requires !FormatFields(fs)[i].mergeCommitStart
    requires StartParent(fs[j]) == Some(FormatFields(fs)[i].hash)
    requires forall k :: j < k < i ==> !FormatFields(fs)[k].mergeCommitStart
    ensures FormatFields(fs)[i].mergeCommitEnd
  {
    var rs := FormatFields(fs);
    var before := fs[..i];
    var h := rs[i].hash;
    MergeEndCarried(fs, i);
    StartFlags(fs);
    assert before[j] == fs[j];
    forall k | j < k < |before| ensures StartParent(before[k]).None? {
      assert before[k] == fs[k];
    }
    LastSomeMeaning(StartParent, before, h);
  }

  /** Record `i` ends a merge exactly when it is not a merge start and its
      hash is the first parent of the latest merge start before it; the two
      flags are never both set. */
  lemma FormatAllMergeEnd(lines: seq<string>, i: nat)
    requires FormatAll(lines).Ok? && i < |lines|
    ensures |FormatAll(lines).value| == |lines|
    ensures var rs := FormatAll(lines).value;
              !(rs[i].mergeCommitStart && rs[i].mergeCommitEnd) &&
              (rs[i].mergeCommitEnd <==>
                 !rs[i].mergeCommitStart &&
                 exists j :: 0 <= j < i && LineStartParent(lines[j]) == Some(rs[i].hash) &&
                   forall k :: j < k < i ==> !rs[k].mergeCommitStart)
  {
    var fs := TraversePrefix(ParseLine, lines, |lines|).value;
    var rs := FormatAll(lines).value;
    ParsedLines(lines);
    assert forall j :: 0 <= j < i ==> LineStartParent(lines[j]) == StartParent(fs[j]);
    MergeEndCarried(fs, i);
    if rs[i].mergeCommitEnd {
      MergeEndSound(fs, i);
    }
    if !rs[i].mergeCommitStart &&
       exists j :: 0 <= j < i && LineStartParent(lines[j]) == Some(rs[i].hash) &&
         forall k :: j < k < i ==> !rs[k].mergeCommitStart {
      var j :| 0 <= j < i && LineStartParent(lines[j]) == Some(rs[i].hash) &&
               forall k :: j < k < i ==> !rs[k].mergeCommitStart;
      MergeEndComplete(fs, i, j);
    }
  }
}
