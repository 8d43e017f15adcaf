/** The run of the tool: the argument check, the stages in their order, and
    the module-level state they share (the stage flag and the output
    buffer, with the commit-link prefix fixed at start-up). */
module Cli {
  import opened Wrappers
  import opened Text
  import opened Errors
  import opened Tags
  import opened Versions
  import opened Commits
  import opened Indentation
  import opened Document
  import opened Escape

  /** The one argument the tool accepts. */
  const StageFlag := "--stage"

  /** `checkArgs` succeeds: at most one argument, and that one the stage flag. */
  function ArgsAccepted(args: seq<string>): (ok: bool)
    ensures ok <==> args == [] || args == [StageFlag]
  {
    var stage := |args| > 0 && args[0] == StageFlag;
    !(|args| > 1 || (|args| == 1 && !stage))
  }

  /** The header of the unreleased commits at the top of the log. */
  function PendingHeader(pkgVersion: string, latestTag: string, today: string): string
  {
    VersionHeader(PendingLabel(pkgVersion, latestTag), today)
  }

  /** The changelog a run produces from its arguments, the `git log` text,
      the package version, the annotation of the latest tagged commit,
      today's date and the commit-link prefix, or the error that stops it. */
  function ChangelogText(args: seq<string>, log: string, pkgVersion: string, annotation: string,
                         today: string, uri: Option<string>): Result<string, Error>
  {
    if !ArgsAccepted(args) then Err(InvalidArgument)
    else
      var lines := SplitCommits(log);
      match FormatAll(lines)
      case Err(e) => Err(e)
      case Ok(rs) =>
        var records := Indented(rs);
        var latest := LatestTag(annotation);
        match CheckVersion(pkgVersion, latest)
        case Fail(e) => Err(e)
        case Pass =>
          FormatAllLength(lines);
          Ok(Compose(records, pkgVersion, latest, today, uri))
  }

  /** The document of a successful run: the title, the pending-release
      header when the newest record is untagged, then every entry. */
  function Compose(records: seq<CommitRecord>, pkgVersion: string, latestTag: string, today: string,
                   uri: Option<string>): string
    requires |records| > 0
  {
    Title + (if HasTag(records[0]) then "" else PendingHeader(pkgVersion, latestTag, today)) + Render(records, uri)
  }

  lemma Concat3(a: string, b: string, c: string)
    ensures (a + b) + c == a + (b + c)
  {
  }

  /** The three appends of `prepareOutput`'s callback build the entry. */
  lemma EntryPieces(before: string, r: CommitRecord, uri: Option<string>, header: string, lead: string, line: string)
    requires header == (if HasTag(r) then VersionHeader(r.tag.version, r.date) else "")
    requires lead == (if r.indent then "  " else "")
    requires line == match uri
                     case Some(u) => "- [" + r.subject + "](" + u + r.hash + ")\n"
                     case None => "- " + r.subject + "\n"
    ensures ((before + header) + lead) + line == before + Entry(r, uri)
  {
    assert Bullet(r, uri) == lead + line;
    Concat3(before + header, lead, line);
    Concat3(before, header, lead + line);
  }

  lemma RenderStep(records: seq<CommitRecord>, i: nat, uri: Option<string>)
    requires i < |records|
    ensures Render(records[..i + 1], uri) == Render(records[..i], uri) + Entry(records[i], uri)
  {
    assert records[..i + 1][..i] == records[..i];
  }

  /** A run succeeds exactly when the arguments are accepted, every log line
      has the four fields a record needs and the package version is not
      behind the latest tag. */
  lemma ChangelogSucceeds(args: seq<string>, log: string, pkgVersion: string, annotation: string,
                          today: string, uri: Option<string>)
    ensures var lines := SplitCommits(log);
            ChangelogText(args, log, pkgVersion, annotation, today, uri).Ok? <==>
              ArgsAccepted(args) && (forall i :: 0 <= i < |lines| ==> |Fields(lines[i])| >= 4) &&
              CheckVersion(pkgVersion, LatestTag(annotation)).Pass?
  {
    var lines := SplitCommits(log);
    FormatAllFails(lines);
    assert FormatAll(lines).Ok? <==> forall i :: 0 <= i < |lines| ==> |Fields(lines[i])| >= 4;
    if ArgsAccepted(args) && FormatAll(lines).Ok? {
      FormatAllLength(lines);
    }
  }

  /** A run reports an invalid argument exactly when `checkArgs` rejects
      the arguments. */
  lemma ChangelogArgsError(args: seq<string>, log: string, pkgVersion: string, annotation: string,
                           today: string, uri: Option<string>)
    ensures ChangelogText(args, log, pkgVersion, annotation, today, uri) == Err(InvalidArgument) <==>
              !ArgsAccepted(args)
  {
    var lines := SplitCommits(log);
    if ArgsAccepted(args) && FormatAll(lines).Ok? {
      FormatAllLength(lines);
    }
  }

  /** Past the argument check, the first failing stage names the error: the
      first line with too few fields, else the version check. */
  lemma ChangelogStageError(args: seq<string>, log: string, pkgVersion: string, annotation: string,
                            today: string, uri: Option<string>)
    requires ArgsAccepted(args)
    ensures var r := ChangelogText(args, log, pkgVersion, annotation, today, uri);
            var lines := SplitCommits(log);
            (FormatAll(lines).Err? ==>
               r.Err? && r.error.MalformedLine? && r.error.index < |lines| && |Fields(lines[r.error.index])| < 4 &&
               forall j :: 0 <= j < r.error.index ==> |Fields(lines[j])| >= 4) &&
            (FormatAll(lines).Ok? ==>
               r.Err? == CheckVersion(pkgVersion, LatestTag(annotation)).Fail? &&
               (r.Err? ==> r.error == CheckVersion(pkgVersion, LatestTag(annotation)).error))
  {
    var lines := SplitCommits(log);
    FormatAllFails(lines);
    if FormatAll(lines).Ok? {
      FormatAllLength(lines);
    }
  }

  /** A composed document always opens its first section with a version
      header: that of the newest record when it is tagged, the pending
      release (dated today) when it is not. */
  lemma ComposeFirstHeader(records: seq<CommitRecord>, pkgVersion: string, latestTag: string, today: string,
                           uri: Option<string>)
    requires |records| > 0
    ensures StartsWith(Compose(records, pkgVersion, latestTag, today, uri),
                       Title + (if HasTag(records[0])
                                then VersionHeader(records[0].tag.version, records[0].date)
                                else PendingHeader(pkgVersion, latestTag, today)))
  {
    var text := Compose(records, pkgVersion, latestTag, today, uri);
    if HasTag(records[0]) {
      var head := VersionHeader(records[0].tag.version, records[0].date);
      assert records == [records[0]] + records[1..];
      RenderAppend([records[0]], records[1..], uri);
      RenderSingle(records[0], uri);
      var rest := Bullet(records[0], uri) + Render(records[1..], uri);
      assert Render(records, uri) == head + rest by {
        Concat3(head, Bullet(records[0], uri), Render(records[1..], uri));
      }
      assert text == (Title + head) + rest by {
        Concat3(Title, "", Render(records, uri));
        Concat3(Title, head, rest);
      }
    } else {
      var pending := PendingHeader(pkgVersion, latestTag, today);
      assert text == (Title + pending) + Render(records, uri);
    }
  }

  /** A successful run always opens its first section with a version
      header, as `ComposeFirstHeader` describes, for the records the log
      yields. */
  lemma ChangelogFirstHeader(args: seq<string>, log: string, pkgVersion: string, annotation: string,
                             today: string, uri: Option<string>)
    requires ChangelogText(args, log, pkgVersion, annotation, today, uri).Ok?
    ensures var records := Indented(FormatAll(SplitCommits(log)).value);
            |records| > 0 &&
            StartsWith(ChangelogText(args, log, pkgVersion, annotation, today, uri).value,
                       Title + (if HasTag(records[0])
                                then VersionHeader(records[0].tag.version, records[0].date)
                                else PendingHeader(pkgVersion, LatestTag(annotation), today)))
  {
    var lines := SplitCommits(log);
    FormatAllLength(lines);
    var records := Indented(FormatAll(lines).value);
    ComposeFirstHeader(records, pkgVersion, LatestTag(annotation), today, uri);
  }

  /** A successful run renders one bullet line per log line, plus the three
      line breaks of a version header per tagged record, when the link
      prefix holds no line break. */
  lemma ChangelogLines(args: seq<string>, log: string, pkgVersion: string, annotation: string,
                       today: string, uri: Option<string>)
    requires ChangelogText(args, log, pkgVersion, annotation, today, uri).Ok?
    requires uri.Some? ==> '\n' !in uri.value
    ensures FormatAll(SplitCommits(log)).Ok?
    ensures var records := Indented(FormatAll(SplitCommits(log)).value);
            |records| == |SplitCommits(log)| &&
            Count(Render(records, uri), '\n') == |records| + 3 * TaggedCount(records)
  {
    var lines := SplitCommits(log);
    FormatAllSingleLine(lines, uri);
    var rs := FormatAll(lines).value;
    IndentedSingleLine(rs, uri);
    RenderLines(Indented(rs), uri);
  }

  /** The records handed to `flagIndention`, held in a fresh array that it
      updates in place. */
  method IndentRecords(rs: seq<CommitRecord>) returns (records: seq<CommitRecord>)
    ensures records == Indented(rs)
  {
    var a := new CommitRecord[|rs|](i requires 0 <= i < |rs| => rs[i]);
    assert a[..] == rs;
    FlagIndention(a);
    records := a[..];
  }

  class Changelog {
    /** Whether `--stage` was given. */
    var hasStageFlag: bool
    /** The document built so far. */
    var out: string
    /** The commit-link prefix, from the package homepage. */
    const commitUri: Option<string>

    constructor(homepage: Option<string>)
      ensures commitUri == CommitUri(homepage)
      ensures !hasStageFlag && out == ""
    {
      commitUri := CommitUri(homepage);
      hasStageFlag := false;
      out := "";
    }

    /** `checkArgs`. */
    method CheckArgs(args: seq<string>) returns (r: Outcome<Error>)
      modifies this
      ensures hasStageFlag == (|args| > 0 && args[0] == StageFlag)
      ensures out == old(out)
      ensures r == if ArgsAccepted(args) then Pass else Fail(InvalidArgument)
    {
      hasStageFlag := |args| > 0 && args[0] == StageFlag;
      if |args| > 1 || (|args| == 1 && !hasStageFlag) {
        return Fail(InvalidArgument);
      }
      return Pass;
    }

    /** `setHeader`: the document restarts with its title. */
    method SetHeader()
      modifies this
      ensures out == Title
      ensures hasStageFlag == old(hasStageFlag)
    {
      out := Title;
    }

    /** `handleFirstCommitVersion`, given the latest-tag annotation and
        today's date: rejects a package version behind the latest tag, and
        adds the pending-release header when the newest record is untagged. */
    method HandleFirstCommitVersion(records: seq<CommitRecord>, pkgVersion: string, annotation: string, today: string)
      returns (r: Outcome<Error>)
      requires |records| > 0
      modifies this
      ensures r == CheckVersion(pkgVersion, LatestTag(annotation))
      ensures out == old(out) + (if r.Pass? && !HasTag(records[0]) then PendingHeader(pkgVersion, LatestTag(annotation), today) else "")
      ensures hasStageFlag == old(hasStageFlag)
    {
      var latestTag := LatestTag(annotation);
      r := CheckVersion(pkgVersion, latestTag);
      if r.Fail? {
        return;
      }
      if !HasTag(records[0]) {
        out := out + VersionHeader(if pkgVersion == latestTag then "Latest" else pkgVersion, today);
      }
    }

    /** The callback `prepareOutput` runs on one record. */
    method AppendEntry(commit: CommitRecord)
      modifies this
      ensures out == old(out) + Entry(commit, commitUri)
      ensures hasStageFlag == old(hasStageFlag)
    {
      var header := "";
      if HasTag(commit) {
        header := VersionHeader(commit.tag.version, commit.date);
        out := out + header;
      }
      assert out == old(out) + header by {
        assert old(out) + "" == old(out);
      }
      ghost var headed := out;
      var lead := "";
      if commit.indent {
        lead := "  ";
        out := out + lead;
      }
      assert out == headed + lead by {
        assert headed + "" == headed;
      }
      var line;
      if commitUri.Some? {
        line := "- [" + commit.subject + "](" + commitUri.value + commit.hash + ")\n";
      } else {
        line := "- " + commit.subject + "\n";
      }
      out := out + line;
      EntryPieces(old(out), commit, commitUri, header, lead, line);
    }

    /** `prepareOutput`: the entry of each record, in order. */
    method PrepareOutput(records: seq<CommitRecord>)
      modifies this
      ensures out == old(out) + Render(records, commitUri)
      ensures hasStageFlag == old(hasStageFlag)
    {
      for i := 0 to |records|
        invariant out == old(out) + Render(records[..i], commitUri)
        invariant hasStageFlag == old(hasStageFlag)
      {
        AppendEntry(records[i]);
        RenderStep(records, i, commitUri);
        Concat3(old(out), Render(records[..i], commitUri), Entry(records[i], commitUri));
      }
      assert records[..|records|] == records;
    }

    /** The whole run, from the arguments to the finished document. */
    method Run(args: seq<string>, log: string, pkgVersion: string, annotation: string, today: string)
      returns (r: Result<string, Error>)
      modifies this
      ensures r == ChangelogText(args, log, pkgVersion, annotation, today, commitUri)
      ensures r.Ok? ==> out == r.value
      ensures hasStageFlag == (|args| > 0 && args[0] == StageFlag)
    {
      var checked := CheckArgs(args);
      if checked.Fail? {
        return Err(checked.error);
      }
      var lines := SplitCommits(log);
      var formatted := FormatCommits(lines);
      if formatted.Err? {
        return Err(formatted.error);
      }
      var rs := formatted.value;
      FormatAllLength(lines);
      var records := IndentRecords(rs);
      SetHeader();
      var version := HandleFirstCommitVersion(records, pkgVersion, annotation, today);
      if version.Fail? {
        assert ChangelogText(args, log, pkgVersion, annotation, today, commitUri) == Err(version.error);
        return Err(version.error);
      }
      PrepareOutput(records);
      assert out == Compose(records, pkgVersion, LatestTag(annotation), today, commitUri);
      assert ChangelogText(args, log, pkgVersion, annotation, today, commitUri) == Ok(out);
      return Ok(out);
    }
  }

  // ---------------------------------------------------------------- examples

  /** A merge start followed by its first parent: the merge subject becomes
      `Implement 'feat-x'`, the parent ends the merge, and neither record is
      indented. */
  lemma MergeExample(l0: string, l1: string)
    requires l0 == "2020-01-02" + "~>" + "" + "~>" + "aaa1" + "~>" + ("Merge branch '" + "feat-x" + "'" + " into main") + "~>" + "bbb2 ccc3"
    requires l1 == "2020-01-01" + "~>" + "" + "~>" + "bbb2" + "~>" + "Add feature x" + "~>" + "ddd4"
    ensures FormatAll([l0, l1]).Ok? && |FormatAll([l0, l1]).value| == 2
    ensures var rs := Indented(FormatAll([l0, l1]).value);
            rs[0].mergeCommitStart && !rs[0].mergeCommitEnd && rs[0].subject == "Implement 'feat-x'" && !rs[0].indent &&
            !rs[1].mergeCommitStart && rs[1].mergeCommitEnd && rs[1].subject == "Add feature x" && !rs[1].indent
  {
    ExampleMergeLine(l0);
    ExampleParentLine(l1);
    MergePair([l0, l1], ParseLine(l0).value, ParseLine(l1).value);
    ExamplePlain("Add feature x");
  }

  lemma ExampleMergeLine(l0: string)
    requires l0 == "2020-01-02" + "~>" + "" + "~>" + "aaa1" + "~>" + ("Merge branch '" + "feat-x" + "'" + " into main") + "~>" + "bbb2 ccc3"
    ensures ParseLine(l0).Some? && IsMergeStart(ParseLine(l0).value)
    ensures FirstParent(ParseLine(l0).value.parents.value) == "bbb2"
    ensures EncodeHTML(MergeRewrite(ParseLine(l0).value.subject)) == "Implement 'feat-x'"
  {
    ExampleFields(l0, "2020-01-02", "", "aaa1", "Merge branch '" + "feat-x" + "'" + " into main", "bbb2 ccc3");
    var f := ParseLine(l0).value;
    assert IsMergeStart(f) && FirstParent(f.parents.value) == "bbb2" by {
      ExampleFirstParent("bbb2 ccc3");
    }
    assert EncodeHTML(MergeRewrite(f.subject)) == "Implement 'feat-x'" by {
      ExampleRewrite("Merge branch '" + "feat-x" + "'" + " into main");
      ExamplePlain("Implement 'feat-x'");
    }
  }

  lemma ExampleParentLine(l1: string)
    requires l1 == "2020-01-01" + "~>" + "" + "~>" + "bbb2" + "~>" + "Add feature x" + "~>" + "ddd4"
    ensures ParseLine(l1).Some? && !IsMergeStart(ParseLine(l1).value)
    ensures ParseLine(l1).value.hash == "bbb2" && ParseLine(l1).value.subject == "Add feature x"
  {
    ExampleFields(l1, "2020-01-01", "", "bbb2", "Add feature x", "ddd4");
    ContainsChar("ddd4", ' ');
  }

  /** A two-line log whose first line is a merge start and whose second
      line is that merge's first parent: the rewritten merge subject, then
      the merge end, and neither record indented. */
  lemma MergePair(lines: seq<string>, x: LineFields, y: LineFields)
    requires |lines| == 2 && ParseLine(lines[0]) == Some(x) && ParseLine(lines[1]) == Some(y)
    requires IsMergeStart(x) && !IsMergeStart(y) && FirstParent(x.parents.value) == y.hash
    ensures FormatAll(lines).Ok? && |FormatAll(lines).value| == 2
    ensures var rs := Indented(FormatAll(lines).value);
            rs[0].mergeCommitStart && !rs[0].mergeCommitEnd && rs[0].subject == EncodeHTML(MergeRewrite(x.subject)) &&
            !rs[0].indent &&
            !rs[1].mergeCommitStart && rs[1].mergeCommitEnd && rs[1].subject == EncodeHTML(y.subject) && !rs[1].indent
  {
    FormatAllPair(lines, x, y);
    var rs := FormatAll(lines).value;
    IndentedRules(rs, 0);
    IndentedRules(rs, 1);
  }

  /** The fields of an example line. */
  lemma ExampleFields(line: string, date: string, refNames: string, hash: string, subject: string, parents: string)
    requires '~' !in date && '~' !in refNames && '~' !in hash && '~' !in subject && '~' !in parents
    requires line == date + "~>" + refNames + "~>" + hash + "~>" + subject + "~>" + parents
    ensures Fields(line) == [date, refNames, hash, subject, parents]
    ensures ParseLine(line) == Some(LineFields(date, refNames, hash, subject, Some(parents)))
  {
    NoTilde(date);
    NoTilde(refNames);
    NoTilde(hash);
    NoTilde(subject);
    NoTilde(parents);
    JoinFive(date, refNames, hash, subject, parents);
    ParseLineJoin(date, refNames, hash, subject, parents);
  }

  lemma ExampleFirstParent(merge: string)
    requires merge == "bbb2 ccc3"
    ensures Contains(merge, " ") && FirstParent(merge) == "bbb2"
  {
    assert OccursAt(merge, " ", 4);
    var p := FirstParent(merge);
    assert |p| == 4;
  }

  lemma ExampleRewrite(merge: string)
    requires merge == ("Merge branch '" + "feat-x" + "'" + " into main")
    ensures MergeRewrite(merge) == "Implement 'feat-x'"
  {
    MergeRewriteBranch("feat-x", " into main");
  }

  lemma ExamplePlain(s: string)
    requires s == "Implement 'feat-x'" || s == "Add feature x"
    ensures EncodeHTML(s) == s
  {
    EncodeHTMLPlain(s);
  }

  /** A `tag: v2.0.0` marker gives the tag `2.0.0`, and a document whose
      newest record carries it opens with the header `## 2.0.0 (<date>)`. */
  lemma TagExample(marker: string, date: string, hash: string, subject: string, pkgVersion: string,
                   latestTag: string, today: string, uri: Option<string>)
    requires marker == "tag: v" + "2.0.0"
    ensures TagOf(marker) == Version("2.0.0")
    ensures var r := CommitRecord(date, TagOf(marker), hash, subject, false, false, false);
            StartsWith(Compose([r], pkgVersion, latestTag, today, uri), Title + VersionHeader("2.0.0", date))
  {
    TagTwo("2.0.0");
    TaggedFirstHeader(CommitRecord(date, Version("2.0.0"), hash, subject, false, false, false), pkgVersion, latestTag, today, uri);
  }

  lemma TagTwo(v: string)
    requires v == "2.0.0"
    ensures TagOf("tag: v" + v) == Version(v)
  {
    assert IsVersionAt(v, 1, 3, 5);
    VersionPrefixComplete(v, 1, 3, 5);
    assert ',' !in v && ')' !in v;
    TrimUntouched(v);
    TagDropsV(v);
  }

  /** A one-record document whose record is tagged opens with that tag's
      header. */
  lemma TaggedFirstHeader(r: CommitRecord, pkgVersion: string, latestTag: string, today: string, uri: Option<string>)
    requires HasTag(r)
    ensures StartsWith(Compose([r], pkgVersion, latestTag, today, uri), Title + VersionHeader(r.tag.version, r.date))
  {
    ComposeFirstHeader([r], pkgVersion, latestTag, today, uri);
  }
}
