/** The changelog text: the commit-link prefix derived from the package
    homepage, the zero padding of dates, and the Markdown lines that
    `setHeader`, `handleFirstCommitVersion` and `prepareOutput` append. */
module Document {
  import opened Wrappers
  import opened Text
  import opened Commits
  import opened Indentation
  import opened Seqs
  import opened Escape
  import opened Tags

  /** `commitURI`: the homepage followed by the commit path, `/commits/` on
      a Bitbucket homepage and `/commit/` elsewhere; none when the homepage
      is missing or empty. */
  function CommitUri(homepage: Option<string>): (uri: Option<string>)
    ensures uri.Some? <==> homepage.Some? && homepage.value != ""
    ensures uri.Some? ==> |uri.value| > |homepage.value| && uri.value[..|homepage.value|] == homepage.value
    ensures uri.Some? ==>
              (uri.value[|homepage.value|..] == "/commits/" <==> Contains(homepage.value, "bitbucket")) &&
              (uri.value[|homepage.value|..] == "/commit/" <==> !Contains(homepage.value, "bitbucket"))
  {
    match homepage
    case None => None
    case Some(h) =>
      if h == "" then None
      else
        var dir := if Contains(h, "bitbucket") then "/commits/" else "/commit/";
        assert (h + dir)[|h|..] == dir;
        Some(h + dir)
  }

  /** `prepend0`: a number below ten gets a leading zero, any other number
      is written without one. */
  function Prepend0(n: nat): (r: string)
    ensures |r| >= 2 && AllDigits(r) && DigitsValue(r) == n
    ensures r[0] == '0' <==> n < 10
    ensures n < 100 ==> |r| == 2
  {
    if n < 10 then
      ZeroPadded(n);
      "0" + NatToString(n)
    else
      TwoOrMoreDigits(n);
      NatToString(n)
  }

  lemma ZeroPadded(d: nat)
    requires d < 10
    ensures var r := "0" + NatToString(d); |r| == 2 && AllDigits(r) && DigitsValue(r) == d
  {
    var r := "0" + NatToString(d);
    assert r == ['0', DigitChar(d)];
    assert r[..1] == ['0'];
    assert DigitsValue(['0']) == 0 by {
      assert ['0'][..0] == [];
    }
  }

  lemma TwoOrMoreDigits(n: nat)
    requires n >= 10
    ensures |NatToString(n)| >= 2
    ensures n < 100 ==> |NatToString(n)| == 2
  {
    assert NatToString(n) == NatToString(n / 10) + [DigitChar(n % 10)];
    if n < 100 {
      assert NatToString(n / 10) == [DigitChar(n / 10)];
    }
  }

  /** The `YYYY-MM-DD` text `getToday` builds from a year, a month and a
      day of the month. */
  function DateText(year: nat, month: nat, day: nat): string
  {
    NatToString(year) + "-" + Prepend0(month) + "-" + Prepend0(day)
  }

  lemma {:induction false} FourDigits(year: nat)
    requires 1000 <= year < 10000
    ensures |NatToString(year)| == 4
  {
    assert |NatToString(year / 1000)| == 1;
    assert NatToString(year / 100) == NatToString(year / 100 / 10) + [DigitChar(year / 100 % 10)];
    assert NatToString(year / 10) == NatToString(year / 10 / 10) + [DigitChar(year / 10 % 10)];
    assert NatToString(year) == NatToString(year / 10) + [DigitChar(year % 10)];
  }

  /** A date of a four-digit year is ten characters, dashes at 4 and 7,
      and each part reads back as its number. */
  lemma DateTextFormat(year: nat, month: nat, day: nat)
    requires 1000 <= year < 10000 && 1 <= month <= 12 && 1 <= day <= 31
    ensures var d := DateText(year, month, day);
              |d| == 10 && d[4] == '-' && d[7] == '-' &&
              d[..4] == NatToString(year) && d[5..7] == Prepend0(month) && d[8..] == Prepend0(day) &&
              DigitsValue(d[..4]) == year && DigitsValue(d[5..7]) == month && DigitsValue(d[8..]) == day
  {
    FourDigits(year);
    var y, m, dd := NatToString(year), Prepend0(month), Prepend0(day);
    var d := DateText(year, month, day);
    assert d == y + "-" + m + "-" + dd;
    assert d[..4] == y;
    assert d[5..7] == m;
    assert d[8..] == dd;
  }

  // ---------------------------------------------------------------- the document

  /** The title line `setHeader` starts the document with. */
  const Title := "# Changelog\n"

  /** A version-group header: a blank line, `## name (date)`, a blank line. */
  function VersionHeader(name: string, date: string): string
  {
    "\n## " + name + " (" + date + ")\n\n"
  }

  /** The bullet line of a record, linked to its commit when there is a
      commit prefix. */
  function Bullet(r: CommitRecord, uri: Option<string>): string
  {
    (if r.indent then "  " else "") +
    match uri
    case Some(u) => "- [" + r.subject + "](" + u + r.hash + ")\n"
    case None => "- " + r.subject + "\n"
  }

  /** What `prepareOutput` appends for one record: the header of its
      version when it is tagged, then its bullet. */
  function Entry(r: CommitRecord, uri: Option<string>): string
  {
    (if HasTag(r) then VersionHeader(r.tag.version, r.date) else "") + Bullet(r, uri)
  }

  /** The entries of the records, in order. */
  function Render(rs: seq<CommitRecord>, uri: Option<string>): string
  {
    ConcatMap((r: CommitRecord) => Entry(r, uri), rs)
  }

  lemma RenderSingle(r: CommitRecord, uri: Option<string>)
    ensures Render([r], uri) == Entry(r, uri)
  {
    var f := (x: CommitRecord) => Entry(x, uri);
    assert [r][..0] == [];
    assert ConcatMap(f, [r]) == ConcatMap(f, []) + f(r);
    assert ConcatMap(f, []) + f(r) == f(r);
  }

  // ---------------------------------------------------------------- properties

  /** Rendering distributes over concatenation, so each record's entry
      appears in order and nothing else is emitted. */
  lemma RenderAppend(xs: seq<CommitRecord>, ys: seq<CommitRecord>, uri: Option<string>)
    ensures Render(xs + ys, uri) == Render(xs, uri) + Render(ys, uri)
  {
    ConcatMapAppend((r: CommitRecord) => Entry(r, uri), xs, ys);
  }

  /** Number of occurrences of `c` in `s`. */
  function Count(s: string, c: char): nat
  {
    if s == [] then 0 else (if s[0] == c then 1 else 0) + Count(s[1..], c)
  }

  lemma {:induction false} CountAppend(a: string, b: string, c: char)
    ensures Count(a + b, c) == Count(a, c) + Count(b, c)
  {
    if a == [] {
      assert a + b == b;
    } else {
      assert (a + b)[0] == a[0];
      assert (a + b)[1..] == a[1..] + b;
      CountAppend(a[1..], b, c);
    }
  }

  lemma {:induction false} CountAbsent(s: string, c: char)
    requires c !in s
    ensures Count(s, c) == 0
  {
    if s != [] {
      CountAbsent(s[1..], c);
    }
  }

  /** The record's own texts hold no line break. */
  predicate SingleLine(r: CommitRecord, uri: Option<string>)
  {
    '\n' !in r.subject && '\n' !in r.hash && '\n' !in r.date &&
    (r.tag.Version? ==> '\n' !in r.tag.version) && (uri.Some? ==> '\n' !in uri.value)
  }

  /** A text without a line break, then one. */
  lemma OneLine(body: string)
    requires '\n' !in body
    ensures Count(body + "\n", '\n') == 1
  {
    CountAbsent(body, '\n');
    CountAppend(body, "\n", '\n');
    assert "\n"[1..] == [];
  }

  /** A bullet is exactly one line. */
  lemma BulletLines(r: CommitRecord, uri: Option<string>)
    requires SingleLine(r, uri)
    ensures Count(Bullet(r, uri), '\n') == 1
  {
    var lead := if r.indent then "  " else "";
    var body := match uri
                case Some(u) => "- [" + r.subject + "](" + u + r.hash + ")"
                case None => "- " + r.subject;
    assert Bullet(r, uri) == lead + (body + "\n");
    assert Bullet(r, uri) == (lead + body) + "\n";
    OneLine(lead + body);
  }

  /** A version header holds three line breaks. */
  lemma HeaderLines(name: string, date: string)
    requires '\n' !in name && '\n' !in date
    ensures Count(VersionHeader(name, date), '\n') == 3
  {
    CountAbsent(name, '\n');
    CountAbsent(date, '\n');
    CountAppend("\n## ", name, '\n');
    CountAppend("\n## " + name, " (", '\n');
    CountAppend("\n## " + name + " (", date, '\n');
    CountAppend("\n## " + name + " (" + date, ")\n\n", '\n');
  }

  /** An entry is one bullet line, preceded by the three line breaks of a
      version header exactly when the record is tagged. */
  lemma EntryLines(r: CommitRecord, uri: Option<string>)
    requires SingleLine(r, uri)
    ensures Count(Entry(r, uri), '\n') == (if HasTag(r) then 4 else 1)
  {
    BulletLines(r, uri);
    if HasTag(r) {
      HeaderLines(r.tag.version, r.date);
      CountAppend(VersionHeader(r.tag.version, r.date), Bullet(r, uri), '\n');
    } else {
      assert Entry(r, uri) == Bullet(r, uri);
    }
  }

  /** Every record of a successful pass over one-line log lines is a single
      line, for a link prefix without a line break. */
  lemma FormatAllSingleLine(lines: seq<string>, uri: Option<string>)
    requires FormatAll(lines).Ok?
    requires forall i :: 0 <= i < |lines| ==> '\n' !in lines[i]
    requires uri.Some? ==> '\n' !in uri.value
    ensures |FormatAll(lines).value| == |lines|
    ensures forall i :: 0 <= i < |lines| ==> SingleLine(FormatAll(lines).value[i], uri)
  {
    FormatAllLength(lines);
    forall i | 0 <= i < |lines| ensures SingleLine(FormatAll(lines).value[i], uri) {
      RecordSingleLine(lines, i, uri);
    }
  }

  lemma RecordSingleLine(lines: seq<string>, i: nat, uri: Option<string>)
    requires FormatAll(lines).Ok? && i < |lines| && '\n' !in lines[i]
    requires uri.Some? ==> '\n' !in uri.value
    ensures |FormatAll(lines).value| == |lines|
    ensures SingleLine(FormatAll(lines).value[i], uri)
  {
    FormatAllRecord(lines, i);
    var parts, r := Fields(lines[i]), FormatAll(lines).value[i];
    JoinPieceChars(parts, Delimiter, 0, '\n');
    JoinPieceChars(parts, Delimiter, 1, '\n');
    JoinPieceChars(parts, Delimiter, 2, '\n');
    JoinPieceChars(parts, Delimiter, 3, '\n');
    MergeRewriteNoBreak(parts[3]);
    EncodeHTMLNoBreak(if r.mergeCommitStart then MergeRewrite(parts[3]) else parts[3]);
    TagOfNoBreak(parts[1]);
  }

  /** The indentation pass changes no text, so single lines stay single. */
  lemma IndentedSingleLine(rs: seq<CommitRecord>, uri: Option<string>)
    requires forall i :: 0 <= i < |rs| ==> SingleLine(rs[i], uri)
    ensures forall i :: 0 <= i < |rs| ==> SingleLine(Indented(rs)[i], uri)
  {
    forall i | 0 <= i < |rs| ensures SingleLine(Indented(rs)[i], uri) {
      IndentedRules(rs, i);
    }
  }

  /** Number of tagged records. */
  function TaggedCount(rs: seq<CommitRecord>): nat
  {
    if rs == [] then 0 else TaggedCount(rs[..|rs| - 1]) + (if HasTag(rs[|rs| - 1]) then 1 else 0)
  }

  /** The rendered records are one bullet line per record plus three line
      breaks per version header. */
  lemma {:induction false} RenderLines(rs: seq<CommitRecord>, uri: Option<string>)
    requires forall i :: 0 <= i < |rs| ==> SingleLine(rs[i], uri)
    ensures Count(Render(rs, uri), '\n') == |rs| + 3 * TaggedCount(rs)
  {
    if rs != [] {
      var init := rs[..|rs| - 1];
      assert forall i :: 0 <= i < |init| ==> init[i] == rs[i];
      RenderLines(init, uri);
      EntryLines(rs[|rs| - 1], uri);
      CountAppend(Render(init, uri), Entry(rs[|rs| - 1], uri), '\n');
    }
  }
}
