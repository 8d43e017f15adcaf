# git-to-changelog, modelled in Dafny

`git-to-changelog` is a small command-line tool. It reads `git log` and writes
`CHANGELOG.md`: one bullet per commit, grouped under a `## <tag> (<date>)`
header at every tagged commit. Commits inside a merge are indented, and when
the newest commit is not yet tagged a pending-release header is placed on top.
This project models the whole pipeline of `main.js` without its git,
file-system and clock calls:

- the commit-link prefix derived from the package homepage;
- the argument check;
- splitting the log into lines;
- turning each `date~>refNames~>hash~>subject~>parents` line into a commit
  record (tag extraction, merge-start and merge-end flags carried from line to
  line, the `Merge branch '…'` rewrite, the subject escaper);
- the indentation pass;
- the release check against the latest tag;
- the rendering of the document.

Modules, one per file:

| module | file | models |
|---|---|---|
| `Wrappers`, `Errors` | wrappers.dfy | option/result types; the errors that stop a run |
| `Text` | text.dfy | `trim`, `split`, `indexOf`/`includes`, decimal digits |
| `Escape` | escape.dfy | `encodeHTML` |
| `Tags` | tags.dfy | the `tag: v?X.Y.Z…` pattern and the record's tag field |
| `Versions` | versions.dfy | the version comparison of `handleFirstCommitVersion` |
| `Seqs` | seqs.dfy | generic passes over sequences (map, carry-last, stop-at-first-failure, concatenation) |
| `Commits` | commits.dfy | `splitCommits`, `formatCommits` |
| `Indentation` | indentation.dfy | `flagIndention`, in place on an array of records |
| `Document` | document.dfy | `commitURI`, `prepend0`, the text `prepareOutput` emits |
| `Cli` | cli.dfy | the module-level state (`hasStageFlag`, `out`, `commitURI`) as a class; `checkArgs`, `setHeader`, `handleFirstCommitVersion`, `prepareOutput`; the whole run |

The stateful stages follow the source's form:

- `Changelog` is a class whose methods update `hasStageFlag` and append to
  `out`.
- `FormatCommits` is a loop that carries `prevParent`.
- `FlagIndention` writes `indent` into the array in place, and each record
  reads the flag just written on the record before it.

Each method is proved against a specification function (`FormatAll`,
`Indented`, `Render`, `ChangelogText`), and the lemmas state what the source
promises about those functions.

## Model

| member | source | states |
|---|---|---|
| Document.CommitUri | main.js:19-22 | a link prefix exists exactly when the homepage is non-empty; it is the homepage followed by `/commits/` when the homepage mentions bitbucket, `/commit/` otherwise |
| Cli.Changelog.constructor | main.js:15-22 | a run starts without the stage flag and with the link prefix computed from the homepage |
| Cli.ArgsAccepted | main.js:47-57 | the arguments are accepted exactly when they are `[]` or `["--stage"]` |
| Cli.Changelog.CheckArgs | main.js:47-57 | sets the stage flag exactly when the first argument is `--stage`; fails with an invalid-argument error exactly when the list is not accepted; leaves the output alone |
| Text.SplitOn | main.js:72 | splitting gives at least one piece; no piece contains the separator; joining the pieces with the separator gives the text back |
| Text.SplitJoin | main.js:72 | splitting a joined list of separator-free pieces gives the list back, for a separator that cannot overlap itself |
| Text.Trim | main.js:72 | trimming removes exactly the leading and trailing whitespace |
| Text.TrimIdempotent | main.js:72 | trimming twice is trimming once |
| Commits.SplitCommits | main.js:71-73 | at least one line; no line holds a line break; the lines joined by line breaks are the trimmed log |
| Commits.SplitCommitsJoin | main.js:71-73 | splitting a trimmed log made of break-free lines recovers those lines |
| Commits.ParseLineJoin | main.js:79 | five delimiter-free fields joined by `~>` are read back as those five fields |
| Commits.FirstParent | main.js:97 | the first parent is the part of the parents field before its first space, and holds no space |
| Commits.MergeRewriteBranch | main.js:98 | `Merge branch '<x>'<rest>` becomes `Implement '<x>'` |
| Commits.MergeRewriteOther | main.js:98 | a subject not opening with `Merge branch '` is unchanged |
| Commits.MergeRewriteChanged | main.js:98 | a subject the rewrite changes opened with `Merge branch '` and now opens with `Implement '` |
| Commits.FormatCommits | main.js:75-107 | the loop carrying `prevParent` yields exactly `FormatAll`: one record per line, or the first malformed line's error |
| Commits.FormatAllLength | main.js:78 | a successful pass yields one record per line |
| Commits.FormatAllFails | main.js:79-103 | the pass fails exactly when some line has fewer than four fields, and then names the first such line |
| Commits.FormatAllRecord | main.js:79-105 | record `i` copies date and hash from fields 0 and 2, takes its tag from field 1, is a merge start exactly when field 4 exists and contains a space, carries the escaped (for merge starts, rewritten) subject, and is not yet indented |
| Commits.FormatAllSubject | main.js:98-103 | the stored subject decodes back to the line's subject after the merge rewrite, and holds no raw `<` |
| Commits.FormatAllTag | main.js:85-93 | the tag is `null` exactly without a `tag:` marker; undefined exactly when the marker is there but the pattern matches nowhere; otherwise a trimmed `X.Y.Z…` text without `v` that reads back as itself |
| Commits.MergeEndCarried | main.js:95-101 | a record ends a merge exactly when it is not a merge start and the parent carried from the earlier lines is its hash |
| Commits.MergeEndSound | main.js:95-101 | a merge end has an earlier merge start, with no merge start in between, whose first parent is the end's hash |
| Commits.MergeEndComplete | main.js:95-101 | a non-merge record whose hash is the first parent of the latest earlier merge start is a merge end |
| Commits.FormatAllMergeEnd | main.js:95-101 | the two merge flags are never both set; a record ends a merge exactly when it is no merge start and its hash is the first parent of the latest merge start before it |
| Commits.FormatAllPair | main.js:75-107 | a two-line log whose first line is a merge start gives exactly two records: the first carries no earlier parent, the second carries the merge's first parent |
| Seqs.LastSomeMeaning | main.js:76-101 | the carried `prevParent` is the first parent of the last merge start seen, and nothing when there was none |
| Seqs.TraverseMeaning | main.js:78-106 | a pass over the lines succeeds exactly when every line parses, giving each line's fields in order; otherwise it stops at the first failing line |
| Tags.VersionPrefixComplete | main.js:86 | whenever a text starts with `digits.digits.digits`, the greedy reading finds that version, with the same dots |
| Tags.FirstMatch | main.js:86 | the search returns the leftmost position where the pattern matches, and none when it matches nowhere |
| Tags.TagOfCases | main.js:85-93 | the three cases of the tag field, and a matched tag is a well-formed tag |
| Tags.CaptureIsTag | main.js:86-89 | whatever the pattern captures, once trimmed, starts with a version and holds no `,` or `)` |
| Tags.TagReparse | main.js:85-89 | a stored tag behind a `tag: ` marker is captured as itself |
| Tags.TagDropsV | main.js:86 | the optional `v` before the version is not part of the tag |
| Tags.LatestTagIsTag | main.js:154-160 | the latest tag, matched or the `0.0.0` default, is a well-formed tag |
| Tags.TagOfNoBreak | main.js:85-90 | the tag is taken from the ref names, so ref names without a line break give a tag without one |
| Escape.ReplaceAll | main.js:111-116 | a global one-character replacement leaves text without that character unchanged and removes the character when the replacement does not contain it |
| Escape.BracketAheadMeans | main.js:115 | the lookahead finds a `]` exactly when some `]` follows before the next line terminator |
| Escape.EncodeHTMLPerChar | main.js:109-117 | the six replacements in their order equal a left-to-right translation of single characters |
| Escape.DecodeEncode | main.js:109-117 | the escaping can be undone, so no two subjects are written the same |
| Escape.EncodeHTMLSafe | main.js:109-117 | the output has no raw `<`; every `&` starts `&amp;`, `&lt;` or `&#91;`; every `]` and backtick follows a backslash; a `[` remains only when a `]` follows it on the same line |
| Escape.EncodeHTMLTrailingBackslash | main.js:113 | the output ends in a backslash exactly when the subject does, and then in two |
| Escape.EncodeHTMLNoBreak | main.js:109-117 | escaping a subject without a line break gives a text without one |
| Escape.EncodeHTMLPlain | main.js:109-117 | a subject with no `&`, `<`, backslash, `]`, `[` or backtick is written unchanged |
| Indentation.FlagIndention | main.js:119-137 | the in-place pass leaves the array equal to `Indented` of its old contents |
| Indentation.Indented | main.js:119-137 | the pass keeps the number of records |
| Indentation.IndentedRules | main.js:119-137 | only `indent` changes; the first record and every tagged, merge-start or merge-end record are flush; any other record is indented exactly when the one before it starts a merge or is indented |
| Indentation.IndentMeaning | main.js:119-137 | a record is indented exactly when an earlier record starts a merge and neither the records since then nor itself reset indentation |
| Indentation.IndentAfterStart | main.js:126-127 | the record right after a merge start is indented unless it resets |
| Indentation.IndentedIdempotent | main.js:119-137 | running the pass twice gives the same records as once |
| Cli.Changelog.SetHeader | main.js:139-143 | the output restarts as the `# Changelog` title |
| Versions.CheckVersion | main.js:162-164 | the check fails only with an invalid-version or a version-regression error |
| Versions.ParseText | main.js:162 | a version's text reads back as that version |
| Versions.CompareAntisymmetric | main.js:162 | swapping the two versions negates the comparison, and two versions compare equal exactly when both read as the same numbers |
| Versions.CompareSelf | main.js:162 | a readable version compares equal to itself |
| Versions.OrderTransitive | main.js:162 | the version order is transitive |
| Versions.TagParses | main.js:154-162 | every well-formed tag is readable by the numeric stand-in for the comparison library |
| Versions.VersionDecision | main.js:152-164 | the latest tag is always readable by the numeric stand-in; the run is rejected exactly when the package version is unreadable or orders before the latest tag, and with a regression error exactly in the second case |
| Versions.DecisionExamples | main.js:162-167 | 1.0.0 against 1.1.0 is rejected; 1.1.0 against 1.1.0 passes with the label `Latest`; 1.2.0 against 1.1.0 passes with the label `1.2.0` |
| Cli.Changelog.HandleFirstCommitVersion | main.js:152-168 | the outcome is the release check against the latest tag; when it passes and the newest record is untagged, the pending header (labelled `Latest` or the package version, dated today) is appended; nothing else changes |
| Document.Prepend0 | main.js:181-183 | the text is at least two digits and reads as the number; it has a leading zero exactly when the number is below ten, so it is the number's plain decimal text otherwise; a number below 100 gives exactly two digits |
| Document.DateTextFormat | main.js:175-179 | a four-digit year, month and day give a 10-character `YYYY-MM-DD` text whose parts read back as the three numbers |
| Cli.Changelog.AppendEntry | main.js:186-199 | one record appends its entry: its version header when tagged, two spaces when indented, then its bullet, linked when there is a link prefix |
| Cli.Changelog.PrepareOutput | main.js:185-203 | the output grows by the entries of all records, in order |
| Document.RenderAppend | main.js:186-200 | the entries of two record lists in sequence are the entries of each, one after the other |
| Document.BulletLines | main.js:191-199 | a bullet is exactly one line |
| Document.HeaderLines | main.js:188 | a version header holds three line breaks |
| Document.EntryLines | main.js:187-199 | an entry holds four line breaks when the record is tagged, one otherwise |
| Document.RenderLines | main.js:186-200 | the rendered records hold one line break per record plus three per tagged record |
| Document.FormatAllSingleLine | main.js:75-107 | every record of a successful pass over log lines without line breaks holds no line break in its date, tag, hash or subject |
| Cli.IndentRecords | main.js:28 | the records handed through the array to the indentation pass come back as `Indented` of them |
| Cli.Changelog.Run | main.js:24-31 | the run's result is `ChangelogText`; on success the output buffer holds exactly that document; the stage flag is set from the first argument |
| Cli.ChangelogSucceeds | main.js:24-31 | a run succeeds exactly when the arguments are accepted, every line has at least four fields, and the release check passes |
| Cli.ChangelogArgsError | main.js:47-57 | a run fails with an invalid-argument error exactly when the arguments are not accepted |
| Cli.ChangelogStageError | main.js:24-31 | past the argument check, a malformed log fails on its first malformed line; otherwise the run fails exactly when the release check fails, and with its error |
| Cli.ComposeFirstHeader | main.js:139-189 | the document opens with the title and then a version header: the newest record's own when it is tagged, the pending-release header when it is not |
| Cli.ChangelogFirstHeader | main.js:24-31 | every successful run's document opens with the title and a version header for its newest section |
| Cli.ChangelogLines | main.js:24-31 | a successful run renders exactly one bullet line per log line, plus three line breaks for each tagged record's version header |
| Cli.MergePair | main.js:95-133 | a merge start followed by its first parent: the first record starts the merge with the rewritten subject, the second ends it, and neither is indented |
| Cli.MergeExample | main.js:95-133 | the log lines for `Merge branch 'feat-x' into main` and its first parent become an unindented `Implement 'feat-x'` merge start and an unindented merge end |
| Cli.TagExample | main.js:85-90 | `tag: v2.0.0` gives the tag `2.0.0`, and a document whose newest record carries it opens with `## 2.0.0 (<date>)` |

## Left out

- Git, file-system and clock calls are not modelled. These are `getCommits`, the `git log --tags` call in `handleFirstCommitVersion`, `save`, `addToGitStage`, reading `package.json` and `new Date()` in `getToday`. The log text, the latest-tag annotation, the package version and homepage, and today's date are parameters instead, so a failing git command is not modelled either.
- Promise chaining, the red error banner and `process.exit` are not modelled: a run returns an error value instead.
- Versions.Compare: a stand-in for the `compare-versions` library, not the library itself. `Parse` reads only a leading `v?X.Y.Z` and ignores whatever follows the patch number, so its set of readable versions differs from the library's both ways: `v1.2.3foo` reads as 1.2.3 here where a semantic-version validator rejects it, and `1` or `1.2` are unreadable here where the library accepts them. Pre-release and build-metadata precedence is not modelled: only the three numbers are compared. An unreadable version gives an invalid-version error here; in the program the library throws inside the `exec` callback, outside the promise chain, so the run crashes with an uncaught exception instead of reaching the error banner.
- Versions.TagParses: "every well-formed tag is readable" is a fact about the `Parse` stand-in, which accepts any text starting with `X.Y.Z`, not about the library.
- Versions.VersionDecision: its first clause, "the latest tag is always readable", is likewise a fact about the `Parse` stand-in and not about the library.
- The texts written to the error stream are not modelled. The program itself writes only two of them, for a rejected argument list (main.js:53) and for a version regression (main.js:163); a malformed log line ends the run with whatever `TypeError` text the JavaScript runtime gives for reading `replace` of `undefined`.
- Cli.Changelog.HandleFirstCommitVersion: requires at least one record. The source reads `formattedCommits[0]` unguarded, and the split log always has at least one line, so every run meets this.
- Indentation.FlagIndention: records are values in an array, not shared objects. The in-place update and the read of the flag just written on the previous record are modelled, but aliasing of the record objects is not.
- `out` starts as `undefined` in the source and as the empty string here. `setHeader` overwrites it before anything reads it.
- `tag` is JavaScript-truthy only for a non-empty version text. `null`, `undefined` and `""` all count as no tag, as `HasTag` states.
- Malformed lines are modelled, not excluded by a precondition: a line with fewer than four `~>` fields makes `encodeHTML(undefined)` throw, which is the `MalformedLine` error. A four-field line has no parents and never starts a merge, and fields after the fifth are ignored.
- Where the code and its usual description differ, the model follows the code:
  - A `[` is encoded unless a `]` follows it on the same line, because `.` in the lookahead does not cross line terminators. Every such `[` is encoded, not only a leading one.
  - A trailing backslash is doubled whatever precedes it.
