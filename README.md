# LaTeX citation scanner and BibTeX year validator

This project is a Dafny model of two pieces of a reference manager's text logic.

**`DefaultTexParser` scans LaTeX sources for citations.**
- Each line of each `.tex` file is read in turn. Blank lines and lines whose first non-blank character is `%` are skipped.
- On every other line the parser finds the cite commands. These are `\cite`, `\citep`, `\autocite`, `\footcitetext`, `\textcquote` and the rest of the family, each with an optional `*`, up to two `[...]` arguments, a `{keys}` group and an optional trailing `{...}` argument.
- It records one occurrence per comma-separated key. Each occurrence carries the file, the line number, the match's start and end, and the raw line.
- It also finds `\include{..}` and `\input{..}` directives. Each target gets `.tex` appended when missing and is resolved against the directory of the including file. The target is queued when it exists and is not in the current batch.
- The parse then recurses on the queue as the next batch.

**`YearChecker.checkValue` validates BibTeX `year` fields.** It is an ordered chain of guards and returns the first message that applies.

## How the model is organised

| file | module | contents |
|---|---|---|
| `wrappers.dfy` | `Wrappers` | `Option` |
| `java_strings.dfy` | `JavaStrings` | the Java `String` and `Integer` operations the code relies on: `trim`, `endsWith`, `split` (trailing empty pieces dropped) and `parseInt` (sign, digits, 32-bit range) |
| `matches.dfy` | `Matches` | the `while (matcher.find())` loop over one line, for any pattern given as the outcome of trying it at each position; proofs that the matches come left to right, do not overlap and skip nothing |
| `tex_patterns.dfy` | `TexPatterns` | `CITE_PATTERN` and `INCLUDE_PATTERN`, each as a token-by-token reading plus a hand-written matcher that makes the choices Java's matcher makes, proved to agree |
| `paths.dfy` | `Paths` | `getParent` and `resolve` on `/`-separated path strings |
| `tex_scan.dfy` | `TexScan` | the meaning of a scan, as functions: one line, the lines of one file, a batch, and the whole recursive traversal over an abstract file system |
| `tex_parser.dfy` | `TexParser` | the classes `TexParserResult` and `DefaultTexParser`; their methods keep the source's loops and update the result object in place, and each is proved to do what the `TexScan` functions say; the `referencedFiles` list that `matchNestedFile` appends to is passed in as a sequence and returned extended |
| `line_properties.dfy` | `LineProperties` | what one line records and queues: membership, ordering, key round trip, the queueing filter, extension and resolution |
| `traversal_properties.dfy` | `TraversalProperties` | where every recorded occurrence comes from, and why two files that include each other never let the parse settle |
| `year_checker.dfy` | `YearChecker` | `checkValue` as a function of the value and the current year, and its characterisation |

### Abstractions

**The file system is a value** (`TexScan.FileSystem`):
- a set of existing paths, which stands for `File.exists()`;
- for each path, the lines a `LineNumberReader` delivers and how reading stopped: at the end (`Complete`), on an `IOException` (`Failed`), or on a `ClosedChannelException` (`ChannelClosed`).

**A `parse(List<Path>)` call ends in one of four ways** (`TexScan.End`):
- it returns the result (`Returned`);
- it returns null after a closed channel (`ReturnedNull`);
- it lets a `NullPointerException` escape (`ThrewException`), which `matchNestedFile` raises when a line of a file without a parent directory has an include match;
- it runs out of the fuel that bounds the recursion (`OutOfFuel`). This outcome exists only in the model.

In `TexParser`, `null` is a `TexParserResult?`.

**The current year is a parameter of `YearChecker.CheckValue`.** The localised messages are the constructors of `YearChecker.YearError`.

### Behaviour of the code worth knowing

- **Missing files are still recorded.** Every file of a batch is added to the parsed files before scanning (`DefaultTexParser.java:69`), including files that do not exist. `TexScan.Traverse` keeps them: its files start with the batch.
- **Queued files are filtered only against the current batch** (`DefaultTexParser.java:129`). They are not checked against earlier batches or against each other. Repeats are kept (`LineProperties.QueueCounts`).
- **Cycles recurse without end.** Two files that include each other are parsed again and again. `TraversalProperties.CycleNeverSettles` shows that every fuel bound runs out.
- **An interrupted nested batch is not reported.** Its null result is dropped at `DefaultTexParser.java:97`, and only an interruption of the top batch makes the parse return null.
- **`parse(String)` skips nothing.** It runs `matchCitation` on the whole string as line 1 of the empty path, with no `%` test and no include processing.

## Model

| member | source | states |
|---|---|---|
| `TexParser.TexParserResult.constructor` | src/main/java/org/jabref/logic/texparser/DefaultTexParser.java:49 | a new result holds no occurrences and no files |
| `TexParser.TexParserResult.AddKey` | src/main/java/org/jabref/logic/texparser/DefaultTexParser.java:111 | appends exactly one occurrence with the given key, file, line number, offsets and line; the files are unchanged |
| `TexParser.TexParserResult.AddFiles` | src/main/java/org/jabref/logic/texparser/DefaultTexParser.java:69 | appends the given files, repeats kept; the occurrences are unchanged |
| `TexParser.DefaultTexParser.constructor` | src/main/java/org/jabref/logic/texparser/DefaultTexParser.java:48-50 | the parser owns a fresh, empty result |
| `TexParser.DefaultTexParser.GetTexParserResult` | src/main/java/org/jabref/logic/texparser/DefaultTexParser.java:52-54 | every call gives the same result object that the parses fill |
| `TexParser.DefaultTexParser.ParseString` | src/main/java/org/jabref/logic/texparser/DefaultTexParser.java:57-60 | appends the cite occurrences of the whole string as line 1 of the empty path, with no skip test; the files are unchanged; returns the result object |
| `TexParser.DefaultTexParser.ParsePath` | src/main/java/org/jabref/logic/texparser/DefaultTexParser.java:62-65 | is the traversal of the one-file batch: same occurrences, files and ending, and null unless it returns normally |
| `TexParser.DefaultTexParser.ParseFiles` | src/main/java/org/jabref/logic/texparser/DefaultTexParser.java:67-101 | appends exactly what `TexScan.Traverse` records for the batch (occurrences and files) and ends as it does; the returned object is the result when the parse returns normally and null otherwise |
| `TexParser.DefaultTexParser.ParseBatch` | src/main/java/org/jabref/logic/texparser/DefaultTexParser.java:72-93 | the loop over the batch's files appends the occurrences of `ScanBatch` over the whole batch, returns its queue and tells whether it was interrupted or threw; the files are unchanged |
| `TexParser.DefaultTexParser.ParseFile` | src/main/java/org/jabref/logic/texparser/DefaultTexParser.java:73-92 | one file of the batch: skipped when missing; otherwise its lines in order, where an I/O error ends the file and a closed channel interrupts the parse; the effect is exactly `ScanFile` |
| `TexParser.DefaultTexParser.ParseLine` | src/main/java/org/jabref/logic/texparser/DefaultTexParser.java:79-86 | one line: nothing when it is blank or a comment; otherwise its cite occurrences, then its nested files, and `Threw` when the include step throws; the effect is exactly `ScanLine` |
| `TexParser.DefaultTexParser.MatchCitation` | src/main/java/org/jabref/logic/texparser/DefaultTexParser.java:106-113 | appends exactly the occurrences of the cite matches along the line (`LineCitations`); the files are unchanged |
| `TexParser.DefaultTexParser.RecordMatches` | src/main/java/org/jabref/logic/texparser/DefaultTexParser.java:109-112 | the `find()` loop over any pattern records, match after match, the keys of every match `find()` reports |
| `TexParser.DefaultTexParser.RecordKeys` | src/main/java/org/jabref/logic/texparser/DefaultTexParser.java:110-111 | the loop over the split key group appends one occurrence per key, left to right, all with the match's offsets |
| `TexParser.DefaultTexParser.MatchNestedFile` | src/main/java/org/jabref/logic/texparser/DefaultTexParser.java:118-133 | the queue extended by exactly the existing nested files outside the batch, in match order, or None when the file has no parent and the line has an include |
| `TexParser.MatchesStep` | src/main/java/org/jabref/logic/texparser/DefaultTexParser.java:109 | one more `find()` call moves the next match from the remaining matches to the ones already handled |
| `TexParser.CitationsOfAppend` | src/main/java/org/jabref/logic/texparser/DefaultTexParser.java:109-111 | the occurrences of one more match are those of the earlier matches followed by its keys |
| `TexParser.IncludeTargetsAppend` | src/main/java/org/jabref/logic/texparser/DefaultTexParser.java:121-127 | one more include match adds its resolved file at the end of the targets |
| `TexParser.QueueAppend` | src/main/java/org/jabref/logic/texparser/DefaultTexParser.java:129-131 | the filter of one more target appends it exactly when it exists and is not in the batch |
| `JavaStrings.Trim` | src/main/java/org/jabref/logic/texparser/DefaultTexParser.java:81 | the result is a contiguous slice of the line, beginning where `TrimStart` begins and running up to the last character above U+0020, so every character after it is at or below U+0020; it neither starts nor ends with a character up to U+0020; it is empty exactly when every character is one; otherwise it starts at the first kept character |
| `JavaStrings.IsBlank` | src/main/java/org/jabref/logic/integrity/YearChecker.java:31 | `StringUtil.isBlank`: the trimmed value is empty; the empty value is blank, and a value whose first character is above U+0020 is not |
| `JavaStrings.Split` | src/main/java/org/jabref/logic/texparser/DefaultTexParser.java:110 | `split(",")` of a text without a comma is the text alone (so `""` gives one empty key), and otherwise a prefix of the pieces between commas |
| `JavaStrings.SplitPieces` | src/main/java/org/jabref/logic/texparser/DefaultTexParser.java:110 | `split(",")` keeps a prefix of the pieces and drops only empty trailing ones; when a comma occurs every trailing empty piece is dropped (the result is empty or ends in a non-empty piece); every piece is kept when the text does not end in a comma; no piece contains a comma |
| `JavaStrings.JoinSplitAll` | src/main/java/org/jabref/logic/texparser/DefaultTexParser.java:110 | cutting at every separator and joining the pieces back gives the text again |
| `JavaStrings.SplitAllLastPiece` | src/main/java/org/jabref/logic/texparser/DefaultTexParser.java:110 | the last piece is empty exactly when the text is empty or ends in the separator |
| `JavaStrings.ParseInt` | src/main/java/org/jabref/logic/integrity/YearChecker.java:51 | `Integer.parseInt`: a parsed value lies in the 32-bit range; the text parses only when it is one or more decimal digits, optionally after one `+` or `-`; a digit-led text that parses is all digits and parses to its decimal value |
| `JavaStrings.ParseIntParses` | src/main/java/org/jabref/logic/integrity/YearChecker.java:51 | the other direction of `Integer.parseInt`: digits, bare or after `+` or `-`, whose signed value fits in 32 bits parse to that signed decimal value |
| `Matches.FindFrom` | src/main/java/org/jabref/logic/texparser/DefaultTexParser.java:109 | `find()` from position i reports the first position at or after i where the pattern matches, and None only when it matches nowhere from i on |
| `Matches.MatchesFrom` | src/main/java/org/jabref/logic/texparser/DefaultTexParser.java:109 | the successive `find()` calls from position i, each resuming at the previous match's end, report at most one match per two characters of what is left |
| `Matches.MatchesFromInTable` | src/main/java/org/jabref/logic/texparser/DefaultTexParser.java:109 | every reported match is the pattern's match at its own start, at or after where the search began, and lies within the line |
| `Matches.FindStep` | src/main/java/org/jabref/logic/texparser/DefaultTexParser.java:109 | a `find()` that fails ends the loop; one that succeeds is followed by the matches found from its end |
| `Matches.MatchesOrdered` | src/main/java/org/jabref/logic/texparser/DefaultTexParser.java:109-112 | the reported matches are left to right and do not overlap |
| `Matches.NonOverlappingApart` | src/main/java/org/jabref/logic/texparser/DefaultTexParser.java:109 | in such a sequence, each match ends before any later one starts |
| `Matches.MatchesCover` | src/main/java/org/jabref/logic/texparser/DefaultTexParser.java:109 | every position where the pattern matches lies inside some reported match |
| `Matches.MatchesReportUncovered` | src/main/java/org/jabref/logic/texparser/DefaultTexParser.java:109 | a match at a position that no reported match covers past its start is itself reported |
| `TexPatterns.CiteCommandsMembers` | src/main/java/org/jabref/logic/texparser/DefaultTexParser.java:30-34 | the examples in the comment beside `CITE_COMMANDS` belong to the family: `citep`, `cite`, `Cite`, and `cite` or `Cite` followed by `author`, `title`, `year`, `t` or `p` |
| `TexPatterns.CiteCommandsAlternatives` | src/main/java/org/jabref/logic/texparser/DefaultTexParser.java:32-36 | each alternative of `CITE_COMMANDS` contributes: `citeyearpar`, `parencite`, `Parencite`, `supercite`, `footcitetext`, `blockcquote` and `textcquote` are names of the family |
| `TexPatterns.SupercitePrefixCase` | src/main/java/org/jabref/logic/texparser/DefaultTexParser.java:34 | the alternatives are case-sensitive where the source says so: `Supercite` is not in the family, since `super` has no `[sS]` |
| `TexPatterns.CquoteNeedsPrefix` | src/main/java/org/jabref/logic/texparser/DefaultTexParser.java:35 | `cquote` alone is not a name: the last alternative needs one of its two prefixes |
| `TexPatterns.CiteCommandsAreWords` | src/main/java/org/jabref/logic/texparser/DefaultTexParser.java:32-36 | every name in the cite command family is a non-empty run of ASCII letters |
| `TexPatterns.CommandNameEnd` | src/main/java/org/jabref/logic/texparser/DefaultTexParser.java:39-40 | a reported name follows a backslash, belongs to the family, and is not followed by a letter |
| `TexPatterns.CommandNameEndComplete` | src/main/java/org/jabref/logic/texparser/DefaultTexParser.java:39-40 | a family name after a backslash and before a non-letter is the one read |
| `TexPatterns.GroupEnd` | src/main/java/org/jabref/logic/texparser/DefaultTexParser.java:39 | reads `open [^close]* close` at a position: when found, the end lies within the line, the group opens at the position and closes just before the end (`GroupEndSpec` makes it exact) |
| `TexPatterns.GroupEndSpec` | src/main/java/org/jabref/logic/texparser/DefaultTexParser.java:39 | a bracketed or braced group is found at a position exactly when one is there |
| `TexPatterns.GroupUnique` | src/main/java/org/jabref/logic/texparser/DefaultTexParser.java:39 | a group that excludes its closing character has only one possible end |
| `TexPatterns.OptionalArgsEnd` | src/main/java/org/jabref/logic/texparser/DefaultTexParser.java:39 | reads `(?:\[[^\]]*\]){0,2}` greedily: the end lies within the line, and anything read starts with `[` and ends with `]` (`OptionalArgsEndSpec` and `OptionalArgsEndUnique` make it exact) |
| `TexPatterns.OptionalArgsEndSpec` | src/main/java/org/jabref/logic/texparser/DefaultTexParser.java:39 | what is read for `(?:\[[^\]]*\]){0,2}` is a match of it |
| `TexPatterns.OptionalArgsEndUnique` | src/main/java/org/jabref/logic/texparser/DefaultTexParser.java:39 | when the key group's `{` follows the bracketed arguments, the greedy reading ends exactly there |
| `TexPatterns.StarEnd` | src/main/java/org/jabref/logic/texparser/DefaultTexParser.java:39 | what is read for `\*?` is a match of it |
| `TexPatterns.TrailingEnd` | src/main/java/org/jabref/logic/texparser/DefaultTexParser.java:39 | reads the optional trailing `{...}` greedily: the end lies within the line, and anything read starts with `{` and ends with `}` (`TrailingEndSpec` and `TrailingLongest` make it exact) |
| `TexPatterns.TrailingEndSpec` | src/main/java/org/jabref/logic/texparser/DefaultTexParser.java:39 | the optional trailing braced argument is taken whenever one follows |
| `TexPatterns.TrailingLongest` | src/main/java/org/jabref/logic/texparser/DefaultTexParser.java:39 | no reading of the trailing argument is longer than the greedy one |
| `TexPatterns.CiteAt` | src/main/java/org/jabref/logic/texparser/DefaultTexParser.java:38-40 | the token-by-token reading of CITE_PATTERN: backslash, family name, optional star, up to two bracketed arguments, braced key group, optional braced argument; a match's key group lies after its name and before its end, within the line |
| `TexPatterns.IncludeAt` | src/main/java/org/jabref/logic/texparser/DefaultTexParser.java:43-44 | the token-by-token reading of INCLUDE_PATTERN: backslash, `include` or `input`, `{`, a group without `}`, `}`; the group starts at least seven characters after the backslash and is closed within the line |
| `TexPatterns.CiteMatchAt` | src/main/java/org/jabref/logic/texparser/DefaultTexParser.java:38-40 | a match starts at the position tried and its key group lies strictly inside it, within the line |
| `TexPatterns.CiteMatchAtSound` | src/main/java/org/jabref/logic/texparser/DefaultTexParser.java:38-40 | a reported match is a match of CITE_PATTERN: backslash, family name, optional star, up to two bracketed arguments, the braced key group, an optional braced argument; its end includes that argument whenever one follows |
| `TexPatterns.CiteMatchAtComplete` | src/main/java/org/jabref/logic/texparser/DefaultTexParser.java:38-40 | whenever CITE_PATTERN matches at a position, the matcher reports a match there with the same key group and an end no shorter |
| `TexPatterns.CiteMatchAtParts` | src/main/java/org/jabref/logic/texparser/DefaultTexParser.java:38-40 | the match is assembled from the name, the star, the arguments, the key group and the trailing argument read in turn |
| `TexPatterns.NameFollower` | src/main/java/org/jabref/logic/texparser/DefaultTexParser.java:39 | in a match, the command name is followed by `*`, `[` or `{`, never by a letter |
| `TexPatterns.KeyGroupEnd` | src/main/java/org/jabref/logic/texparser/DefaultTexParser.java:39 | the key group of a match is the group the matcher reads |
| `TexPatterns.CiteAttempts` | src/main/java/org/jabref/logic/texparser/DefaultTexParser.java:107 | CITE_PATTERN tried at every position of the line, each outcome the matcher's |
| `TexPatterns.CiteMatches` | src/main/java/org/jabref/logic/texparser/DefaultTexParser.java:107-109 | the cite matches `find()` reports all lie within the line |
| `TexPatterns.IncludeMatchAt` | src/main/java/org/jabref/logic/texparser/DefaultTexParser.java:43-44 | a match is `\include{` or `\input{`, a group without `}`, and the closing `}` where the match ends |
| `TexPatterns.IncludeMatchAtComplete` | src/main/java/org/jabref/logic/texparser/DefaultTexParser.java:43-44 | whenever INCLUDE_PATTERN matches at a position, the matcher reports exactly that match |
| `TexPatterns.IncludeAttempts` | src/main/java/org/jabref/logic/texparser/DefaultTexParser.java:119 | INCLUDE_PATTERN tried at every position of the line, each outcome the matcher's |
| `TexPatterns.IncludeMatches` | src/main/java/org/jabref/logic/texparser/DefaultTexParser.java:119-121 | the include matches `find()` reports all lie within the line |
| `Paths.Parent` | src/main/java/org/jabref/logic/texparser/DefaultTexParser.java:124 | `getParent()` is null exactly for a bare name or the root; otherwise it is the root for a file directly under it, or the part of the path before its last `/` |
| `Paths.Resolve` | src/main/java/org/jabref/logic/texparser/DefaultTexParser.java:124 | an absolute name resolves to itself; any other non-empty name, against a non-empty directory, gives the directory followed by the name, joined by one `/` unless the directory already ends in `/` (the result starts with the directory, ends with the name, and its length and separator are fixed) |
| `Paths.ParentOfResolve` | src/main/java/org/jabref/logic/texparser/DefaultTexParser.java:124-127 | a bare name resolved against a directory has that directory as its parent |
| `TexScan.IsSkipped` | src/main/java/org/jabref/logic/texparser/DefaultTexParser.java:80-83 | the skip test: an empty line and a line starting with `%` are skipped, and a line starting with any other character above U+0020 is not (`SkippedByTrim` ties it to `trim()` exactly) |
| `TexScan.FirstKeptTrimStart` | src/main/java/org/jabref/logic/texparser/DefaultTexParser.java:81 | the first character `trim` keeps is the first character of the trimmed-start line, and there is none only for a blank line |
| `TexScan.SkippedByTrim` | src/main/java/org/jabref/logic/texparser/DefaultTexParser.java:80-83 | a line is skipped exactly when its trimmed form is empty or starts with `%`; a `%` later in the line does not count |
| `TexScan.MatchKeys` | src/main/java/org/jabref/logic/texparser/DefaultTexParser.java:110 | the keys of a cite match are its key group split on `,`; a group without a comma is one key, the whole group (`JavaStrings.SplitPieces` gives the rest) |
| `TexScan.KeyCitations` | src/main/java/org/jabref/logic/texparser/DefaultTexParser.java:110-111 | one occurrence per key of the match, in order, each with the match's start and end, the file, the line number and the line |
| `TexScan.CitationsOf` | src/main/java/org/jabref/logic/texparser/DefaultTexParser.java:109-111 | the occurrences of a sequence of matches, match after match; every one carries the file, the line number and the line |
| `TexScan.LineCitations` | src/main/java/org/jabref/logic/texparser/DefaultTexParser.java:106-113 | `matchCitation` on a line: the occurrences of the cite matches `find()` reports, match after match; a line with no cite match records nothing (`LineProperties.LineCitationsMembers` gives the exact set) |
| `TexScan.WithTexExtension` | src/main/java/org/jabref/logic/texparser/DefaultTexParser.java:125-127 | the name ends with `.tex`; it is the name itself exactly when the name already ends with `.tex`, and otherwise the name with `.tex` appended |
| `TexScan.NestedFile` | src/main/java/org/jabref/logic/texparser/DefaultTexParser.java:124-127 | the file an include names: under a non-empty directory it ends with `.tex`, and a relative name lands in a path that starts with the directory (`LineProperties.NestedFileInDirectory` and `NestedFileAbsolute` pin it down) |
| `TexScan.IncludeTargets` | src/main/java/org/jabref/logic/texparser/DefaultTexParser.java:122-127 | one resolved file per include match |
| `TexScan.Queue` | src/main/java/org/jabref/logic/texparser/DefaultTexParser.java:129-131 | the targets that exist and lie outside the current batch, in order, repeats kept; never more than the targets (`LineProperties.QueueCounts` counts them) |
| `TexScan.NestedFiles` | src/main/java/org/jabref/logic/texparser/DefaultTexParser.java:118-133 | `matchNestedFile` on a line: what it appends to the queue, or None when it throws; a line without an include directive queues nothing, and no line queues more files than it has include matches |
| `TexScan.ScanLine` | src/main/java/org/jabref/logic/texparser/DefaultTexParser.java:79-86 | one line of a batch file: a blank or comment line changes nothing, otherwise its occurrences and then its queued files are appended; what was recorded before is kept |
| `TexScan.ScanLines` | src/main/java/org/jabref/logic/texparser/DefaultTexParser.java:78-86 | the lines of a file, numbered from 1, scanned in order until the scan stops; what was recorded before is kept |
| `TexScan.ScanFile` | src/main/java/org/jabref/logic/texparser/DefaultTexParser.java:73-92 | one file of the batch: a missing file changes nothing (no occurrences, no queued files, no stop), otherwise its lines as far as they could be read, and interrupted on a closed channel; what was recorded before is kept |
| `TexScan.ScanBatch` | src/main/java/org/jabref/logic/texparser/DefaultTexParser.java:72-93 | the first k files of the batch, in order, until the scan stops; what was recorded before is kept |
| `TexScan.ScanLinesStep` | src/main/java/org/jabref/logic/texparser/DefaultTexParser.java:79 | reading one more line scans it, numbered by its position, after the earlier lines, unless the scan has stopped |
| `TexScan.ScanLinesStopped` | src/main/java/org/jabref/logic/texparser/DefaultTexParser.java:79-89 | once a file's scan has been interrupted or has thrown, the later lines change nothing |
| `TexScan.ScanBatchStopped` | src/main/java/org/jabref/logic/texparser/DefaultTexParser.java:72-89 | once a batch's scan has been interrupted or has thrown, the later files change nothing |
| `TexScan.Traverse` | src/main/java/org/jabref/logic/texparser/DefaultTexParser.java:67-101 | the recorded files start with the whole batch, missing files included, and the recorded occurrences start with those of the whole batch: nested batches come after; it ends with null exactly when the batch itself is interrupted, an exception in the batch or a nested batch passes through, and a null from the nested parse is dropped, so the parse returns normally; when the batch queues nothing the parse returns with exactly the batch's occurrences and files, and otherwise (fuel permitting) the next recorded files are exactly the queue |
| `LineProperties.KeyCitationsMembers` | src/main/java/org/jabref/logic/texparser/DefaultTexParser.java:110-111 | an occurrence is recorded for a match exactly when its key is one of the match's keys and it carries the match's offsets, the file, the line number and the line |
| `LineProperties.CitationsOfSound` | src/main/java/org/jabref/logic/texparser/DefaultTexParser.java:109-111 | every occurrence recorded for a sequence of matches is one of the keys of one of the matches, with its offsets |
| `LineProperties.CitationsOfComplete` | src/main/java/org/jabref/logic/texparser/DefaultTexParser.java:109-111 | every key of every match in the sequence is recorded |
| `LineProperties.CitationsOfMembers` | src/main/java/org/jabref/logic/texparser/DefaultTexParser.java:109-111 | the occurrences of a sequence of matches are exactly those recorded for one of its matches |
| `LineProperties.LineCitationsMembers` | src/main/java/org/jabref/logic/texparser/DefaultTexParser.java:106-113 | `matchCitation` records an occurrence exactly when it belongs to one of the cite matches `find()` reports; text outside every match records nothing |
| `LineProperties.CitationsOfOrdered` | src/main/java/org/jabref/logic/texparser/DefaultTexParser.java:109-111 | occurrences of disjoint matches, taken left to right, come out left to right |
| `LineProperties.LineCitationsOrdered` | src/main/java/org/jabref/logic/texparser/DefaultTexParser.java:106-113 | along a line, two occurrences either share their match's offsets or the first ends at or before the start of the second |
| `LineProperties.KeysRoundTrip` | src/main/java/org/jabref/logic/texparser/DefaultTexParser.java:110 | for a key group that does not end with a comma: the match has at least one key, no key contains a comma, and joining the keys with commas gives the group back (trailing commas are covered by `JavaStrings.SplitPieces`) |
| `LineProperties.QueueCounts` | src/main/java/org/jabref/logic/texparser/DefaultTexParser.java:129-131 | each target passing the filter is queued as often as it occurs, and a target that fails the filter never is: repeats are not removed |
| `LineProperties.QueueMembers` | src/main/java/org/jabref/logic/texparser/DefaultTexParser.java:129-131 | a path is queued exactly when it is a target, exists and is not in the current batch |
| `LineProperties.NestedFilesThrows` | src/main/java/org/jabref/logic/texparser/DefaultTexParser.java:124 | `matchNestedFile` throws exactly when the line has an include match and the file has no parent directory |
| `LineProperties.IncludeTargetsMembers` | src/main/java/org/jabref/logic/texparser/DefaultTexParser.java:121-127 | a path is an include target of a sequence of matches exactly when it is the file one of them names under the directory |
| `LineProperties.NestedFilesMembers` | src/main/java/org/jabref/logic/texparser/DefaultTexParser.java:118-133 | in a file with a parent directory, a path is queued exactly when it exists, lies outside the batch, and is the resolved target of one of the line's include matches |
| `LineProperties.NestedFileInDirectory` | src/main/java/org/jabref/logic/texparser/DefaultTexParser.java:124-127 | a bare include name becomes a `.tex` file directly inside the including file's directory |
| `LineProperties.NestedFileAbsolute` | src/main/java/org/jabref/logic/texparser/DefaultTexParser.java:124-127 | an absolute include name stands for itself, with `.tex` added if needed, whatever the including file's directory |
| `TraversalProperties.LineCitationsFields` | src/main/java/org/jabref/logic/texparser/DefaultTexParser.java:111 | every occurrence of a line carries that file, that line number and that line |
| `TraversalProperties.NestedFilesQueueable` | src/main/java/org/jabref/logic/texparser/DefaultTexParser.java:129-130 | a line queues only existing files outside the current batch |
| `TraversalProperties.ExtendsWithMoreLines` | src/main/java/org/jabref/logic/texparser/DefaultTexParser.java:79-86 | what holds of the scan of some of a file's lines holds for any longer run of its lines |
| `TraversalProperties.ExtendsWithLastLine` | src/main/java/org/jabref/logic/texparser/DefaultTexParser.java:79-86 | occurrences for the last line, added after those of the earlier lines, keep the line numbers in order |
| `TraversalProperties.ScanLineExtends` | src/main/java/org/jabref/logic/texparser/DefaultTexParser.java:79-86 | scanning line n after lines 1 to n-1 adds only occurrences of line n and queues only existing files outside the batch; a blank or comment line changes nothing at all |
| `TraversalProperties.ScanLinesProvenance` | src/main/java/org/jabref/logic/texparser/DefaultTexParser.java:79-86 | scanning a file's lines keeps what was recorded; the new occurrences come from unskipped lines, in line order; only existing files outside the batch are queued |
| `TraversalProperties.ScanFileProvenance` | src/main/java/org/jabref/logic/texparser/DefaultTexParser.java:72-92 | scanning one file of the batch adds occurrences only when the file exists, every one of them carrying that file's path and coming from its lines as it reads |
| `TraversalProperties.ScanBatchProvenance` | src/main/java/org/jabref/logic/texparser/DefaultTexParser.java:72-93 | scanning the files of a batch adds occurrences only from existing files of the batch |
| `TraversalProperties.ScanBatchNextFile` | src/main/java/org/jabref/logic/texparser/DefaultTexParser.java:72 | files are scanned in batch order: the occurrences after the first k files are those after the first k-1 files followed only by occurrences of file k |
| `TraversalProperties.TraverseProvenance` | src/main/java/org/jabref/logic/texparser/DefaultTexParser.java:67-101 | every occurrence a parse records comes from an unskipped line of an existing file among the recorded files, with that line's text and number; every file recorded after the first batch exists |
| `TraversalProperties.TraverseNestedEnd` | src/main/java/org/jabref/logic/texparser/DefaultTexParser.java:95-98 | when the batch queues files and fuel is left, the parse ends as the nested parse does, except that a null from the nested parse is dropped and the parse then returns normally; an exception passes through |
| `TraversalProperties.CycleNeverSettles` | src/main/java/org/jabref/logic/texparser/DefaultTexParser.java:95-98 | when two files each queue only the other, the parse runs out of any fuel, recording one more file per round |
| `TraversalProperties.InputLine` | src/main/java/org/jabref/logic/texparser/DefaultTexParser.java:43-44 | the line `\input{b}` has one include match, whose file group is `b` |
| `TraversalProperties.InDirDFiles` | src/main/java/org/jabref/logic/texparser/DefaultTexParser.java:124-127 | `/d/x.tex` lies in `/d`, the include `y` resolves there to `/d/y.tex`, and different names give different files |
| `TraversalProperties.OneIncludeQueues` | src/main/java/org/jabref/logic/texparser/DefaultTexParser.java:118-131 | a line with one include match, naming an existing file outside the batch, queues that file alone |
| `TraversalProperties.InputLineQueues` | src/main/java/org/jabref/logic/texparser/DefaultTexParser.java:118-131 | in `/d/x.tex`, the line `\input{y}` queues `/d/y.tex` when it exists |
| `TraversalProperties.InputFileScan` | src/main/java/org/jabref/logic/texparser/DefaultTexParser.java:78-85 | an existing file whose one line is `\input{y}` queues the existing `/d/y.tex` and goes on |
| `TraversalProperties.CycleExample` | src/main/java/org/jabref/logic/texparser/DefaultTexParser.java:95-98 | for `/d/a.tex` and `/d/b.tex`, each including the other, the parse never settles, whatever the fuel |
| `YearChecker.ContainsFourDigit` | src/main/java/org/jabref/logic/integrity/YearChecker.java:13-14 | CONTAINS_FOUR_DIGIT: a run of exactly four digits bounded by non-digits or the ends; it needs at least four characters |
| `YearChecker.EndsWithFourDigit` | src/main/java/org/jabref/logic/integrity/YearChecker.java:15 | ENDS_WITH_FOUR_DIGIT: `[0-9]{4}$` is found; the text then ends in four digits, or in a line terminator before which Java's `$` also matches |
| `YearChecker.CheckValue` | src/main/java/org/jabref/logic/integrity/YearChecker.java:26-58 | `checkValue` with the current year as a parameter: every message is for a non-blank value, and an accepted non-blank value parses to a year no later than the current one; `CheckValueAccepts` and `CheckValueFirstFailure` characterise it fully |
| `YearChecker.StripPunctuation` | src/main/java/org/jabref/logic/integrity/YearChecker.java:16 | `replaceAll("[(){},.;!?<>%&$]", "")` leaves none of those characters and no more characters than it was given, changes nothing in a text without them, and drops a single character exactly when it is one of them; with `StripPunctuationAppend` this fixes the result: the other characters are kept, in order |
| `YearChecker.StripPunctuationAppend` | src/main/java/org/jabref/logic/integrity/YearChecker.java:39 | stripping a concatenation strips each part |
| `YearChecker.FourDigitRunOfDigits` | src/main/java/org/jabref/logic/integrity/YearChecker.java:13-14 | a string of digits contains a bounded run of four digits only when it is exactly four digits |
| `YearChecker.FourDigitsPassGuards` | src/main/java/org/jabref/logic/integrity/YearChecker.java:31-51 | four ASCII digits pass the blank, four-digit, final-digits and first-character guards, and parse to their decimal value |
| `YearChecker.CheckValueAccepts` | src/main/java/org/jabref/logic/integrity/YearChecker.java:26-58 | a value is accepted exactly when it is blank, or four ASCII digits whose value is at most the current year |
| `YearChecker.CheckValueFutureYear` | src/main/java/org/jabref/logic/integrity/YearChecker.java:50-53 | the future-year message is given exactly to four-digit values beyond the current year |
| `YearChecker.CheckValueFirstFailure` | src/main/java/org/jabref/logic/integrity/YearChecker.java:31-56 | each of the other messages is given exactly when every earlier guard passes and its own guard fails; "Not a year" goes exactly to the digit-led values that pass the earlier guards but are not four digits, since every other such value parses |
| `YearChecker.ParsedDigits` | src/main/java/org/jabref/logic/integrity/YearChecker.java:43-55 | a digit-led value that parses is untouched by `trim`, and it contains a bounded four-digit run only when it is four digits |
| `YearChecker.AboutYearRefused` | src/main/java/org/jabref/logic/integrity/YearChecker.java:18-48 | the BibTeX manual's own example `(about 1984)` passes the first two guards and is refused for its first character |
| `YearChecker.WrappedKeepsFinalDigits` | src/main/java/org/jabref/logic/integrity/YearChecker.java:15-16 | brackets around an unpunctuated text ending in four digits do not hide those digits from the final-digits guard |

## Left out

- Reading files, `File.exists()` and `LineNumberReader`: replaced by the `FileSystem` value. One read gives a fixed list of lines and a fixed outcome.
- Logging (`LOGGER.error`): it has no effect on the result.
- `TexParser.DefaultTexParser.ParseFiles`: the recursion is bounded by a `fuel` parameter. When fuel runs out and files are still queued, the model stops with `OutOfFuel`, where the code would recurse again; on a cycle it recurses until a `StackOverflowError` ends the parse.
- `TexParserResult` is not part of this model beyond `addKey` and `addFiles`, which are modelled as appends. How the result groups occurrences by key is left out.
- Path normalisation, `..`, `.` and symbolic links: paths are `/`-separated strings, and `getParent` and `resolve` follow only the rules `Paths` states.
- An `UncheckedIOException` in the middle of a file is treated like an `IOException` that ends the file: the lines read before it are kept.
- Offsets count Unicode code points, since a Dafny `string` is a sequence of them. Java's `Matcher.start()` and `end()` count UTF-16 code units, so the recorded offsets differ from Java's on a line that has a character outside the Basic Multilingual Plane before the match.
- Character classes are restricted to ASCII in both pieces of code:
  - `Character.isDigit` and `Integer.parseInt` accept only `0`-`9`;
  - regex letters and digits are ASCII;
  - `trim` and `StringUtil.isBlank` remove the characters up to U+0020.
- `Calendar.getInstance()`: the current year is a parameter.
- `Localization.lang`: each message is a constructor of `YearError`.
- `ImportTest.java` is not part of this model. It is a test harness that runs the BibTeX importer and writer and asserts nothing.
- The extensibility of `CITE_COMMANDS`: the matchers take the set of command names as a parameter. What is proved about them needs only that every name is a non-empty run of letters (`TexPatterns.CommandWords`). This holds because a name is always followed by `*`, `[` or `{`, so the longest run of letters is the name.
