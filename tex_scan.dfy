/**
 * The LaTeX scanner of the reference manager: which citation keys a `.tex`
 * file records, and which nested files (`\include`, `\input`) it queues for
 * the next round. This module holds the meaning of a scan as functions over
 * an abstract file system; module TexParser holds the parser object
 * whose methods carry the scan out step by step and are proved to agree.
 */
module TexScan {
  import opened Wrappers
  import opened JavaStrings
  import opened Matches
  import opened TexPatterns
  import opened Paths

  /** One occurrence as `TexParserResult.addKey` receives it: the key, file, line number, match start and end, and the raw line. */
  datatype Citation = Citation(key: string, path: Path, line: nat, start: nat, end: nat, lineText: string)

  // ----- The file system -----

  /** How reading a file stopped: at its end, on an I/O error, or on a closed channel (an interrupted parse). */
  datatype ReadOutcome = Complete | Failed | ChannelClosed

  /** The lines a `LineNumberReader` delivers before it stops, and why it stops. */
  datatype Reading = Reading(lines: seq<string>, outcome: ReadOutcome)

  /** `File.exists()` as a set of paths, and what reading each file gives. */
  datatype FileSystem = FileSystem(present: set<Path>, contents: map<Path, Reading>)

  /** Reading a file; one the map says nothing about (a directory, say) fails before its first line. */
  function Read(fs: FileSystem, path: Path): Reading {
    if path in fs.contents then fs.contents[path] else Reading([], Failed)
  }

  // ----- One line -----

  const TexExtension: string := ".tex"

  /**
   * The first character of the line that `trim` keeps, if any. The skip test
   * only needs this character, so it is defined directly rather than through
   * `Trim`, which keeps the proofs about lines cheap; `FirstKeptTrimStart` and
   * `SkippedByTrim` show that it agrees with `trim()`.
   */
  function FirstKept(line: string): Option<char>
    decreases |line|
  {
    if line == [] then None
    else if IsTrimmed(line[0]) then FirstKept(line[1..])
    else Some(line[0])
  }

  /** Blank lines and lines whose first kept character is `%` are not scanned. */
  predicate IsSkipped(line: string)
    ensures line == [] ==> IsSkipped(line)
    ensures line != [] && line[0] == '%' ==> IsSkipped(line)
    ensures line != [] && !IsTrimmed(line[0]) && line[0] != '%' ==> !IsSkipped(line)
  {
    match FirstKept(line)
    case None => true
    case Some(c) => c == '%'
  }

  /** The first kept character is where `trim` starts. */
  lemma {:induction false} FirstKeptTrimStart(line: string)
    ensures FirstKept(line).None? <==> TrimStart(line) == []
    ensures FirstKept(line).Some? ==> FirstKept(line).value == TrimStart(line)[0]
    decreases |line|
  {
    if line != [] && IsTrimmed(line[0]) {
      FirstKeptTrimStart(line[1..]);
    }
  }

  /** The skip test on `line.trim()`, as the parse loop writes it, is the one above. */
  lemma SkippedByTrim(line: string)
    ensures IsSkipped(line) <==> (Trim(line) == [] || Trim(line)[0] == '%')
  {
    FirstKeptTrimStart(line);
    var u := TrimStart(line);
    var t := TrimEnd(u);
    assert Trim(line) == t;
    if u != [] {
      assert t[0] == u[0];
    }
  }

  /** The text of a match's group. */
  function GroupText(line: string, m: Match): string
    requires m.groupStart <= m.groupEnd <= |line|
  {
    line[m.groupStart..m.groupEnd]
  }

  /** Every match lies in the line, so its group can be taken. */
  predicate InLine(line: string, ms: seq<Match>) {
    forall k :: 0 <= k < |ms| ==> ms[k].groupStart <= ms[k].groupEnd <= |line|
  }

  /** The keys of one cite match: its key group split on `,` as `String.split` does it. */
  function MatchKeys(line: string, m: Match): (keys: seq<string>)
    requires m.groupStart <= m.groupEnd <= |line|
    ensures ',' !in GroupText(line, m) ==> keys == [GroupText(line, m)]
  {
    Split(GroupText(line, m), ',')
  }

  /** What one cite match records: one occurrence per key, left to right, all with the match's offsets. */
  function KeyCitations(file: Path, n: nat, line: string, m: Match): (cs: seq<Citation>)
    requires m.groupStart <= m.groupEnd <= |line|
    ensures |cs| == |MatchKeys(line, m)|
    ensures forall q :: 0 <= q < |cs| ==> cs[q] == Citation(MatchKeys(line, m)[q], file, n, m.start, m.end, line)
  {
    var keys := MatchKeys(line, m);
    seq(|keys|, q requires 0 <= q < |keys| => Citation(keys[q], file, n, m.start, m.end, line))
  }

  /** What a sequence of cite matches records, match after match. */
  function CitationsOf(file: Path, n: nat, line: string, ms: seq<Match>): (cs: seq<Citation>)
    requires InLine(line, ms)
    ensures forall q :: 0 <= q < |cs| ==> cs[q].path == file && cs[q].line == n && cs[q].lineText == line
  {
    if ms == [] then []
    else CitationsOf(file, n, line, ms[..|ms| - 1]) + KeyCitations(file, n, line, ms[|ms| - 1])
  }

  /** `matchCitation(file, n, line)`: what the cite matches along the line record. */
  function LineCitations(file: Path, n: nat, line: string): (cs: seq<Citation>)
    ensures CiteMatches(CiteCommands, line) == [] ==> cs == []
  {
    CitationsOf(file, n, line, CiteMatches(CiteCommands, line))
  }

  /** `.tex` appended unless the name already ends with it. */
  function WithTexExtension(name: string): (r: string)
    ensures EndsWith(r, TexExtension)
    ensures r == name || r == name + TexExtension
    ensures r == name <==> EndsWith(name, TexExtension)
  {
    if EndsWith(name, TexExtension) then name else name + TexExtension
  }

  /** The file an include directive names, under the directory of the including file. */
  function NestedFile(dir: Path, name: string): (p: Path)
    ensures dir != [] ==> EndsWith(p, TexExtension)
    ensures name != [] && name[0] != '/' && dir != [] ==> dir <= p
  {
    var w := WithTexExtension(name);
    var p := Resolve(dir, w);
    assert dir != [] ==> p[|p| - |TexExtension|..] == w[|w| - |TexExtension|..];
    p
  }

  /** The files the include matches name, in order. */
  function IncludeTargets(dir: Path, line: string, ms: seq<Match>): (ts: seq<Path>)
    requires InLine(line, ms)
    ensures |ts| == |ms|
  {
    seq(|ms|, k requires 0 <= k < |ms| => NestedFile(dir, GroupText(line, ms[k])))
  }

  /** A nested file is queued when it exists and is not in the current batch. */
  predicate Queueable(fs: FileSystem, batch: seq<Path>, p: Path) {
    p in fs.present && p !in batch
  }

  /** The targets that pass the queueing filter, in order, repeats kept. */
  function Queue(fs: FileSystem, batch: seq<Path>, ts: seq<Path>): (r: seq<Path>)
    ensures |r| <= |ts|
  {
    if ts == [] then []
    else Queue(fs, batch, ts[..|ts| - 1]) + (if Queueable(fs, batch, ts[|ts| - 1]) then [ts[|ts| - 1]] else [])
  }

  /**
   * `matchNestedFile(file, batch, queue, line)`: what it appends to the
   * queue, or None when `file.getParent()` is null at an include match and
   * the call throws a NullPointerException.
   */
  function NestedFiles(fs: FileSystem, batch: seq<Path>, file: Path, line: string): (r: Option<seq<Path>>)
    ensures IncludeMatches(line) == [] ==> r == Some([])
    ensures r.Some? ==> |r.value| <= |IncludeMatches(line)|
  {
    var ms := IncludeMatches(line);
    if ms == [] then Some([])
    else match Parent(file)
      case None => None
      case Some(dir) => Some(Queue(fs, batch, IncludeTargets(dir, line, ms)))
  }

  // ----- Lines, files and batches -----

  /** Whether the scan goes on, or stopped on an interruption or a thrown exception. */
  datatype Status = Running | Interrupted | Threw

  /** What a scan has recorded so far: the occurrences, the queue of nested files, and its status. */
  datatype Scan = Scan(citations: seq<Citation>, queued: seq<Path>, status: Status)

  const Start: Scan := Scan([], [], Running)

  /** Line n of a file of the batch: matchCitation, then matchNestedFile, unless the line is skipped. */
  function ScanLine(fs: FileSystem, batch: seq<Path>, file: Path, n: nat, line: string, s: Scan): (r: Scan)
    requires s.status == Running
    ensures s.citations <= r.citations && s.queued <= r.queued
  {
    if IsSkipped(line) then s
    else
      var cs := s.citations + LineCitations(file, n, line);
      match NestedFiles(fs, batch, file, line)
      case None => Scan(cs, s.queued, Threw)
      case Some(q) => Scan(cs, s.queued + q, Running)
  }

  /** The lines of a file, numbered from 1, until the scan stops. */
  function ScanLines(fs: FileSystem, batch: seq<Path>, file: Path, lines: seq<string>, s: Scan): (r: Scan)
    ensures s.citations <= r.citations && s.queued <= r.queued
    decreases |lines|
  {
    if lines == [] then s
    else
      var prev := ScanLines(fs, batch, file, lines[..|lines| - 1], s);
      if prev.status != Running then prev
      else ScanLine(fs, batch, file, |lines|, lines[|lines| - 1], prev)
  }

  /**
   * One file of the batch: a file that does not exist is skipped; otherwise
   * its lines are scanned as far as they could be read, and a closed channel
   * interrupts the scan.
   */
  function ScanFile(fs: FileSystem, batch: seq<Path>, file: Path, s: Scan): (r: Scan)
    requires s.status == Running
    ensures s.citations <= r.citations && s.queued <= r.queued
    ensures file !in fs.present ==> r == s
  {
    if file !in fs.present then s
    else
      var r := Read(fs, file);
      var t := ScanLines(fs, batch, file, r.lines, s);
      if t.status == Running && r.outcome == ChannelClosed then t.(status := Interrupted) else t
  }

  /** The first k files of the batch, in order, until the scan stops. */
  function ScanBatch(fs: FileSystem, batch: seq<Path>, k: nat, s: Scan): (r: Scan)
    requires k <= |batch|
    ensures s.citations <= r.citations && s.queued <= r.queued
    decreases k
  {
    if k == 0 then s
    else
      var prev := ScanBatch(fs, batch, k - 1, s);
      if prev.status != Running then prev
      else ScanFile(fs, batch, batch[k - 1], prev)
  }

  /** One more line: the scan of the first k + 1 lines is line k + 1 scanned after the first k. */
  lemma ScanLinesStep(fs: FileSystem, batch: seq<Path>, file: Path, lines: seq<string>, k: nat, s: Scan)
    requires k < |lines|
    ensures ScanLines(fs, batch, file, lines[..k + 1], s) ==
            (var prev := ScanLines(fs, batch, file, lines[..k], s);
             if prev.status != Running then prev else ScanLine(fs, batch, file, k + 1, lines[k], prev))
  {
    assert lines[..k + 1][..k] == lines[..k];
  }

  /** Once the scan of a file has stopped, the lines after that change nothing. */
  lemma {:induction false} ScanLinesStopped(fs: FileSystem, batch: seq<Path>, file: Path, lines: seq<string>, k: nat, s: Scan)
    requires k <= |lines| && ScanLines(fs, batch, file, lines[..k], s).status != Running
    ensures ScanLines(fs, batch, file, lines, s) == ScanLines(fs, batch, file, lines[..k], s)
    decreases |lines| - k
  {
    if k < |lines| {
      ScanLinesStep(fs, batch, file, lines, k, s);
      ScanLinesStopped(fs, batch, file, lines, k + 1, s);
    } else {
      assert lines[..k] == lines;
    }
  }

  /** Once the scan of a batch has stopped, the files after that change nothing. */
  lemma {:induction false} ScanBatchStopped(fs: FileSystem, batch: seq<Path>, k: nat, j: nat, s: Scan)
    requires k <= j <= |batch| && ScanBatch(fs, batch, k, s).status != Running
    ensures ScanBatch(fs, batch, j, s) == ScanBatch(fs, batch, k, s)
    decreases j - k
  {
    if k < j {
      ScanBatchStopped(fs, batch, k, j - 1, s);
    }
  }

  // ----- The traversal -----

  /**
   * How `parse(List<Path>)` ends: it returns the result, returns null (the
   * batch was interrupted), throws, or, in the model only, runs out of the
   * fuel that bounds its recursion.
   */
  datatype End = Returned | ReturnedNull | ThrewException | OutOfFuel

  /** What a whole parse appends to the result's occurrences and files, and how it ends. */
  datatype Traversal = Traversal(citations: seq<Citation>, files: seq<Path>, end: End)

  /**
   * `parse(batch)`: record the batch's files, scan them in order, then parse
   * the queued nested files as the next batch. A null returned by that
   * recursive call is dropped; an exception goes through. The recursion is
   * bounded by `fuel`.
   */
  function Traverse(fs: FileSystem, batch: seq<Path>, fuel: nat): (t: Traversal)
    ensures |batch| <= |t.files| && t.files[..|batch|] == batch
    ensures ScanBatch(fs, batch, |batch|, Start).citations <= t.citations
    ensures var s := ScanBatch(fs, batch, |batch|, Start);
            s.status == Running && s.queued == [] ==> t == Traversal(s.citations, batch, Returned)
    ensures var s := ScanBatch(fs, batch, |batch|, Start);
            s.status == Running && s.queued != [] && fuel > 0 ==>
              |batch| + |s.queued| <= |t.files| && t.files[..|batch| + |s.queued|] == batch + s.queued
    ensures t.end == ReturnedNull <==> ScanBatch(fs, batch, |batch|, Start).status == Interrupted
    ensures ScanBatch(fs, batch, |batch|, Start).status == Threw ==> t.end == ThrewException
    decreases fuel
  {
    var s := ScanBatch(fs, batch, |batch|, Start);
    if s.status == Interrupted then Traversal(s.citations, batch, ReturnedNull)
    else if s.status == Threw then Traversal(s.citations, batch, ThrewException)
    else if s.queued == [] then Traversal(s.citations, batch, Returned)
    else if fuel == 0 then Traversal(s.citations, batch, OutOfFuel)
    else
      var inner := Traverse(fs, s.queued, fuel - 1);
      Traversal(s.citations + inner.citations, batch + inner.files,
                if inner.end == ReturnedNull then Returned else inner.end)
  }
}
