/**
 * The parser object: `TexParserResult` collects what is recorded, and
 * `DefaultTexParser` fills it, line by line and batch by batch. Each method
 * is proved to do what the functions of module TexScan say.
 */
module TexParser {
  import opened Wrappers
  import opened JavaStrings
  import opened Matches
  import opened TexPatterns
  import opened Paths
  import opened TexScan

  /** The collected result: the recorded occurrences, in order, and the parsed files. */
  class TexParserResult {
    var citations: seq<Citation>
    var files: seq<Path>

    constructor()
      ensures citations == [] && files == []
    {
      citations := [];
      files := [];
    }

    /** `addKey`: one more occurrence at the end. */
    method AddKey(key: string, path: Path, line: nat, start: nat, end: nat, lineText: string)
      modifies this
      ensures citations == old(citations) + [Citation(key, path, line, start, end, lineText)]
      ensures files == old(files)
    {
      citations := citations + [Citation(key, path, line, start, end, lineText)];
    }

    /** `addFiles`: the given files at the end, repeats kept. */
    method AddFiles(paths: seq<Path>)
      modifies this
      ensures files == old(files) + paths
      ensures citations == old(citations)
    {
      files := files + paths;
    }
  }

  class DefaultTexParser {
    const result: TexParserResult

    constructor()
      ensures fresh(result) && result.citations == [] && result.files == []
    {
      result := new TexParserResult();
    }

    /** `getTexParserResult`: the one result object every parse fills. */
    function GetTexParserResult(): (r: TexParserResult)
      ensures r == result
    {
      result
    }

    /** `parse(String)`: the citations of one string, taken as line 1 of the file with the empty path; no line is skipped. */
    method ParseString(citeString: string) returns (r: TexParserResult)
      modifies result
      ensures r == result
      ensures result.citations == old(result.citations) + LineCitations("", 1, citeString)
      ensures result.files == old(result.files)
    {
      MatchCitation("", 1, citeString);
      r := result;
    }

    /** `parse(Path)`: the batch of the one file. */
    method ParsePath(fs: FileSystem, texFile: Path, fuel: nat) returns (r: TexParserResult?, end: End)
      modifies result
      ensures result.citations == old(result.citations) + Traverse(fs, [texFile], fuel).citations
      ensures result.files == old(result.files) + Traverse(fs, [texFile], fuel).files
      ensures end == Traverse(fs, [texFile], fuel).end
      ensures r == (if end == Returned then result else null)
    {
      r, end := ParseFiles(fs, [texFile], fuel);
    }

    /**
     * `parse(List<Path>)`: record the batch, scan its existing files in
     * order, then parse the queued nested files as the next batch. `end`
     * says how the call ends; unless it returns normally, `r` is null.
     */
    method ParseFiles(fs: FileSystem, texFiles: seq<Path>, fuel: nat) returns (r: TexParserResult?, end: End)
      modifies result
      ensures result.citations == old(result.citations) + Traverse(fs, texFiles, fuel).citations
      ensures result.files == old(result.files) + Traverse(fs, texFiles, fuel).files
      ensures end == Traverse(fs, texFiles, fuel).end
      ensures r == (if end == Returned then result else null)
      decreases fuel
    {
      result.AddFiles(texFiles);
      var referencedFiles, status := ParseBatch(fs, texFiles);
      if status == Interrupted {
        return null, ReturnedNull;
      } else if status == Threw {
        return null, ThrewException;
      }
      if referencedFiles != [] {
        if fuel == 0 {
          return null, OutOfFuel;
        }
        var inner, innerEnd := ParseFiles(fs, referencedFiles, fuel - 1);
        SeqAssoc(old(result.citations), ScanBatch(fs, texFiles, |texFiles|, Start).citations,
                 Traverse(fs, referencedFiles, fuel - 1).citations);
        SeqAssoc(old(result.files), texFiles, Traverse(fs, referencedFiles, fuel - 1).files);
        if innerEnd == ThrewException || innerEnd == OutOfFuel {
          return null, innerEnd;
        }
      }
      return result, Returned;
    }

    /**
     * The loop of `parse(List<Path>)` over the files of the batch, which
     * stops at the first file whose scan is interrupted or throws.
     */
    method ParseBatch(fs: FileSystem, texFiles: seq<Path>) returns (referencedFiles: seq<Path>, status: Status)
      modifies result
      ensures status == ScanBatch(fs, texFiles, |texFiles|, Start).status
      ensures referencedFiles == ScanBatch(fs, texFiles, |texFiles|, Start).queued
      ensures result.citations == old(result.citations) + ScanBatch(fs, texFiles, |texFiles|, Start).citations
      ensures result.files == old(result.files)
    {
      referencedFiles, status := [], Running;
      var i := 0;
      while i < |texFiles|
        invariant i <= |texFiles|
        invariant status == Running && ScanBatch(fs, texFiles, i, Start).status == Running
        invariant result.citations == old(result.citations) + ScanBatch(fs, texFiles, i, Start).citations
        invariant referencedFiles == ScanBatch(fs, texFiles, i, Start).queued
        invariant result.files == old(result.files)
      {
        referencedFiles, status := ParseFile(fs, texFiles, texFiles[i], referencedFiles,
                                             old(result.citations), ScanBatch(fs, texFiles, i, Start));
        if status != Running {
          ScanBatchStopped(fs, texFiles, i + 1, |texFiles|, Start);
          return;
        }
        i := i + 1;
      }
    }

    /**
     * One file of the batch, the body of the loop of `parse(List<Path>)`:
     * skipped when it does not exist, otherwise read line by line, where an
     * I/O error ends the file and a closed channel interrupts the parse.
     * `base` and `s` are what the result held before the batch and the scan so far.
     */
    method ParseFile(fs: FileSystem, texFiles: seq<Path>, file: Path, referencedFiles: seq<Path>,
                     ghost base: seq<Citation>, ghost s: Scan)
      returns (queued: seq<Path>, status: Status)
      requires s.status == Running && referencedFiles == s.queued
      requires result.citations == base + s.citations
      modifies result
      ensures status == ScanFile(fs, texFiles, file, s).status
      ensures queued == ScanFile(fs, texFiles, file, s).queued
      ensures result.citations == base + ScanFile(fs, texFiles, file, s).citations
      ensures result.files == old(result.files)
    {
      queued, status := referencedFiles, Running;
      if file !in fs.present {
        return;
      }
      var reading := Read(fs, file);
      var k := 0;
      while k < |reading.lines|
        invariant k <= |reading.lines|
        invariant status == Running && ScanLines(fs, texFiles, file, reading.lines[..k], s).status == Running
        invariant queued == ScanLines(fs, texFiles, file, reading.lines[..k], s).queued
        invariant result.citations == base + ScanLines(fs, texFiles, file, reading.lines[..k], s).citations
        invariant result.files == old(result.files)
      {
        ScanLinesStep(fs, texFiles, file, reading.lines, k, s);
        queued, status := ParseLine(fs, texFiles, file, k + 1, reading.lines[k], queued,
                                    base, ScanLines(fs, texFiles, file, reading.lines[..k], s));
        if status != Running {
          ScanLinesStopped(fs, texFiles, file, reading.lines, k + 1, s);
          return;
        }
        k := k + 1;
      }
      assert reading.lines[..k] == reading.lines;
      if reading.outcome == ChannelClosed {
        status := Interrupted;
      }
    }

    /** One line of a file: skipped when blank or a comment, otherwise matchCitation, then matchNestedFile. */
    method ParseLine(fs: FileSystem, texFiles: seq<Path>, file: Path, lineNumber: nat, line: string,
                     referencedFiles: seq<Path>, ghost base: seq<Citation>, ghost s: Scan)
      returns (queued: seq<Path>, status: Status)
      requires s.status == Running && referencedFiles == s.queued
      requires result.citations == base + s.citations
      modifies result
      ensures status == ScanLine(fs, texFiles, file, lineNumber, line, s).status
      ensures queued == ScanLine(fs, texFiles, file, lineNumber, line, s).queued
      ensures result.citations == base + ScanLine(fs, texFiles, file, lineNumber, line, s).citations
      ensures result.files == old(result.files)
    {
      queued, status := referencedFiles, Running;
      var trimmed := Trim(line);
      SkippedByTrim(line);
      if trimmed == [] || trimmed[0] == '%' {
        return;
      }
      MatchCitation(file, lineNumber, line);
      SeqAssoc(base, s.citations, LineCitations(file, lineNumber, line));
      var nested := MatchNestedFile(fs, file, texFiles, referencedFiles, line);
      if nested.None? {
        status := Threw;
      } else {
        queued := nested.value;
      }
    }

    /** `matchCitation`: every key of every cite match along the line, in order. */
    method MatchCitation(file: Path, lineNumber: nat, line: string)
      modifies result
      ensures result.citations == old(result.citations) + LineCitations(file, lineNumber, line)
      ensures result.files == old(result.files)
    {
      RecordMatches(CiteAttempts(CiteCommands, line), file, lineNumber, line);
    }

    /** The `find()` loop of `matchCitation`, over the outcomes of trying the pattern at each position of the line. */
    method RecordMatches(attempts: seq<Option<Match>>, file: Path, lineNumber: nat, line: string)
      requires IsAttemptTable(attempts) && |attempts| == |line|
      modifies result
      ensures InLine(line, MatchesFrom(attempts, 0))
      ensures result.citations == old(result.citations) + CitationsOf(file, lineNumber, line, MatchesFrom(attempts, 0))
      ensures result.files == old(result.files)
    {
      ghost var done: seq<Match> := [];
      var pos := 0;
      var found := FindFrom(attempts, 0);
      while found.Some?
        invariant pos <= |attempts| && found == FindFrom(attempts, pos)
        invariant MatchesFrom(attempts, 0) == done + MatchesFrom(attempts, pos)
        invariant InLine(line, done)
        invariant result.citations == old(result.citations) + CitationsOf(file, lineNumber, line, done)
        invariant result.files == old(result.files)
        decreases |attempts| - pos
      {
        var m := found.value;
        MatchesStep(attempts, done, pos);
        ghost var before := CitationsOf(file, lineNumber, line, done);
        RecordKeys(file, lineNumber, line, m);
        CitationsOfAppend(file, lineNumber, line, done, m);
        SeqAssoc(old(result.citations), before, KeyCitations(file, lineNumber, line, m));
        done := done + [m];
        pos := m.end;
        found := FindFrom(attempts, pos);
      }
      FindStep(attempts, pos);
      assert done + [] == done;
    }

    /** The body of the `find()` loop of `matchCitation`: one occurrence per key of match m. */
    method RecordKeys(file: Path, lineNumber: nat, line: string, m: Match)
      requires m.groupStart <= m.groupEnd <= |line|
      modifies result
      ensures result.citations == old(result.citations) + KeyCitations(file, lineNumber, line, m)
      ensures result.files == old(result.files)
    {
      var keys := Split(line[m.groupStart..m.groupEnd], ',');
      assert keys == MatchKeys(line, m);
      var j := 0;
      while j < |keys|
        invariant 0 <= j <= |keys|
        invariant result.citations == old(result.citations) + KeyCitations(file, lineNumber, line, m)[..j]
        invariant result.files == old(result.files)
      {
        result.AddKey(keys[j], file, lineNumber, m.start, m.end, line);
        assert KeyCitations(file, lineNumber, line, m)[..j + 1] ==
               KeyCitations(file, lineNumber, line, m)[..j] + [KeyCitations(file, lineNumber, line, m)[j]];
        j := j + 1;
      }
      assert KeyCitations(file, lineNumber, line, m)[..j] == KeyCitations(file, lineNumber, line, m);
    }

    /**
     * `matchNestedFile`: the queue with every existing nested file outside
     * the batch appended, or None when the file has no parent directory and
     * an include match makes `getParent().resolve` throw.
     */
    method MatchNestedFile(fs: FileSystem, file: Path, texFiles: seq<Path>, referencedFiles: seq<Path>, line: string)
      returns (queued: Option<seq<Path>>)
      ensures queued == match NestedFiles(fs, texFiles, file, line)
                        case None => None
                        case Some(q) => Some(referencedFiles + q)
    {
      var attempts := IncludeAttempts(line);
      ghost var done: seq<Match> := [];
      var acc := referencedFiles;
      var pos := 0;
      var found := FindFrom(attempts, 0);
      while found.Some?
        invariant pos <= |attempts| && found == FindFrom(attempts, pos)
        invariant MatchesFrom(attempts, 0) == done + MatchesFrom(attempts, pos)
        invariant InLine(line, done)
        invariant done == [] ==> acc == referencedFiles
        invariant done != [] ==>
                    (Parent(file).Some? &&
                     acc == referencedFiles + Queue(fs, texFiles, IncludeTargets(Parent(file).value, line, done)))
        decreases |attempts| - pos
      {
        var m := found.value;
        MatchesStep(attempts, done, pos);
        var dir := Parent(file);
        if dir.None? {
          return None;
        }
        var name := line[m.groupStart..m.groupEnd];
        var nestedFile := Resolve(dir.value, if EndsWith(name, TexExtension) then name else name + TexExtension);
        ghost var targets := IncludeTargets(dir.value, line, done);
        ghost var added := if Queueable(fs, texFiles, nestedFile) then [nestedFile] else [];
        IncludeTargetsAppend(dir.value, line, done, m);
        QueueAppend(fs, texFiles, targets, nestedFile);
        assert acc == referencedFiles + Queue(fs, texFiles, targets) by {
          if done == [] { assert referencedFiles + [] == referencedFiles; }
        }
        SeqAssoc(referencedFiles, Queue(fs, texFiles, targets), added);
        if nestedFile in fs.present && nestedFile !in texFiles {
          acc := acc + [nestedFile];
        }
        done := done + [m];
        pos := m.end;
        found := FindFrom(attempts, pos);
      }
      FindStep(attempts, pos);
      assert done + [] == done;
      assert done == IncludeMatches(line);
      if done == [] { assert referencedFiles + [] == referencedFiles; }
      return Some(acc);
    }
  }

  /** The loop of `find()` calls, one call further: the match found is the next one reported. */
  lemma MatchesStep(attempts: seq<Option<Match>>, done: seq<Match>, pos: nat)
    requires IsAttemptTable(attempts) && pos <= |attempts| && FindFrom(attempts, pos).Some?
    requires MatchesFrom(attempts, 0) == done + MatchesFrom(attempts, pos)
    ensures MatchesFrom(attempts, 0) == (done + [FindFrom(attempts, pos).value]) + MatchesFrom(attempts, FindFrom(attempts, pos).value.end)
  {
    var m := FindFrom(attempts, pos).value;
    FindStep(attempts, pos);
    SeqAssoc(done, [m], MatchesFrom(attempts, m.end));
  }

  lemma SeqAssoc<T>(a: seq<T>, b: seq<T>, c: seq<T>)
    ensures (a + b) + c == a + (b + c)
  {
  }

  lemma CitationsOfAppend(file: Path, n: nat, line: string, ms: seq<Match>, m: Match)
    requires InLine(line, ms) && m.groupStart <= m.groupEnd <= |line|
    ensures InLine(line, ms + [m])
    ensures CitationsOf(file, n, line, ms + [m]) == CitationsOf(file, n, line, ms) + KeyCitations(file, n, line, m)
  {
    assert (ms + [m])[..|ms|] == ms;
  }

  lemma IncludeTargetsAppend(dir: Path, line: string, ms: seq<Match>, m: Match)
    requires InLine(line, ms) && m.groupStart <= m.groupEnd <= |line|
    ensures InLine(line, ms + [m])
    ensures IncludeTargets(dir, line, ms + [m]) == IncludeTargets(dir, line, ms) + [NestedFile(dir, GroupText(line, m))]
  {
  }

  lemma QueueAppend(fs: FileSystem, batch: seq<Path>, ts: seq<Path>, t: Path)
    ensures Queue(fs, batch, ts + [t]) == Queue(fs, batch, ts) + (if Queueable(fs, batch, t) then [t] else [])
  {
    assert (ts + [t])[..|ts|] == ts;
  }
}
