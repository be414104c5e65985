/**
 * What a whole parse records: every occurrence comes from a scanned line
 * of an existing file of the traversal, files are scanned line by line in
 * order, only existing files outside the current batch are queued, and two
 * files that include each other are parsed again and again.
 */
module TraversalProperties {
  import opened Wrappers
  import opened JavaStrings
  import opened Matches
  import opened TexPatterns
  import opened Paths
  import opened TexScan
  import opened LineProperties

  /** Occurrence c was recorded for line c.line of these lines of file: a line that is not skipped. */
  predicate FromLines(c: Citation, file: Path, lines: seq<string>) {
    c.path == file && 1 <= c.line <= |lines| && lines[c.line - 1] == c.lineText && !IsSkipped(c.lineText)
  }

  /** Occurrence c was recorded for a scanned line of an existing file, as that file reads. */
  predicate FromFileSystem(c: Citation, fs: FileSystem) {
    c.path in fs.present && FromLines(c, c.path, Read(fs, c.path).lines)
  }

  /**
   * Scan t goes on from scan s over lines of file: it keeps what s holds,
   * its new occurrences come from those lines in line order, and what it
   * queues exists and lies outside the batch.
   */
  predicate ExtendsWithLines(fs: FileSystem, batch: seq<Path>, file: Path, lines: seq<string>, s: Scan, t: Scan) {
    s.citations <= t.citations && s.queued <= t.queued &&
    (forall i :: |s.citations| <= i < |t.citations| ==> FromLines(t.citations[i], file, lines)) &&
    (forall i, j :: |s.citations| <= i < j < |t.citations| ==> t.citations[i].line <= t.citations[j].line) &&
    (forall i :: |s.queued| <= i < |t.queued| ==> Queueable(fs, batch, t.queued[i]))
  }

  /** Scan t goes on from scan s over files of the batch, each existing and scanned as it reads. */
  predicate ExtendsWithFiles(fs: FileSystem, batch: seq<Path>, s: Scan, t: Scan) {
    s.citations <= t.citations && s.queued <= t.queued &&
    (forall i :: |s.citations| <= i < |t.citations| ==>
       FromFileSystem(t.citations[i], fs) && t.citations[i].path in batch) &&
    (forall i :: |s.queued| <= i < |t.queued| ==> Queueable(fs, batch, t.queued[i]))
  }

  /** The occurrences of a line carry the file, the line number and the line. */
  lemma LineCitationsFields(file: Path, n: nat, line: string)
    ensures forall i :: 0 <= i < |LineCitations(file, n, line)| ==>
              LineCitations(file, n, line)[i].path == file &&
              LineCitations(file, n, line)[i].line == n &&
              LineCitations(file, n, line)[i].lineText == line
  {
    var cs := LineCitations(file, n, line);
    forall i | 0 <= i < |cs| ensures cs[i].path == file && cs[i].line == n && cs[i].lineText == line {
      LineCitationsMembers(file, n, line, cs[i]);
    }
  }

  /** A line queues only existing files outside the batch. */
  lemma NestedFilesQueueable(fs: FileSystem, batch: seq<Path>, file: Path, line: string)
    ensures NestedFiles(fs, batch, file, line).Some? ==>
              forall i :: 0 <= i < |NestedFiles(fs, batch, file, line).value| ==>
                Queueable(fs, batch, NestedFiles(fs, batch, file, line).value[i])
  {
    var r := NestedFiles(fs, batch, file, line);
    if r.Some? {
      forall i | 0 <= i < |r.value| ensures Queueable(fs, batch, r.value[i]) {
        if Parent(file).Some? {
          NestedFilesMembers(fs, batch, file, line, r.value[i]);
        }
      }
    }
  }

  /** What holds of a scan over some lines of a file holds over any longer run of its lines. */
  lemma ExtendsWithMoreLines(fs: FileSystem, batch: seq<Path>, file: Path, pre: seq<string>, lines: seq<string>, s: Scan, t: Scan)
    requires pre <= lines && ExtendsWithLines(fs, batch, file, pre, s, t)
    ensures ExtendsWithLines(fs, batch, file, lines, s, t)
  {
    forall i | |s.citations| <= i < |t.citations| ensures FromLines(t.citations[i], file, lines) {
      assert FromLines(t.citations[i], file, pre);
      assert pre[t.citations[i].line - 1] == lines[t.citations[i].line - 1];
    }
  }

  /** Occurrences for the last line and files that may be queued, added to a scan of the earlier lines. */
  lemma ExtendsWithLastLine(fs: FileSystem, batch: seq<Path>, file: Path, lines: seq<string>, s: Scan, prev: Scan,
                            added: seq<Citation>, q: seq<Path>, status: Status)
    requires lines != [] && ExtendsWithLines(fs, batch, file, lines, s, prev)
    requires forall i :: |s.citations| <= i < |prev.citations| ==> prev.citations[i].line < |lines|
    requires forall i :: 0 <= i < |added| ==> added[i].line == |lines| && FromLines(added[i], file, lines)
    requires forall i :: 0 <= i < |q| ==> Queueable(fs, batch, q[i])
    ensures ExtendsWithLines(fs, batch, file, lines, s, Scan(prev.citations + added, prev.queued + q, status))
  {
    var t := Scan(prev.citations + added, prev.queued + q, status);
    forall i | |s.citations| <= i < |t.citations| ensures FromLines(t.citations[i], file, lines) {
      if i >= |prev.citations| {
        assert t.citations[i] == added[i - |prev.citations|];
      }
    }
    forall i, j | |s.citations| <= i < j < |t.citations| ensures t.citations[i].line <= t.citations[j].line {
      if j < |prev.citations| {
        assert t.citations[i] == prev.citations[i] && t.citations[j] == prev.citations[j];
      } else {
        assert t.citations[j].line == |lines| by {
          assert t.citations[j] == added[j - |prev.citations|];
        }
        if i < |prev.citations| {
          assert t.citations[i] == prev.citations[i];
        } else {
          assert t.citations[i] == added[i - |prev.citations|];
        }
      }
    }
    forall i | |s.queued| <= i < |t.queued| ensures Queueable(fs, batch, t.queued[i]) {
      if i >= |prev.queued| {
        assert t.queued[i] == q[i - |prev.queued|];
      }
    }
  }

  /** Line n, scanned after lines 1 to n - 1, adds occurrences for line n and queues existing files outside the batch. */
  lemma ScanLineExtends(fs: FileSystem, batch: seq<Path>, file: Path, lines: seq<string>, s: Scan, prev: Scan)
    requires lines != [] && prev.status == Running
    requires ExtendsWithLines(fs, batch, file, lines[..|lines| - 1], s, prev)
    ensures ExtendsWithLines(fs, batch, file, lines, s, ScanLine(fs, batch, file, |lines|, lines[|lines| - 1], prev))
    ensures IsSkipped(lines[|lines| - 1]) ==> ScanLine(fs, batch, file, |lines|, lines[|lines| - 1], prev) == prev
  {
    var n := |lines|;
    var line := lines[n - 1];
    ExtendsWithMoreLines(fs, batch, file, lines[..n - 1], lines, s, prev);
    if !IsSkipped(line) {
      var added := LineCitations(file, n, line);
      LineCitationsFields(file, n, line);
      NestedFilesQueueable(fs, batch, file, line);
      forall i | |s.citations| <= i < |prev.citations| ensures prev.citations[i].line < n {
        assert FromLines(prev.citations[i], file, lines[..n - 1]);
      }
      var q := match NestedFiles(fs, batch, file, line) case None => [] case Some(q) => q;
      var status := if NestedFiles(fs, batch, file, line).None? then Threw else Running;
      ExtendsWithLastLine(fs, batch, file, lines, s, prev, added, q, status);
      assert prev.queued + [] == prev.queued;
    }
  }

  /**
   * Scanning the lines of a file records occurrences only for lines that
   * are not skipped, with their line numbers in order, and queues only
   * existing files outside the batch.
   */
  lemma {:induction false} ScanLinesProvenance(fs: FileSystem, batch: seq<Path>, file: Path, lines: seq<string>, s: Scan)
    ensures ExtendsWithLines(fs, batch, file, lines, s, ScanLines(fs, batch, file, lines, s))
    decreases |lines|
  {
    if lines != [] {
      var pre := lines[..|lines| - 1];
      var prev := ScanLines(fs, batch, file, pre, s);
      ScanLinesProvenance(fs, batch, file, pre, s);
      if prev.status == Running {
        ScanLineExtends(fs, batch, file, lines, s, prev);
      } else {
        ExtendsWithMoreLines(fs, batch, file, pre, lines, s, prev);
      }
    }
  }

  /** Scanning one file of the batch records occurrences only for its own lines and only when it exists. */
  lemma ScanFileProvenance(fs: FileSystem, batch: seq<Path>, file: Path, s: Scan)
    requires s.status == Running && file in batch
    ensures ExtendsWithFiles(fs, batch, s, ScanFile(fs, batch, file, s))
    ensures forall i :: |s.citations| <= i < |ScanFile(fs, batch, file, s).citations| ==>
              ScanFile(fs, batch, file, s).citations[i].path == file
  {
    var t := ScanFile(fs, batch, file, s);
    if file in fs.present {
      var lines := Read(fs, file).lines;
      ScanLinesProvenance(fs, batch, file, lines, s);
      assert t.citations == ScanLines(fs, batch, file, lines, s).citations;
      assert t.queued == ScanLines(fs, batch, file, lines, s).queued;
    }
  }

  /** Scanning the first k files of a batch records occurrences only for existing files of the batch. */
  lemma {:induction false} ScanBatchProvenance(fs: FileSystem, batch: seq<Path>, k: nat, s: Scan)
    requires k <= |batch|
    ensures ExtendsWithFiles(fs, batch, s, ScanBatch(fs, batch, k, s))
    decreases k
  {
    if k > 0 {
      var prev := ScanBatch(fs, batch, k - 1, s);
      ScanBatchProvenance(fs, batch, k - 1, s);
      if prev.status == Running {
        ScanFileProvenance(fs, batch, batch[k - 1], prev);
      }
    }
  }

  /**
   * Files of a batch are scanned in batch order: the occurrences after the
   * first k files are those after the first k - 1, followed only by
   * occurrences of file k of the batch.
   */
  lemma ScanBatchNextFile(fs: FileSystem, batch: seq<Path>, k: nat, s: Scan)
    requires 0 < k <= |batch|
    ensures ScanBatch(fs, batch, k - 1, s).citations <= ScanBatch(fs, batch, k, s).citations
    ensures forall i :: |ScanBatch(fs, batch, k - 1, s).citations| <= i < |ScanBatch(fs, batch, k, s).citations| ==>
              ScanBatch(fs, batch, k, s).citations[i].path == batch[k - 1]
  {
    var prev := ScanBatch(fs, batch, k - 1, s);
    if prev.status == Running {
      ScanFileProvenance(fs, batch, batch[k - 1], prev);
    }
  }

  /**
   * Every occurrence a parse records comes from a scanned, unskipped line
   * of an existing file the parse recorded, with that line's text and
   * number; and every file recorded after the first batch exists.
   */
  lemma {:induction false} TraverseProvenance(fs: FileSystem, batch: seq<Path>, fuel: nat)
    ensures forall i :: 0 <= i < |Traverse(fs, batch, fuel).citations| ==>
              FromFileSystem(Traverse(fs, batch, fuel).citations[i], fs) &&
              Traverse(fs, batch, fuel).citations[i].path in Traverse(fs, batch, fuel).files
    ensures forall i :: |batch| <= i < |Traverse(fs, batch, fuel).files| ==> Traverse(fs, batch, fuel).files[i] in fs.present
    decreases fuel
  {
    var s := ScanBatch(fs, batch, |batch|, Start);
    var t := Traverse(fs, batch, fuel);
    ScanBatchProvenance(fs, batch, |batch|, Start);
    if s.status == Running && s.queued != [] && fuel > 0 {
      var inner := Traverse(fs, s.queued, fuel - 1);
      TraverseProvenance(fs, s.queued, fuel - 1);
      assert t.citations == s.citations + inner.citations;
      assert t.files == batch + inner.files;
      forall q | 0 <= q < |s.queued| ensures s.queued[q] in fs.present {
        assert Queueable(fs, batch, s.queued[q]);
      }
      NestedProvenance(fs, batch, s.citations, s.queued, inner.citations, inner.files);
    }
  }

  /**
   * Joining the batch's occurrences and files with those of the nested parse
   * keeps every occurrence tied to an existing recorded file, and every file
   * after the batch existing.
   */
  lemma NestedProvenance(fs: FileSystem, batch: seq<Path>, cs: seq<Citation>, queued: seq<Path>,
                         inner: seq<Citation>, files: seq<Path>)
    requires forall i :: 0 <= i < |cs| ==> FromFileSystem(cs[i], fs) && cs[i].path in batch
    requires forall i :: 0 <= i < |inner| ==> FromFileSystem(inner[i], fs) && inner[i].path in files
    requires |queued| <= |files| && files[..|queued|] == queued
    requires forall i :: 0 <= i < |queued| ==> queued[i] in fs.present
    requires forall i :: |queued| <= i < |files| ==> files[i] in fs.present
    ensures forall i :: 0 <= i < |cs + inner| ==> FromFileSystem((cs + inner)[i], fs) && (cs + inner)[i].path in batch + files
    ensures forall i :: |batch| <= i < |batch + files| ==> (batch + files)[i] in fs.present
  {
    forall i | 0 <= i < |cs + inner| ensures FromFileSystem((cs + inner)[i], fs) && (cs + inner)[i].path in batch + files {
      if i < |cs| {
        assert (cs + inner)[i] == cs[i];
      } else {
        assert (cs + inner)[i] == inner[i - |cs|];
      }
    }
    forall i | |batch| <= i < |batch + files| ensures (batch + files)[i] in fs.present {
      var j := i - |batch|;
      assert (batch + files)[i] == files[j];
      if j < |queued| {
        assert files[j] == queued[j];
      }
    }
  }

  /**
   * When the batch queues files and fuel is left, the parse ends as the nested
   * parse does, except that a null from the nested parse is dropped and the
   * parse returns normally.
   */
  lemma TraverseNestedEnd(fs: FileSystem, batch: seq<Path>, fuel: nat)
    requires fuel > 0
    ensures var s := ScanBatch(fs, batch, |batch|, Start);
            s.status == Running && s.queued != [] ==>
              (Traverse(fs, batch, fuel).end == Returned <==> Traverse(fs, s.queued, fuel - 1).end in {Returned, ReturnedNull}) &&
              (Traverse(fs, batch, fuel).end == ThrewException <==> Traverse(fs, s.queued, fuel - 1).end == ThrewException) &&
              (Traverse(fs, batch, fuel).end == OutOfFuel <==> Traverse(fs, s.queued, fuel - 1).end == OutOfFuel)
  {
  }

  /**
   * Two batches that each queue the other's file: every parse of the one
   * runs into the next, so however much fuel the model is given it runs
   * out, and each round records one more file.
   */
  lemma {:induction false} CycleNeverSettles(fs: FileSystem, a: Path, b: Path, fuel: nat)
    requires ScanFile(fs, [a], a, Start).status == Running && ScanFile(fs, [a], a, Start).queued == [b]
    requires ScanFile(fs, [b], b, Start).status == Running && ScanFile(fs, [b], b, Start).queued == [a]
    ensures Traverse(fs, [a], fuel).end == OutOfFuel
    ensures |Traverse(fs, [a], fuel).files| == fuel + 1
    decreases fuel
  {
    assert ScanBatch(fs, [a], 1, Start) == ScanFile(fs, [a], a, Start);
    if fuel > 0 {
      CycleNeverSettles(fs, b, a, fuel - 1);
    }
  }

  /** `\input{b}` on a line: one include match, with the file group `b`. */
  lemma InputLine(name: char)
    requires name != '}'
    ensures IncludeMatches(['\\', 'i', 'n', 'p', 'u', 't', '{', name, '}']) == [Match(0, 7, 8, 9)]
  {
    var line := ['\\', 'i', 'n', 'p', 'u', 't', '{', name, '}'];
    var attempts := IncludeAttempts(line);
    assert line[1] == 'i' && line[2] == 'n' && line[3] == 'p' && line[4] == 'u' && line[5] == 't';
    assert line[1..6] == "input";
    assert GroupAt(line, 6, 9, '{', '}') by {
      assert line[7..8] == [name];
    }
    IncludeMatchAtComplete(line, 0, 7, 8);
    assert attempts[0] == Some(Match(0, 7, 8, 9));
    FindStep(attempts, 0);
    FindStep(attempts, 9);
  }

  /** The file named `c.tex` in directory `/d`. */
  function InDirD(c: char): Path {
    "/d/" + [c] + ".tex"
  }

  /** The one-line file `\input{name}`. */
  function InputOnly(name: char): Reading {
    Reading([['\\', 'i', 'n', 'p', 'u', 't', '{', name, '}']], Complete)
  }

  /** `/d/x.tex` lies in `/d`, the include `y` resolves there to `/d/y.tex`, and distinct names give distinct files. */
  lemma InDirDFiles(x: char, y: char)
    requires x != y && x !in "/}" && y !in "/}"
    ensures Parent(InDirD(x)) == Some("/d")
    ensures NestedFile("/d", [y]) == InDirD(y)
    ensures InDirD(x) != InDirD(y)
  {
    assert InDirD(x) == Resolve("/d", [x] + ".tex");
    ParentOfResolve("/d", [x] + ".tex");
    assert InDirD(y)[3] != InDirD(x)[3];
  }

  /** In `/d/x.tex`, the line `\input{y}` is scanned and queues `/d/y.tex` when that file exists. */
  lemma InputLineQueues(fs: FileSystem, x: char, y: char)
    requires x != y && x !in "/}" && y !in "/}" && InDirD(y) in fs.present
    ensures NestedFiles(fs, [InDirD(x)], InDirD(x), ['\\', 'i', 'n', 'p', 'u', 't', '{', y, '}']) == Some([InDirD(y)])
  {
    var line := ['\\', 'i', 'n', 'p', 'u', 't', '{', y, '}'];
    InputLine(y);
    InDirDFiles(x, y);
    assert GroupText(line, Match(0, 7, 8, 9)) == [y];
    OneIncludeQueues(fs, [InDirD(x)], InDirD(x), line, Match(0, 7, 8, 9), "/d", InDirD(y));
  }

  /** A line with one include match, naming an existing file outside the batch, queues just that file. */
  lemma OneIncludeQueues(fs: FileSystem, batch: seq<Path>, file: Path, line: string, m: Match, dir: Path, p: Path)
    requires IncludeMatches(line) == [m] && Parent(file) == Some(dir)
    requires m.groupStart <= m.groupEnd <= |line| && NestedFile(dir, GroupText(line, m)) == p
    requires p in fs.present && p !in batch
    ensures NestedFiles(fs, batch, file, line) == Some([p])
  {
    var ts := IncludeTargets(dir, line, [m]);
    assert ts == [p];
    assert ts[..0] == [];
    assert Queue(fs, batch, ts) == [p];
  }

  /** An existing file `/d/x.tex` whose one line is `\input{y}` queues `/d/y.tex` when that exists too. */
  lemma InputFileScan(fs: FileSystem, x: char, y: char)
    requires x != y && x !in "/}" && y !in "/}" && InDirD(x) in fs.present && InDirD(y) in fs.present
    requires Read(fs, InDirD(x)) == InputOnly(y)
    ensures ScanFile(fs, [InDirD(x)], InDirD(x), Start).status == Running
    ensures ScanFile(fs, [InDirD(x)], InDirD(x), Start).queued == [InDirD(y)]
  {
    var file := InDirD(x);
    var line := ['\\', 'i', 'n', 'p', 'u', 't', '{', y, '}'];
    InputLineQueues(fs, x, y);
    assert FirstKept(line) == Some('\\');
    var s := ScanLine(fs, [file], file, 1, line, Start);
    assert s.status == Running && s.queued == [InDirD(y)];
    assert [line][..0] == [];
    assert ScanLines(fs, [file], file, [line], Start) == s;
  }

  /** Two files that include each other: the parse never settles, whatever the fuel. */
  lemma CycleExample(fuel: nat)
    ensures var fs := FileSystem({InDirD('a'), InDirD('b')}, map[InDirD('a') := InputOnly('b'), InDirD('b') := InputOnly('a')]);
            Traverse(fs, [InDirD('a')], fuel).end == OutOfFuel
  {
    var fs := FileSystem({InDirD('a'), InDirD('b')}, map[InDirD('a') := InputOnly('b'), InDirD('b') := InputOnly('a')]);
    assert InDirD('a') != InDirD('b') by {
      assert InDirD('a')[3] != InDirD('b')[3];
    }
    InputFileScan(fs, 'a', 'b');
    InputFileScan(fs, 'b', 'a');
    CycleNeverSettles(fs, InDirD('a'), InDirD('b'), fuel);
  }
}
