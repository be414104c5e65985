/**
 * What one line of a `.tex` file records: which occurrences a line's cite
 * matches give, in which order, and which nested files a line queues.
 */
module LineProperties {
  import opened Wrappers
  import opened JavaStrings
  import opened Matches
  import opened TexPatterns
  import opened Paths
  import opened TexScan

  /** Occurrence c is one of the keys of match m on line n of the file. */
  predicate RecordedAt(c: Citation, file: Path, n: nat, line: string, m: Match) {
    m.groupStart <= m.groupEnd <= |line| &&
    c.path == file && c.line == n && c.lineText == line &&
    c.start == m.start && c.end == m.end && c.key in MatchKeys(line, m)
  }

  /** Of two occurrences, the first belongs to the same match as the second or ends before it starts. */
  predicate Before(c: Citation, d: Citation) {
    (c.start == d.start && c.end == d.end) || c.end <= d.start
  }

  /** The occurrences of one match are exactly its keys, each with the match's offsets. */
  lemma KeyCitationsMembers(file: Path, n: nat, line: string, m: Match, c: Citation)
    requires m.groupStart <= m.groupEnd <= |line|
    ensures c in KeyCitations(file, n, line, m) <==> RecordedAt(c, file, n, line, m)
  {
    var cs := KeyCitations(file, n, line, m);
    var keys := MatchKeys(line, m);
    if RecordedAt(c, file, n, line, m) {
      var q :| 0 <= q < |keys| && keys[q] == c.key;
      assert cs[q] == c;
    }
  }

  /** The matches before the last one still lie in the line. */
  lemma InLinePrefix(line: string, ms: seq<Match>)
    requires InLine(line, ms) && ms != []
    ensures InLine(line, ms[..|ms| - 1])
  {
    var pre := ms[..|ms| - 1];
    forall k | 0 <= k < |pre| ensures pre[k].groupStart <= pre[k].groupEnd <= |line| {
      assert pre[k] == ms[k];
    }
  }

  /** Every occurrence recorded for a sequence of matches is a key of one of them. */
  lemma {:induction false} CitationsOfSound(file: Path, n: nat, line: string, ms: seq<Match>, c: Citation)
    requires InLine(line, ms) && c in CitationsOf(file, n, line, ms)
    ensures exists k :: 0 <= k < |ms| && RecordedAt(c, file, n, line, ms[k])
    decreases |ms|
  {
    var pre := ms[..|ms| - 1];
    InLinePrefix(line, ms);
    if c in CitationsOf(file, n, line, pre) {
      CitationsOfSound(file, n, line, pre, c);
      var k :| 0 <= k < |pre| && RecordedAt(c, file, n, line, pre[k]);
      assert ms[k] == pre[k];
    } else {
      KeyCitationsMembers(file, n, line, ms[|ms| - 1], c);
    }
  }

  /** Every key of every match of the sequence is recorded. */
  lemma {:induction false} CitationsOfComplete(file: Path, n: nat, line: string, ms: seq<Match>, k: nat, c: Citation)
    requires InLine(line, ms) && k < |ms| && RecordedAt(c, file, n, line, ms[k])
    ensures c in CitationsOf(file, n, line, ms)
    decreases |ms|
  {
    var pre := ms[..|ms| - 1];
    InLinePrefix(line, ms);
    if k < |pre| {
      assert ms[k] == pre[k];
      CitationsOfComplete(file, n, line, pre, k, c);
    } else {
      KeyCitationsMembers(file, n, line, ms[k], c);
    }
  }

  /** The occurrences of a sequence of matches are exactly the keys of its matches. */
  lemma CitationsOfMembers(file: Path, n: nat, line: string, ms: seq<Match>, c: Citation)
    requires InLine(line, ms)
    ensures c in CitationsOf(file, n, line, ms) <==> exists k :: 0 <= k < |ms| && RecordedAt(c, file, n, line, ms[k])
  {
    if c in CitationsOf(file, n, line, ms) {
      CitationsOfSound(file, n, line, ms, c);
    }
    if exists k :: 0 <= k < |ms| && RecordedAt(c, file, n, line, ms[k]) {
      var k :| 0 <= k < |ms| && RecordedAt(c, file, n, line, ms[k]);
      CitationsOfComplete(file, n, line, ms, k, c);
    }
  }

  /**
   * `matchCitation` records exactly the keys of the cite matches `find()`
   * reports along the line, each with its match's start and end, the line
   * number and the line.
   */
  lemma LineCitationsMembers(file: Path, n: nat, line: string, c: Citation)
    ensures c in LineCitations(file, n, line) <==>
            exists k :: 0 <= k < |CiteMatches(CiteCommands, line)| &&
                        RecordedAt(c, file, n, line, CiteMatches(CiteCommands, line)[k])
  {
    CitationsOfMembers(file, n, line, CiteMatches(CiteCommands, line), c);
  }

  /** Occurrences of disjoint matches, listed left to right, come out left to right. */
  lemma {:induction false} CitationsOfOrdered(file: Path, n: nat, line: string, ms: seq<Match>)
    requires InLine(line, ms)
    requires forall k, l :: 0 <= k < l < |ms| ==> ms[k].end <= ms[l].start
    ensures forall i, j :: 0 <= i < j < |CitationsOf(file, n, line, ms)| ==>
              Before(CitationsOf(file, n, line, ms)[i], CitationsOf(file, n, line, ms)[j])
    decreases |ms|
  {
    if ms != [] {
      var pre := ms[..|ms| - 1];
      var last := ms[|ms| - 1];
      assert InLine(line, pre) by {
        forall k | 0 <= k < |pre| ensures pre[k].groupStart <= pre[k].groupEnd <= |line| {
          assert pre[k] == ms[k];
        }
      }
      CitationsOfOrdered(file, n, line, pre);
      var a := CitationsOf(file, n, line, pre);
      var b := KeyCitations(file, n, line, last);
      var cs := CitationsOf(file, n, line, ms);
      assert cs == a + b;
      forall i, j | 0 <= i < j < |cs| ensures Before(cs[i], cs[j]) {
        if j < |a| {
          assert cs[i] == a[i] && cs[j] == a[j];
        } else if |a| <= i {
          assert cs[i] == b[i - |a|] && cs[j] == b[j - |a|];
        } else {
          assert cs[i] == a[i] && cs[j] == b[j - |a|];
          CitationsOfMembers(file, n, line, pre, a[i]);
          var k :| 0 <= k < |pre| && RecordedAt(a[i], file, n, line, pre[k]);
          assert pre[k] == ms[k];
        }
      }
    }
  }

  /**
   * Along a line, occurrences are recorded left to right: two occurrences
   * either share their match's offsets or the first ends where or before
   * the second starts.
   */
  lemma LineCitationsOrdered(file: Path, n: nat, line: string)
    ensures forall i, j :: 0 <= i < j < |LineCitations(file, n, line)| ==>
              Before(LineCitations(file, n, line)[i], LineCitations(file, n, line)[j])
  {
    var attempts := CiteAttempts(CiteCommands, line);
    var ms := CiteMatches(CiteCommands, line);
    MatchesOrdered(attempts, 0);
    forall k, l | 0 <= k < l < |ms| ensures ms[k].end <= ms[l].start {
      NonOverlappingApart(ms, |line|, k, l);
    }
    CitationsOfOrdered(file, n, line, ms);
  }

  /**
   * The keys of a match are the key group cut at the commas; unless the
   * group ends with a comma (trailing empty keys are dropped), joining them
   * with commas gives the group back.
   */
  lemma KeysRoundTrip(line: string, m: Match)
    requires m.groupStart <= m.groupEnd <= |line|
    requires var g := GroupText(line, m); g == [] || g[|g| - 1] != ','
    ensures |MatchKeys(line, m)| >= 1
    ensures Join(MatchKeys(line, m), ',') == GroupText(line, m)
    ensures forall q :: 0 <= q < |MatchKeys(line, m)| ==> ',' !in MatchKeys(line, m)[q]
  {
    var g := GroupText(line, m);
    SplitPieces(g, ',');
    JoinSplitAll(g, ',');
  }

  /** The queueing filter keeps each target as often as it occurs, provided it exists and is not in the batch. */
  lemma {:induction false} QueueCounts(fs: FileSystem, batch: seq<Path>, ts: seq<Path>, p: Path)
    ensures multiset(Queue(fs, batch, ts))[p] == if Queueable(fs, batch, p) then multiset(ts)[p] else 0
    decreases |ts|
  {
    if ts != [] {
      var pre := ts[..|ts| - 1];
      QueueCounts(fs, batch, pre, p);
      assert ts == pre + [ts[|ts| - 1]];
    }
  }

  /** A path is queued exactly when some target names it, it exists and it is not in the current batch. */
  lemma QueueMembers(fs: FileSystem, batch: seq<Path>, ts: seq<Path>, p: Path)
    ensures p in Queue(fs, batch, ts) <==> p in ts && p in fs.present && p !in batch
  {
    QueueCounts(fs, batch, ts, p);
  }

  /** `matchNestedFile` throws exactly when the line has an include match and the file has no parent directory. */
  lemma NestedFilesThrows(fs: FileSystem, batch: seq<Path>, file: Path, line: string)
    ensures NestedFiles(fs, batch, file, line).None? <==> IncludeMatches(line) != [] && Parent(file).None?
  {
  }

  /**
   * What `matchNestedFile` queues for a line in a file with a parent
   * directory: exactly the existing files outside the batch that an
   * include match of the line names, resolved against that directory.
   */
  lemma NestedFilesMembers(fs: FileSystem, batch: seq<Path>, file: Path, line: string, p: Path)
    requires Parent(file).Some?
    ensures NestedFiles(fs, batch, file, line).Some?
    ensures p in NestedFiles(fs, batch, file, line).value <==>
              p in fs.present && p !in batch &&
              exists k :: 0 <= k < |IncludeMatches(line)| &&
                          p == NestedFile(Parent(file).value, GroupText(line, IncludeMatches(line)[k]))
  {
    var ms := IncludeMatches(line);
    var dir := Parent(file).value;
    var ts := IncludeTargets(dir, line, ms);
    assert InLine(line, ms);
    if ms == [] {
      assert NestedFiles(fs, batch, file, line).value == [];
    } else {
      assert NestedFiles(fs, batch, file, line).value == Queue(fs, batch, ts);
      QueueMembers(fs, batch, ts, p);
      IncludeTargetsMembers(dir, line, ms, p);
    }
  }

  /** The targets of a sequence of include matches are exactly the files they name under the directory. */
  lemma IncludeTargetsMembers(dir: Path, line: string, ms: seq<Match>, p: Path)
    requires InLine(line, ms)
    ensures p in IncludeTargets(dir, line, ms) <==> exists k :: 0 <= k < |ms| && p == NestedFile(dir, GroupText(line, ms[k]))
  {
    var ts := IncludeTargets(dir, line, ms);
    if p in ts {
      var k :| 0 <= k < |ts| && ts[k] == p;
      assert p == NestedFile(dir, GroupText(line, ms[k]));
    }
    if exists k :: 0 <= k < |ms| && p == NestedFile(dir, GroupText(line, ms[k])) {
      var k :| 0 <= k < |ms| && p == NestedFile(dir, GroupText(line, ms[k]));
      assert ts[k] == p;
    }
  }

  /** A relative include names a `.tex` file directly inside the directory of the including file. */
  lemma NestedFileInDirectory(dir: Path, name: string)
    requires name != [] && '/' !in name
    requires dir != [] && (dir == "/" || dir[|dir| - 1] != '/')
    ensures EndsWith(NestedFile(dir, name), TexExtension)
    ensures Parent(NestedFile(dir, name)) == Some(dir)
  {
    var w := WithTexExtension(name);
    assert '/' !in w by {
      if w != name {
        assert w == name + TexExtension;
        forall i | 0 <= i < |w| ensures w[i] != '/' {
          if i >= |name| {
            assert w[i] == TexExtension[i - |name|];
          }
        }
      }
    }
    ParentOfResolve(dir, w);
  }

  /** An absolute include stands for itself, whatever the directory of the including file. */
  lemma NestedFileAbsolute(dir: Path, name: string)
    requires name != [] && name[0] == '/'
    ensures NestedFile(dir, name) == WithTexExtension(name)
  {
    assert WithTexExtension(name)[0] == '/';
  }
}
